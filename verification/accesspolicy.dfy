/** `TestController.java`: three probe endpoints behind method-level
    checks. `hasRole('X')` holds when the caller's authorities include
    `ROLE_X`; here a caller is the set of roles it was granted. */
module AccessPolicy {
  import opened Accounts

  datatype Endpoint = PublicProbe | UserProbe | AdminProbe {
    function Path(): string
    {
      match this
      case PublicProbe => "/test/public"
      case UserProbe => "/test/user"
      case AdminProbe => "/test/admin"
    }
  }

  /** No `Authenticated` value means an anonymous caller. */
  datatype Caller = Anonymous | Authenticated(roles: set<Role>)

  datatype Answer = Ok(text: string) | Denied

  function RolesOf(c: Caller): set<Role>
  {
    match c
    case Anonymous => {}
    case Authenticated(roles) => roles
  }

  /** The `@PreAuthorize` expression of each endpoint; the public one has none. */
  predicate Permits(e: Endpoint, c: Caller)
  {
    match e
    case PublicProbe => true
    case UserProbe => USER in RolesOf(c) || ADMIN in RolesOf(c)
    case AdminProbe => ADMIN in RolesOf(c)
  }

  function Text(e: Endpoint): string
  {
    match e
    case PublicProbe => "This is a public endpoint!"
    case UserProbe => "This is a protected user endpoint!"
    case AdminProbe => "This is a protected admin endpoint!"
  }

  /** Calling an endpoint: its fixed text when permitted, a refusal otherwise. */
  function Call(e: Endpoint, c: Caller): (a: Answer)
    ensures a.Ok? <==> (e == PublicProbe || ADMIN in RolesOf(c) || (e == UserProbe && USER in RolesOf(c)))
    ensures a.Ok? ==> a.text == Text(e)
  {
    if Permits(e, c) then Ok(Text(e)) else Denied
  }

  /** Who may call the admin probe may call every probe. */
  lemma AdminReachesAll(e: Endpoint, c: Caller)
    requires Call(AdminProbe, c).Ok?
    ensures Call(e, c).Ok?
  {
  }

  /** Granting more roles never takes access away. */
  lemma MoreRolesMoreAccess(e: Endpoint, roles: set<Role>, more: set<Role>)
    requires roles <= more && Call(e, Authenticated(roles)).Ok?
    ensures Call(e, Authenticated(more)) == Call(e, Authenticated(roles))
  {
  }

  /** The answer's text never depends on who asked. */
  lemma TextIndependentOfCaller(e: Endpoint, c1: Caller, c2: Caller)
    requires Call(e, c1).Ok? && Call(e, c2).Ok?
    ensures Call(e, c1) == Call(e, c2)
  {
  }

  /** An anonymous caller reaches only the public probe. */
  lemma AnonymousOnlyPublic(e: Endpoint)
    ensures Call(e, Anonymous).Ok? <==> e == PublicProbe
  {
  }
}
