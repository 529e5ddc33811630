/** `UserService.java`: sign-up and login over the user store, returning
    what the frontend stores. An exception is a `Failure` carrying its
    message. */
module UserService {
  import opened Wrappers
  import opened JavaLong
  import opened Accounts
  import opened Jwt

  datatype SignUpRequest = SignUpRequest(name: string, email: string, password: string, confirmPassword: string)
  datatype LoginRequest = LoginRequest(email: string, password: string)
  datatype AuthResponse = AuthResponse(token: string, id: int, name: string, email: string, role: string)

  const EmailTaken: string := "Email is already taken!"
  const PasswordsMismatch: string := "Passwords do not match!"
  const UserNotFound: string := "User not found"
  const NotFoundPrefix: string := "User not found with email: "

  /** The collaborators injected into the service. `authenticate` stands
      for the authentication manager: given the store, the email and the raw
      password it yields the principal's username or the message of the
      exception it throws. `encode` is the password encoder; `defaultRole`
      is the role a new `User` entity starts with. */
  datatype Services = Services(
    authenticate: (Repository, string, string) -> Result<string, string>,
    encode: string -> string,
    jwt: JwtConfig,
    defaultRole: Role)

  /** `loadUserByUsername`: the user with that email, or the not-found message. */
  function LoadUserByUsername(repo: Repository, email: string): (r: Result<UserRecord, string>)
    ensures r.Success? <==> ExistsByEmail(repo, email)
    ensures r.Success? ==> r.value in repo.users && r.value.email == email
    ensures r.Failure? ==> r.error == NotFoundPrefix + email
  {
    match FindByEmail(repo, email)
    case Some(u) => Success(u)
    case None => Failure(NotFoundPrefix + email)
  }

  /** The response for a stored user and a token. */
  function ResponseFor(token: string, u: UserRecord): AuthResponse
  {
    AuthResponse(token, u.id, u.name, u.email, u.role.Name())
  }

  /** `login` at clock reading `now`: authenticate, look the principal up
      by email, sign a token for it. The store never changes. */
  function Login(repo: Repository, req: LoginRequest, svc: Services, now: Long): (r: Result<AuthResponse, string>)
    ensures var auth := svc.authenticate(repo, req.email, req.password);
            && (auth.Failure? ==> r == Failure(auth.error))
            && (auth.Success? && !ExistsByEmail(repo, auth.value) ==> r == Failure(UserNotFound))
            && (auth.Success? && ExistsByEmail(repo, auth.value) ==>
                  (r.Failure? <==> svc.jwt.secret == "") &&
                  (r.Failure? ==> r.error == HmacError) &&
                  (r.Success? ==> r.value == ResponseFor(GenerateToken(svc.jwt, auth.value, now).value,
                                                         FindByEmail(repo, auth.value).value)))
  {
    var auth := svc.authenticate(repo, req.email, req.password);
    if auth.Failure? then Failure(auth.error)
    else
      var found := FindByEmail(repo, auth.value);
      if found.None? then Failure(UserNotFound)
      else
        var token := GenerateToken(svc.jwt, auth.value, now);
        if token.Failure? then Failure(token.error)
        else Success(ResponseFor(token.value, found.value))
  }

  /** The accepted branch of `signup`: save the user with the encoded
      password and the default role, then sign a token for its email. The
      user stays saved even if signing fails. */
  function Register(repo: Repository, req: SignUpRequest, svc: Services, now: Long): (r: (Repository, Result<AuthResponse, string>))
    ensures r.0.users == repo.users + [UserRecord(repo.nextId, req.name, req.email, svc.encode(req.password), svc.defaultRole)]
    ensures r.1.Failure? <==> svc.jwt.secret == ""
    ensures r.1.Success? ==>
              r.1.value == AuthResponse(GenerateToken(svc.jwt, req.email, now).value, repo.nextId,
                                        req.name, req.email, svc.defaultRole.Name())
    ensures Consistent(repo) && !ExistsByEmail(repo, req.email) ==> Consistent(r.0)
  {
    var (repo', saved) := Save(repo, req.name, req.email, svc.encode(req.password), svc.defaultRole);
    assert repo'.users == repo.users + [saved];
    var token := GenerateToken(svc.jwt, saved.email, now);
    if token.Failure? then (repo', Failure(token.error))
    else (repo', Success(ResponseFor(token.value, saved)))
  }

  /** `signup` at clock reading `now`. A taken email is refused before the
      passwords are compared; either refusal leaves the store as it was.
      Otherwise exactly one user is saved, with the encoded password and
      the default role, and stays saved even if signing the token fails. */
  function Signup(repo: Repository, req: SignUpRequest, svc: Services, now: Long): (r: (Repository, Result<AuthResponse, string>))
    ensures ExistsByEmail(repo, req.email) ==> r == (repo, Failure(EmailTaken))
    ensures !ExistsByEmail(repo, req.email) && req.password != req.confirmPassword ==>
              r == (repo, Failure(PasswordsMismatch))
    ensures r.1.Success? ==> !ExistsByEmail(repo, req.email) && req.password == req.confirmPassword
    ensures !ExistsByEmail(repo, req.email) && req.password == req.confirmPassword ==>
              r == Register(repo, req, svc, now) && r.0 != repo
    ensures Consistent(repo) ==> Consistent(r.0)
  {
    if ExistsByEmail(repo, req.email) then (repo, Failure(EmailTaken))
    else if req.password != req.confirmPassword then (repo, Failure(PasswordsMismatch))
    else
      var r := Register(repo, req, svc, now);
      assert |r.0.users| != |repo.users|;
      r
  }

  /** Logging in after signing up, as the principal the new email names,
      returns the account sign-up returned; only the token is new. */
  lemma SignupThenLogin(repo: Repository, req: SignUpRequest, svc: Services, now: Long, later: Long, password: string)
    requires Signup(repo, req, svc, now).1.Success?
    requires svc.authenticate(Signup(repo, req, svc, now).0, req.email, password) == Success(req.email)
    ensures var signed := Signup(repo, req, svc, now).1.value;
            var logged := Login(Signup(repo, req, svc, now).0, LoginRequest(req.email, password), svc, later);
            && logged.Success?
            && logged.value == signed.(token := GenerateToken(svc.jwt, req.email, later).value)
  {
    FindAfterSave(repo, req.name, req.email, svc.encode(req.password), svc.defaultRole, req.email);
  }
}
