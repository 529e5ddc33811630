/** The dashboard's session handling (`Dashboard.jsx`): the guard that runs
    when the page mounts, logout, and the header of the protected request. */
module SessionGuard {
  import opened Wrappers
  import opened Browser

  /** What the mount effect leaves behind: where it navigated (if anywhere),
      the `user` state, and `loading` (true keeps the protected content hidden). */
  datatype GuardResult = GuardResult(redirect: Option<Route>, user: Option<UserInfo>, loading: bool)

  /** The mount effect. A missing or empty `token` or `user` entry sends the
      visitor to `/auth`; so does a `user` entry that does not parse. Only
      when both entries are there and the user parses is the content shown. */
  function Guard(st: Storage, codec: JsonCodec): (g: GuardResult)
    ensures !g.loading <==>
      && Truthy(GetItem(st, TokenKey)) && Truthy(GetItem(st, UserKey))
      && codec.parse(st[UserKey]).Some?
    ensures g.loading <==> g.redirect == Some(AuthPage)
    ensures g.redirect.None? || g.redirect == Some(AuthPage)
    ensures g.user.Some? <==> !g.loading
    ensures !g.loading ==> g.user == codec.parse(st[UserKey])
  {
    var token := GetItem(st, TokenKey);
    var userData := GetItem(st, UserKey);
    if !Truthy(token) || !Truthy(userData) then GuardResult(Some(AuthPage), None, true)
    else
      match codec.parse(userData.value)
      case None => GuardResult(Some(AuthPage), None, true)
      case Some(u) => GuardResult(None, Some(u), false)
  }

  /** `handleLogout`: both session entries go, nothing else in storage
      changes, and the visitor is sent to the home page. */
  function Logout(st: Storage): (r: (Storage, Route))
    ensures TokenKey !in r.0 && UserKey !in r.0
    ensures forall k :: k != TokenKey && k != UserKey ==> (k in r.0 <==> k in st)
    ensures forall k :: k in r.0 ==> r.0[k] == st[k]
    ensures r.1 == Home
  {
    (RemoveItem(RemoveItem(st, TokenKey), UserKey), Home)
  }

  /** The `Authorization` header of the protected request: a template
      literal, so a missing token becomes the text `null`. */
  function BearerHeader(st: Storage): (h: string)
    ensures TokenKey in st ==> h == "Bearer " + st[TokenKey]
    ensures TokenKey !in st ==> h == "Bearer null"
  {
    "Bearer " + (match GetItem(st, TokenKey) case Some(t) => t case None => "null")
  }

  /** Logging out twice leaves storage as logging out once. */
  lemma LogoutIdempotent(st: Storage)
    ensures Logout(Logout(st).0).0 == Logout(st).0
  {
  }

  /** After logout the guard always redirects to `/auth`, whatever else is stored. */
  lemma GuardAfterLogout(st: Storage, codec: JsonCodec)
    ensures Guard(Logout(st).0, codec) == GuardResult(Some(AuthPage), None, true)
  {
  }

  /** Logout touches only the session: every other entry keeps its value. */
  lemma LogoutKeepsOtherEntries(st: Storage, k: string)
    requires k in st && k != TokenKey && k != UserKey
    ensures k in Logout(st).0 && Logout(st).0[k] == st[k]
  {
  }
}
