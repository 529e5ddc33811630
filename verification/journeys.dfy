/** The frontend and the backend together: a request the sign-in page
    sends is answered by the controller, the answer comes back as a
    `fetch` outcome, and the dashboard reads what was stored. */
module Journeys {
  import opened Wrappers
  import opened Text
  import opened JavaLong
  import opened Browser
  import opened AuthForm
  import opened SessionGuard
  import opened Accounts
  import opened Jwt
  import opened UserService
  import opened AuthController

  /** The request body as the controller binds it. A sign-in never touches
      the store; a sign-up with a taken email leaves it as it is too. */
  function Dispatch(req: Request, repo: Repository, svc: Services, now: Long): (r: (Repository, HttpResponse))
    ensures req.payload.SignInPayload? ==> r.0 == repo
    ensures req.payload.SignUpPayload? && ExistsByEmail(repo, req.payload.email) ==>
              r == (repo, BadRequest400(ErrorPrefix + EmailTaken))
  {
    match req.payload
    case SignInPayload(email, password) => (repo, LoginEndpoint(repo, LoginRequest(email, password), svc, now))
    case SignUpPayload(name, email, password, confirm) =>
      SignupEndpoint(repo, SignUpRequest(name, email, password, confirm), svc, now)
  }

  /** The reply as `fetch` and `response.json()` see it: a 200 body holds
      the response fields, a 400 body holds `message`. */
  function Deliver(h: HttpResponse): (o: FetchOutcome)
    ensures o.Ok? <==> h.Ok200?
    ensures h.BadRequest400? ==> o == NotOk(Some(h.message))
    ensures h.Ok200? ==> o.data.token == h.body.token && CachedUser(o.data) ==
                         UserInfo(h.body.id, h.body.name, h.body.email, h.body.role)
  {
    match h
    case Ok200(b) => Ok(AuthData(b.token, b.id, b.name, b.email, b.role))
    case BadRequest400(m) => NotOk(Some(m))
  }

  /** The page strips exactly the prefix the controller adds. */
  lemma StripUndoesPrefix(m: string)
    ensures StripServerPrefix(ErrorPrefix + m) == m
  {
    assert (ErrorPrefix + m)[..|ErrorPrefix|] == ErrorPrefix;
    assert (ErrorPrefix + m)[|ErrorPrefix|..] == m;
  }

  /** A 400 from either endpoint puts the service's own message in the banner
      and leaves storage alone. */
  lemma BadRequestShowsServiceMessage(s: AuthState, req: Request, m: string, st: Storage, codec: JsonCodec)
    ensures FinishSubmit(s, req, Deliver(BadRequest400(ErrorPrefix + m)), st, codec).0.error == m
    ensures FinishSubmit(s, req, Deliver(BadRequest400(ErrorPrefix + m)), st, codec).1 == st
  {
    StripUndoesPrefix(m);
  }

  /** A successful sign-in or sign-up with a non-empty token lets the
      dashboard in, showing the user the server returned. */
  lemma SuccessPassesGuard(s: AuthState, req: Request, data: AuthData, st: Storage, codec: JsonCodec)
    requires RoundTrips(codec) && data.token != ""
    ensures var st' := FinishSubmit(s, req, Ok(data), st, codec).1;
            && Guard(st', codec) == GuardResult(None, Some(CachedUser(data)), false)
            && BearerHeader(st') == "Bearer " + data.token
  {
    var st' := FinishSubmit(s, req, Ok(data), st, codec).1;
    assert codec.parse(codec.stringify(CachedUser(data))) == Some(CachedUser(data));
    assert st'[UserKey] == codec.stringify(CachedUser(data));
    assert st'[TokenKey] == data.token;
  }

  /** A success stores the token it carries. */
  lemma StoredToken(s: AuthState, req: Request, data: AuthData, st: Storage, codec: JsonCodec)
    ensures TokenKey in FinishSubmit(s, req, Ok(data), st, codec).1
    ensures FinishSubmit(s, req, Ok(data), st, codec).1[TokenKey] == data.token
  {
  }

  /** The backend's password comparison is unreachable from this page: the
      page sends a sign-up only when both passwords agree. */
  lemma PageNeverSendsMismatch(s: AuthState, repo: Repository, svc: Services, now: Long)
    requires StartSubmit(s).1.Some? && s.mode == SignUp
    ensures Dispatch(StartSubmit(s).1.value, repo, svc, now).1 != BadRequest400(ErrorPrefix + PasswordsMismatch)
  {
    var req := StartSubmit(s).1.value;
    assert s.form.password == s.form.confirmPassword;
    if ExistsByEmail(repo, s.form.email) {
      assert ErrorPrefix + EmailTaken != ErrorPrefix + PasswordsMismatch by {
        assert (ErrorPrefix + EmailTaken)[7] != (ErrorPrefix + PasswordsMismatch)[7];
      }
    }
  }

  /** Signing up with an email already stored: the store is unchanged,
      storage is unchanged and the banner reads the service's message. */
  lemma TakenEmailJourney(s: AuthState, repo: Repository, svc: Services, now: Long, st: Storage, codec: JsonCodec)
    requires StartSubmit(s).1.Some? && s.mode == SignUp && ExistsByEmail(repo, s.form.email)
    ensures var (s1, req) := StartSubmit(s);
            var (repo', h) := Dispatch(req.value, repo, svc, now);
            var (s2, st2) := FinishSubmit(s1, req.value, Deliver(h), st, codec);
            repo' == repo && st2 == st && s2.error == EmailTaken && !s2.loading
  {
    var (s1, req) := StartSubmit(s);
    var (repo', h) := Dispatch(req.value, repo, svc, now);
    assert h == BadRequest400(ErrorPrefix + EmailTaken);
    BadRequestShowsServiceMessage(s1, req.value, EmailTaken, st, codec);
  }

  /** The controller's answer to a sign-up it accepts. */
  lemma SignUpAnswer(repo: Repository, req: SignUpRequest, svc: Services, now: Long)
    requires !ExistsByEmail(repo, req.email) && req.password == req.confirmPassword && svc.jwt.secret != ""
    ensures var token := GenerateToken(svc.jwt, req.email, now).value;
            SignupEndpoint(repo, req, svc, now).1 ==
              Ok200(AuthResponse(token, repo.nextId, req.name, req.email, svc.defaultRole.Name()))
    ensures GenerateToken(svc.jwt, req.email, now).value != ""
  {
  }

  /** A new account: the store gains exactly the new user and the page
      arms navigation to the dashboard. */
  lemma SignUpJourney(s: AuthState, s1: AuthState, req: Request, repo: Repository, svc: Services, now: Long,
                      st: Storage, codec: JsonCodec)
    requires StartSubmit(s) == (s1, Some(req)) && s.mode == SignUp && !ExistsByEmail(repo, s.form.email)
    requires svc.jwt.secret != "" && RoundTrips(codec)
    ensures var (repo', h) := Dispatch(req, repo, svc, now);
            var (s2, st2) := FinishSubmit(s1, req, Deliver(h), st, codec);
            && repo'.users == repo.users + [UserRecord(repo.nextId, s.form.name, s.form.email,
                                                        svc.encode(s.form.password), svc.defaultRole)]
            && s2.pendingNavigation == Some(Dashboard) && s2.success == SignupSucceeded
  {
    var sreq := SignUpRequest(s.form.name, s.form.email, s.form.password, s.form.confirmPassword);
    assert req.payload == SignUpPayload(s.form.name, s.form.email, s.form.password, s.form.confirmPassword);
    assert s.form.password == s.form.confirmPassword;
    SignUpAnswer(repo, sreq, svc, now);
  }

  /** What the page receives for a sign-up the controller accepts. */
  lemma SignUpDelivers(s: AuthState, s1: AuthState, req: Request, repo: Repository, svc: Services, now: Long)
    requires StartSubmit(s) == (s1, Some(req)) && s.mode == SignUp && !ExistsByEmail(repo, s.form.email)
    requires svc.jwt.secret != ""
    ensures var token := GenerateToken(svc.jwt, s.form.email, now).value;
            && token != ""
            && Deliver(Dispatch(req, repo, svc, now).1) ==
                 Ok(AuthData(token, repo.nextId, s.form.name, s.form.email, svc.defaultRole.Name()))
  {
    var sreq := SignUpRequest(s.form.name, s.form.email, s.form.password, s.form.confirmPassword);
    assert req.payload == SignUpPayload(s.form.name, s.form.email, s.form.password, s.form.confirmPassword);
    assert s.form.password == s.form.confirmPassword;
    SignUpAnswer(repo, sreq, svc, now);
  }

  /** After a new account the dashboard admits the visitor as the new
      user, and the stored token names them (cut at a quote). */
  lemma SignUpThenDashboard(s: AuthState, s1: AuthState, req: Request, repo: Repository, svc: Services, now: Long,
                            st: Storage, codec: JsonCodec)
    requires StartSubmit(s) == (s1, Some(req)) && s.mode == SignUp && !ExistsByEmail(repo, s.form.email)
    requires svc.jwt.secret != "" && RoundTrips(codec)
    ensures var st2 := FinishSubmit(s1, req, Deliver(Dispatch(req, repo, svc, now).1), st, codec).1;
            && Guard(st2, codec).user == Some(UserInfo(repo.nextId, s.form.name, s.form.email, svc.defaultRole.Name()))
            && ExtractUsername(st2[TokenKey]) == Some(UpToQuote(s.form.email))
  {
    SignUpDelivers(s, s1, req, repo, svc, now);
    var token := GenerateToken(svc.jwt, s.form.email, now).value;
    var data := AuthData(token, repo.nextId, s.form.name, s.form.email, svc.defaultRole.Name());
    SuccessPassesGuard(s1, req, data, st, codec);
    StoredToken(s1, req, data, st, codec);
    ExtractAfterGenerate(svc.jwt, s.form.email, now);
  }

  /** Signing in as a stored user the authentication manager accepts:
      the store is untouched, the page arms navigation, and the dashboard
      admits the visitor as the stored user. */
  lemma SignInJourney(s: AuthState, s1: AuthState, req: Request, repo: Repository, svc: Services, now: Long,
                      st: Storage, codec: JsonCodec, u: UserRecord)
    requires StartSubmit(s) == (s1, Some(req)) && s.mode == SignIn
    requires svc.authenticate(repo, s.form.email, s.form.password) == Success(u.email)
    requires FindByEmail(repo, u.email) == Some(u)
    requires svc.jwt.secret != "" && RoundTrips(codec)
    ensures Dispatch(req, repo, svc, now).0 == repo
    ensures var (s2, st2) := FinishSubmit(s1, req, Deliver(Dispatch(req, repo, svc, now).1), st, codec);
            && s2.pendingNavigation == Some(Dashboard) && s2.success == LoginSucceeded
            && Guard(st2, codec).user == Some(UserInfo(u.id, u.name, u.email, u.role.Name()))
  {
    assert req.payload == SignInPayload(s.form.email, s.form.password);
    var token := GenerateToken(svc.jwt, u.email, now).value;
    var resp := AuthResponse(token, u.id, u.name, u.email, u.role.Name());
    assert Dispatch(req, repo, svc, now).1 == Ok200(resp);
    var data := AuthData(token, u.id, u.name, u.email, u.role.Name());
    assert Deliver(Ok200(resp)) == Ok(data);
    SuccessPassesGuard(s1, req, data, st, codec);
  }

  /** A sign-in the authentication manager refuses shows its message. */
  lemma RefusedSignInShowsMessage(s: AuthState, s1: AuthState, req: Request, repo: Repository, svc: Services,
                                  now: Long, st: Storage, codec: JsonCodec, m: string)
    requires StartSubmit(s) == (s1, Some(req)) && s.mode == SignIn
    requires svc.authenticate(repo, s.form.email, s.form.password) == Failure(m)
    ensures var (s2, st2) := FinishSubmit(s1, req, Deliver(Dispatch(req, repo, svc, now).1), st, codec);
            s2.error == m && st2 == st && s2.pendingNavigation == s1.pendingNavigation
  {
    assert req.payload == SignInPayload(s.form.email, s.form.password);
    assert Dispatch(req, repo, svc, now).1 == BadRequest400(ErrorPrefix + m);
    BadRequestShowsServiceMessage(s1, req, m, st, codec);
  }
}
