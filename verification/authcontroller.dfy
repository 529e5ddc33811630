/** `AuthController.java`: `/auth/login` and `/auth/signup` answer 200
    with the service's response, or 400 with `"Error: "` and the message of
    whatever the service threw. */
module AuthController {
  import opened Wrappers
  import opened JavaLong
  import opened Accounts
  import opened UserService

  const ErrorPrefix: string := "Error: "

  datatype HttpResponse = Ok200(body: AuthResponse) | BadRequest400(message: string)

  /** The `try`/`catch` around a service call. */
  function Respond(outcome: Result<AuthResponse, string>): (h: HttpResponse)
    ensures outcome.Success? <==> h.Ok200?
    ensures outcome.Success? ==> h.body == outcome.value
    ensures outcome.Failure? ==> h.BadRequest400? && |ErrorPrefix| <= |h.message| &&
                                 h.message[..|ErrorPrefix|] == ErrorPrefix &&
                                 h.message[|ErrorPrefix|..] == outcome.error
  {
    match outcome
    case Success(r) => Ok200(r)
    case Failure(m) => BadRequest400(ErrorPrefix + m)
  }

  /** `POST /auth/login`. */
  function LoginEndpoint(repo: Repository, req: LoginRequest, svc: Services, now: Long): (h: HttpResponse)
    ensures h.Ok200? <==> Login(repo, req, svc, now).Success?
    ensures h.Ok200? ==> h.body == Login(repo, req, svc, now).value
    ensures h.BadRequest400? ==> h.message == ErrorPrefix + Login(repo, req, svc, now).error
  {
    Respond(Login(repo, req, svc, now))
  }

  /** `POST /auth/signup`: the store change of the service stands even
      when the answer is 400. */
  function SignupEndpoint(repo: Repository, req: SignUpRequest, svc: Services, now: Long): (r: (Repository, HttpResponse))
    ensures r.0 == Signup(repo, req, svc, now).0
    ensures r.1.Ok200? <==> Signup(repo, req, svc, now).1.Success?
    ensures r.1.Ok200? ==> r.1.body == Signup(repo, req, svc, now).1.value
    ensures r.1.BadRequest400? ==> r.1.message == ErrorPrefix + Signup(repo, req, svc, now).1.error
    ensures ExistsByEmail(repo, req.email) ==> r == (repo, BadRequest400(ErrorPrefix + EmailTaken))
    ensures !ExistsByEmail(repo, req.email) && req.password != req.confirmPassword ==>
              r == (repo, BadRequest400(ErrorPrefix + PasswordsMismatch))
    ensures r.1.Ok200? ==> r.0.users == repo.users + [UserRecord(repo.nextId, req.name, req.email,
                                                                   svc.encode(req.password), svc.defaultRole)]
  {
    var out := Signup(repo, req, svc, now);
    (out.0, Respond(out.1))
  }
}
