/** The sign-in / sign-up page (`AuthPage.jsx`): its form state, the
    validator, field edits, mode switches and the submit handler. Each
    handler is one atomic state transition; the submit handler is split at
    its one `await` point into the part that issues the request and the part
    that handles the outcome. */
module AuthForm {
  import opened Wrappers
  import opened Text
  import opened JsText
  import EmailPattern
  import opened Browser

  /** `isLoginMode`: `SignIn` is `true`, the initial mode. */
  datatype Mode = SignIn | SignUp

  function Flip(m: Mode): Mode
  {
    if m == SignIn then SignUp else SignIn
  }

  datatype Field = Name | Email | Password | ConfirmPassword

  datatype FormData = FormData(name: string, email: string, password: string, confirmPassword: string)
  {
    function Get(f: Field): string
    {
      match f
      case Name => name
      case Email => email
      case Password => password
      case ConfirmPassword => confirmPassword
    }

    function Set(f: Field, v: string): (r: FormData)
      ensures r.Get(f) == v
      ensures forall g :: g != f ==> r.Get(g) == Get(g)
    {
      match f
      case Name => this.(name := v)
      case Email => this.(email := v)
      case Password => this.(password := v)
      case ConfirmPassword => this.(confirmPassword := v)
    }
  }

  const EmptyForm: FormData := FormData("", "", "", "")

  /** `fieldErrors`: a message per field; a key may stay behind holding `""`. */
  type FieldErrors = map<Field, string>

  /** `fieldErrors[f]` is truthy: the field shows an error. */
  predicate HasError(fe: FieldErrors, f: Field)
  {
    f in fe && fe[f] != ""
  }

  const NameRequired: string := "Name is required"
  const NameTooShort: string := "Name must be at least 2 characters"
  const EmailRequired: string := "Email is required"
  const EmailInvalid: string := "Please enter a valid email"
  const PasswordRequired: string := "Password is required"
  const PasswordTooShort: string := "Password must be at least 6 characters"
  const ConfirmRequired: string := "Please confirm your password"
  const PasswordsDiffer: string := "Passwords do not match"

  const LoginSucceeded: string := "Login successful! Redirecting..."
  const SignupSucceeded: string := "Account created successfully! Redirecting..."
  const GenericFailure: string := "Something went wrong. Please try again."
  const Unreachable: string := "Unable to connect to server. Please check your connection and try again."

  const LoginUrl: string := "http://localhost:8080/api/auth/login"
  const SignupUrl: string := "http://localhost:8080/api/auth/signup"

  /** The prefix the server puts in front of every error message. */
  const ServerErrorPrefix: string := "Error: "

  /** The component's state. `pendingNavigation` is the timer that the
      success branch arms to leave for the dashboard. */
  datatype AuthState = AuthState(
    mode: Mode,
    form: FormData,
    loading: bool,
    error: string,
    success: string,
    fieldErrors: FieldErrors,
    pendingNavigation: Option<Route>)

  const Initial: AuthState := AuthState(SignIn, EmptyForm, false, "", "", map[], None)

  /** The rules of the form, stated positively: what a form must satisfy in
      `mode` for the validator to report nothing. */
  ghost predicate Acceptable(mode: Mode, f: FormData)
  {
    && (mode == SignUp ==> !AllSpace(f.name) && Utf16Length(f.name) >= 2)
    && !AllSpace(f.email) && EmailPattern.RegexMatches(f.email)
    && Utf16Length(f.password) >= 6
    && (mode == SignUp ==> f.confirmPassword != "" && f.confirmPassword == f.password)
  }

  /** The name rule (sign-up only): trimmed emptiness, then untrimmed length. */
  function NameError(mode: Mode, name: string): (e: Option<string>)
    ensures mode == SignIn ==> e.None?
    ensures mode == SignUp ==>
      && (e == Some(NameRequired) <==> AllSpace(name))
      && (e == Some(NameTooShort) <==> !AllSpace(name) && Utf16Length(name) < 2)
      && (e.None? <==> !AllSpace(name) && Utf16Length(name) >= 2)
  {
    TrimEmptyIffAllSpace(name);
    if mode == SignUp && Trim(name) == "" then Some(NameRequired)
    else if mode == SignUp && Utf16Length(name) < 2 then Some(NameTooShort)
    else None
  }

  /** The e-mail rule, in both modes. */
  function EmailError(email: string): (e: Option<string>)
    ensures e == Some(EmailRequired) <==> AllSpace(email)
    ensures e == Some(EmailInvalid) <==> !AllSpace(email) && !EmailPattern.RegexMatches(email)
    ensures e.None? <==> !AllSpace(email) && EmailPattern.RegexMatches(email)
  {
    TrimEmptyIffAllSpace(email);
    if Trim(email) == "" then Some(EmailRequired)
    else if !EmailPattern.LooksLikeEmail(email) then Some(EmailInvalid)
    else None
  }

  /** The password rule, in both modes, on the untrimmed string. */
  function PasswordError(password: string): (e: Option<string>)
    ensures e == Some(PasswordRequired) <==> password == ""
    ensures e == Some(PasswordTooShort) <==> 1 <= Utf16Length(password) < 6
    ensures e.None? <==> Utf16Length(password) >= 6
  {
    if password == "" then Some(PasswordRequired)
    else if Utf16Length(password) < 6 then Some(PasswordTooShort)
    else None
  }

  /** The confirmation rule (sign-up only). */
  function ConfirmError(mode: Mode, password: string, confirm: string): (e: Option<string>)
    ensures mode == SignIn ==> e.None?
    ensures mode == SignUp ==>
      && (e == Some(ConfirmRequired) <==> confirm == "")
      && (e == Some(PasswordsDiffer) <==> confirm != "" && confirm != password)
      && (e.None? <==> confirm != "" && confirm == password)
  {
    if mode == SignUp && confirm == "" then Some(ConfirmRequired)
    else if mode == SignUp && password != confirm then Some(PasswordsDiffer)
    else None
  }

  lemma AcceptableIffNoRuleFails(mode: Mode, f: FormData)
    ensures Acceptable(mode, f) <==>
      && NameError(mode, f.name).None? && EmailError(f.email).None?
      && PasswordError(f.password).None? && ConfirmError(mode, f.password, f.confirmPassword).None?
  {
    var n := NameError(mode, f.name);
    var e := EmailError(f.email);
    var p := PasswordError(f.password);
    var c := ConfirmError(mode, f.password, f.confirmPassword);
  }

  /** The error, if any, that field `g` gets. */
  function RuleFor(mode: Mode, f: FormData, g: Field): (e: Option<string>)
    ensures e.Some? ==> e.value != ""
  {
    match g
    case Name => NameError(mode, f.name)
    case Email => EmailError(f.email)
    case Password => PasswordError(f.password)
    case ConfirmPassword => ConfirmError(mode, f.password, f.confirmPassword)
  }

  /** `validateForm`: every rule is checked and every failing field
      reported, under that field's key and no other. */
  function Validate(mode: Mode, f: FormData): (errors: FieldErrors)
    ensures forall g :: g in errors <==> RuleFor(mode, f, g).Some?
    ensures forall g :: g in errors ==> errors[g] == RuleFor(mode, f, g).value && errors[g] != ""
    ensures mode == SignIn ==> Name !in errors && ConfirmPassword !in errors
  {
    map g: Field | RuleFor(mode, f, g).Some? :: RuleFor(mode, f, g).value
  }

  /** The form passes (`Object.keys(errors).length === 0`) exactly when it
      satisfies every rule of its mode. */
  lemma ValidIffAcceptable(mode: Mode, f: FormData)
    ensures Validate(mode, f) == map[] <==> Acceptable(mode, f)
  {
    EmptyIffNoRuleFails(mode, f);
    AcceptableIffNoRuleFails(mode, f);
    assert RuleFor(mode, f, Name) == NameError(mode, f.name);
    assert RuleFor(mode, f, Email) == EmailError(f.email);
    assert RuleFor(mode, f, Password) == PasswordError(f.password);
    assert RuleFor(mode, f, ConfirmPassword) == ConfirmError(mode, f.password, f.confirmPassword);
  }

  /** The error map is empty exactly when no field's rule fails. */
  lemma EmptyIffNoRuleFails(mode: Mode, f: FormData)
    ensures Validate(mode, f) == map[] <==>
      && RuleFor(mode, f, Name).None? && RuleFor(mode, f, Email).None?
      && RuleFor(mode, f, Password).None? && RuleFor(mode, f, ConfirmPassword).None?
  {
    var errors := Validate(mode, f);
    EmptyIffNoKey(errors);
    assert Name in errors <==> RuleFor(mode, f, Name).Some?;
    assert Email in errors <==> RuleFor(mode, f, Email).Some?;
    assert Password in errors <==> RuleFor(mode, f, Password).Some?;
    assert ConfirmPassword in errors <==> RuleFor(mode, f, ConfirmPassword).Some?;
  }

  /** A map keyed by fields is empty exactly when none of the four is a key. */
  lemma EmptyIffNoKey(errors: FieldErrors)
    ensures errors == map[] <==>
      Name !in errors && Email !in errors && Password !in errors && ConfirmPassword !in errors
  {
    if errors != map[] {
      var g :| g in errors;
      assert g.Name? || g.Email? || g.Password? || g.ConfirmPassword?;
    }
  }

  /** `handleInputChange`: the edited field takes the value, its error (if
      shown) is blanked but its key kept, and the banner error is cleared. */
  function EditField(s: AuthState, field: Field, value: string): (s': AuthState)
    ensures s'.form.Get(field) == value
    ensures forall g :: g != field ==> s'.form.Get(g) == s.form.Get(g)
    ensures !HasError(s'.fieldErrors, field)
    ensures s'.fieldErrors.Keys == s.fieldErrors.Keys
    ensures forall g :: g != field && g in s.fieldErrors ==> s'.fieldErrors[g] == s.fieldErrors[g]
    ensures s'.error == ""
    ensures s'.mode == s.mode && s'.loading == s.loading && s'.success == s.success
    ensures s'.pendingNavigation == s.pendingNavigation
  {
    var fe := if HasError(s.fieldErrors, field) then s.fieldErrors[field := ""] else s.fieldErrors;
    s.(form := s.form.Set(field, value), fieldErrors := fe, error := "")
  }

  /** `toggleMode` (the link under the form): the other mode, and
      `resetForm` wipes the draft, both banners and every field error. */
  function ToggleMode(s: AuthState): (s': AuthState)
    ensures s'.mode != s.mode
    ensures forall g :: s'.form.Get(g) == ""
    ensures s'.error == "" && s'.success == "" && |s'.fieldErrors| == 0
    ensures s'.loading == s.loading && s'.pendingNavigation == s.pendingNavigation
  {
    s.(mode := Flip(s.mode), form := EmptyForm, error := "", success := "", fieldErrors := map[])
  }

  /** A click on the "Sign In" or "Sign Up" tab: `setIsLoginMode` and
      nothing else, so the draft and all messages survive. */
  function SelectTab(s: AuthState, m: Mode): (s': AuthState)
    ensures s'.mode == m
    ensures s'.form == s.form && s'.fieldErrors == s.fieldErrors
    ensures s'.error == s.error && s'.success == s.success
    ensures s'.loading == s.loading && s'.pendingNavigation == s.pendingNavigation
  {
    s.(mode := m)
  }

  /** The JSON body of the request, one shape per mode. */
  datatype Payload =
    | SignInPayload(email: string, password: string)
    | SignUpPayload(name: string, email: string, password: string, confirmPassword: string)

  /** A `POST` to `url`; `mode` is the mode the handler closed over. */
  datatype Request = Request(url: string, payload: Payload, mode: Mode)

  /** The request a form in `mode` sends. */
  function RequestFor(mode: Mode, f: FormData): (req: Request)
    ensures req.mode == mode
    ensures mode == SignIn ==> req.url == LoginUrl && req.payload == SignInPayload(f.email, f.password)
    ensures mode == SignUp ==>
      req.url == SignupUrl && req.payload == SignUpPayload(f.name, f.email, f.password, f.confirmPassword)
  {
    match mode
    case SignIn => Request(LoginUrl, SignInPayload(f.email, f.password), mode)
    case SignUp => Request(SignupUrl, SignUpPayload(f.name, f.email, f.password, f.confirmPassword), mode)
  }

  /** `handleSubmit` up to `fetch`: validate; stop with the errors shown,
      or mark loading, clear both banners and issue the request. The
      handler itself does not look at `loading`. */
  function StartSubmit(s: AuthState): (r: (AuthState, Option<Request>))
    ensures r.0.fieldErrors == Validate(s.mode, s.form)
    ensures r.1.Some? <==> Acceptable(s.mode, s.form)
    ensures r.1.None? ==> r.0 == s.(fieldErrors := r.0.fieldErrors)
    ensures r.1.Some? ==>
      && r.1.value == RequestFor(s.mode, s.form)
      && r.0.loading && r.0.error == "" && r.0.success == ""
      && r.0.mode == s.mode && r.0.form == s.form && r.0.pendingNavigation == s.pendingNavigation
  {
    var errors := Validate(s.mode, s.form);
    ValidIffAcceptable(s.mode, s.form);
    if |errors| != 0 then (s.(fieldErrors := errors), None)
    else (s.(fieldErrors := errors, loading := true, error := "", success := ""), Some(RequestFor(s.mode, s.form)))
  }

  /** The JSON body of a successful reply. */
  datatype AuthData = AuthData(token: string, id: int, name: string, email: string, role: string)

  /** How the `fetch` and `response.json()` pair ended: a 2xx reply, another
      status with a body that may carry `message`, or a throw (no
      connection, or a body that is not JSON). */
  datatype FetchOutcome = Ok(data: AuthData) | NotOk(message: Option<string>) | Threw

  function CachedUser(d: AuthData): UserInfo
  {
    UserInfo(d.id, d.name, d.email, d.role)
  }

  /** The banner text for a server-reported failure: `message.replace("Error: ", "")`. */
  function StripServerPrefix(m: string): string
  {
    RemoveFirst(m, ServerErrorPrefix)
  }

  /** `handleSubmit` after `fetch`: on success store the token and the
      serialised user and arm navigation to the dashboard; on failure set the
      banner error; in every case (`finally`) clear `loading`. */
  function FinishSubmit(s: AuthState, req: Request, outcome: FetchOutcome, st: Storage, codec: JsonCodec)
    : (r: (AuthState, Storage))
    ensures !r.0.loading
    ensures r.0.mode == s.mode && r.0.form == s.form && r.0.fieldErrors == s.fieldErrors
    ensures outcome.Ok? ==>
      && r.1 == st[TokenKey := outcome.data.token][UserKey := codec.stringify(CachedUser(outcome.data))]
      && r.0.success == (if req.mode == SignIn then LoginSucceeded else SignupSucceeded)
      && r.0.pendingNavigation == Some(Dashboard)
      && r.0.error == s.error
    ensures !outcome.Ok? ==>
      r.1 == st && r.0.success == s.success && r.0.pendingNavigation == s.pendingNavigation
    ensures outcome.NotOk? && outcome.message.Some? && outcome.message.value != "" ==>
      r.0.error == StripServerPrefix(outcome.message.value)
    ensures outcome.NotOk? && (outcome.message.None? || outcome.message.value == "") ==>
      r.0.error == GenericFailure
    ensures outcome.Threw? ==> r.0.error == Unreachable
  {
    match outcome
    case Ok(data) =>
      var st' := st[TokenKey := data.token][UserKey := codec.stringify(CachedUser(data))];
      var msg := if req.mode == SignIn then LoginSucceeded else SignupSucceeded;
      (s.(success := msg, pendingNavigation := Some(Dashboard), loading := false), st')
    case NotOk(message) =>
      var err := if message.Some? && message.value != "" then StripServerPrefix(message.value) else GenericFailure;
      (s.(error := err, loading := false), st)
    case Threw =>
      (s.(error := Unreachable, loading := false), st)
  }

  /** `handleSubmit` run to completion with no other event in between. */
  function HandleSubmit(s: AuthState, outcome: FetchOutcome, st: Storage, codec: JsonCodec)
    : (r: (AuthState, Storage, Option<Request>))
    ensures r.2 == StartSubmit(s).1
    ensures r.2.None? ==> r.0 == s.(fieldErrors := Validate(s.mode, s.form)) && r.1 == st
    ensures r.2.Some? ==> !r.0.loading && r.0.fieldErrors == map[]
  {
    var (s1, req) := StartSubmit(s);
    if req.None? then (s1, st, None)
    else
      var (s2, st2) := FinishSubmit(s1, req.value, outcome, st, codec);
      (s2, st2, req)
  }

  /** The submit button, `disabled={loading}`, of a form that leaves the
      browser's own constraint validation on. A press while a request is in
      flight does nothing. So does a press whose e-mail value is non-empty
      and fails the browser's `type="email"` check `emailOk`: the browser
      cancels the `submit` event and shows its own bubble, so the handler
      never runs. An empty value passes that check, as the input is not
      `required`. Otherwise the press runs the handler. */
  function PressSubmit(s: AuthState, emailOk: string -> bool): (r: (AuthState, Option<Request>))
    ensures s.loading ==> r.0 == s && r.1.None?
    ensures !s.loading && s.form.email != "" && !emailOk(s.form.email) ==> r == (s, None)
    ensures !s.loading && (s.form.email == "" || emailOk(s.form.email)) ==> r == StartSubmit(s)
  {
    if s.loading then (s, None)
    else if s.form.email != "" && !emailOk(s.form.email) then (s, None)
    else StartSubmit(s)
  }
}

/** Properties of the sign-in page that relate several of its handlers. */
module AuthFormLaws {
  import opened Wrappers
  import opened AuthForm

  /** The user-interface events that can arrive while a request is in
      flight: typing, the mode link, the tabs and the submit button. */
  datatype Event = Edit(field: Field, value: string) | Toggle | Tab(mode: Mode) | Press

  /** One event, in a browser whose e-mail check is `emailOk`. */
  function Step(s: AuthState, e: Event, emailOk: string -> bool): (AuthState, Option<Request>)
  {
    match e
    case Edit(f, v) => (EditField(s, f, v), None)
    case Toggle => (ToggleMode(s), None)
    case Tab(m) => (SelectTab(s, m), None)
    case Press => PressSubmit(s, emailOk)
  }

  /** The state after `events` and the requests they issued, in order. */
  function Run(s: AuthState, events: seq<Event>, emailOk: string -> bool): (AuthState, seq<Request>)
    decreases |events|
  {
    if |events| == 0 then (s, [])
    else
      var (s1, req) := Step(s, events[0], emailOk);
      var (s2, reqs) := Run(s1, events[1..], emailOk);
      (s2, (if req.Some? then [req.value] else []) + reqs)
  }

  /** While a request is in flight no user event issues another one, and
      the page stays in the loading state. */
  lemma {:induction false} NothingIssuedWhileLoading(s: AuthState, events: seq<Event>, emailOk: string -> bool)
    requires s.loading
    ensures Run(s, events, emailOk).1 == []
    ensures Run(s, events, emailOk).0.loading
    decreases |events|
  {
    if |events| > 0 {
      var (s1, req) := Step(s, events[0], emailOk);
      assert s1.loading && req.None?;
      NothingIssuedWhileLoading(s1, events[1..], emailOk);
    }
  }

  /** Between two replies, any burst of clicks and keystrokes issues at
      most one request. */
  lemma {:induction false} AtMostOneInFlight(s: AuthState, events: seq<Event>, emailOk: string -> bool)
    ensures |Run(s, events, emailOk).1| <= 1
    decreases |events|
  {
    if |events| > 0 {
      var (s1, req) := Step(s, events[0], emailOk);
      if req.Some? {
        assert s1.loading;
        NothingIssuedWhileLoading(s1, events[1..], emailOk);
      } else {
        AtMostOneInFlight(s1, events[1..], emailOk);
      }
    }
  }

  /** The handler itself does not consult `loading`: only the disabled
      button stops a second submission. */
  lemma HandlerIgnoresLoading(s: AuthState, emailOk: string -> bool)
    requires Acceptable(s.mode, s.form)
    ensures StartSubmit(s.(loading := true)).1 == Some(RequestFor(s.mode, s.form))
    ensures PressSubmit(s.(loading := true), emailOk).1 == None
  {
  }

  /** The mode link and the tabs agree on the new mode, but only the link
      wipes the draft: a tab click keeps whatever was typed. */
  lemma TabKeepsDraftToggleClears(s: AuthState)
    ensures SelectTab(s, Flip(s.mode)).mode == ToggleMode(s).mode
    ensures SelectTab(s, Flip(s.mode)).form == s.form
    ensures ToggleMode(s).form == EmptyForm
  {
  }

  /** Clicking the tab of the current mode changes nothing at all. */
  lemma TabOnCurrentModeIsNoOp(s: AuthState)
    ensures SelectTab(s, s.mode) == s
  {
  }

  /** Toggling twice restores the mode but not the draft: the page is blank. */
  lemma ToggleTwice(s: AuthState)
    ensures ToggleMode(ToggleMode(s)) == s.(form := EmptyForm, error := "", success := "", fieldErrors := map[])
  {
  }

  /** A rejected submission changes nothing but the field errors and issues
      no request; fixing the form is then all that is needed. */
  lemma InvalidSubmitOnlyShowsErrors(s: AuthState, outcome: FetchOutcome, st: Browser.Storage, codec: Browser.JsonCodec)
    requires !Acceptable(s.mode, s.form)
    ensures var (s', st', req) := HandleSubmit(s, outcome, st, codec);
      && req.None? && st' == st
      && s' == s.(fieldErrors := Validate(s.mode, s.form))
      && Validate(s.mode, s.form) != map[]
  {
    ValidIffAcceptable(s.mode, s.form);
  }
}
