/**
  `AuthScreen.submit` from src/App.jsx, and the session the root component
  keeps: the three form checks, the request each mode sends, and the identity
  adopted on login. The server's answer is an input.
*/
module Auth {
  import opened Wrappers
  import opened JsValues
  import opened Strings
  import Validation

  datatype Mode = Login | Register

  datatype Credentials = Credentials(name: string, email: string, password: string)

  datatype Screen = Screen(mode: Mode, form: Credentials, error: string)

  const NameError: string := "Name must be at least 3 characters long."
  const EmailError: string := "Please enter a valid email address."
  const PasswordError: string := "Password must be at least 6 characters long."

  /** `s.length`: UTF-16 code units, two for a character outside the Basic Multilingual Plane. */
  function Utf16Length(s: string): (n: nat)
    ensures |s| <= n <= 2 * |s|
  {
    if s == [] then 0 else (if s[0] as int > 0xFFFF then 2 else 1) + Utf16Length(s[1..])
  }

  predicate NameTooShort(mode: Mode, f: Credentials) {
    mode == Register && Utf16Length(Trim(f.name)) < 3
  }

  predicate EmailRejected(f: Credentials) {
    !Validation.IsValidEmail(Trim(f.email))
  }

  predicate PasswordTooShort(f: Credentials) {
    Utf16Length(f.password) < 6
  }

  /** The message of the first check `submit` fails, in the order the source tests them. */
  function FormError(mode: Mode, f: Credentials): (e: Option<string>)
    ensures e.None? <==> !NameTooShort(mode, f) && !EmailRejected(f) && !PasswordTooShort(f)
    ensures e == Some(NameError) <==> NameTooShort(mode, f)
    ensures e == Some(EmailError) <==> !NameTooShort(mode, f) && EmailRejected(f)
    ensures e == Some(PasswordError) <==> !NameTooShort(mode, f) && !EmailRejected(f) && PasswordTooShort(f)
  {
    if NameTooShort(mode, f) then Some(NameError)
    else if EmailRejected(f) then Some(EmailError)
    else if PasswordTooShort(f) then Some(PasswordError)
    else None
  }

  /** In login mode the name is never looked at. */
  lemma LoginIgnoresName(f: Credentials, name: string)
    ensures FormError(Login, f) == FormError(Login, f.(name := name))
  {
  }

  datatype Call =
    | RegisterCall(body: Credentials)
    | LoginCall(email: string, password: string)
    | LogoutCall

  /** One submission: the screen afterwards, the call sent (if any), and the user handed to the root on login. */
  datatype Submission = Submission(screen: Screen, call: Option<Call>, user: Option<Json>)

  /** `data.user || { email: form.email }`: the server's user, or the email as typed (not trimmed);
      always truthy. A `null` reply throws at `data.user` instead. */
  function LoginIdentity(data: Json, typedEmail: string): (u: Result<Json>)
    ensures u.Err? <==> data == JNull
    ensures u.Err? ==> u.message == NullReadMessage("user")
    ensures u.Ok? ==> Truthy(u.value)
    ensures u.Ok? && Present(Get(data, "user")) ==> u.value == Get(data, "user").value
    ensures u.Ok? && !Present(Get(data, "user")) ==> u.value == JObj(map["email" := JStr(typedEmail)])
  {
    match Read(data, "user")
    case Err(thrown) => Err(thrown)
    case Ok(user) => Ok(Or(user, JObj(map["email" := JStr(typedEmail)])))
  }

  /** `submit`, with the server's reply as input (ignored when no call is made). */
  function Submit(s: Screen, reply: Result<Json>): (r: Submission)
    ensures FormError(s.mode, s.form).Some? ==>
              r == Submission(s.(error := FormError(s.mode, s.form).value), None, None)
    // Once every check passes, registration sends the whole form and login the trimmed email.
    ensures FormError(s.mode, s.form).None? ==>
              r.call == Some(if s.mode == Register then RegisterCall(s.form)
                             else LoginCall(Trim(s.form.email), s.form.password))
    ensures r.user.Some? ==> s.mode == Login && reply.Ok? && reply.value != JNull && r.call.Some?
    ensures s.mode == Login && r.call.Some? && reply.Ok? && reply.value != JNull ==>
              r.user == Some(LoginIdentity(reply.value, s.form.email).value) && r.screen == s.(error := "")
    // A login answered with `null` throws at `data.user`: the error is shown and nobody is signed in.
    ensures s.mode == Login && r.call.Some? && reply == Ok(JNull) ==>
              r.screen == s.(error := NullReadMessage("user")) && r.user.None?
    ensures r.call == Some(RegisterCall(s.form)) && reply.Ok? ==>
              r.screen == Screen(Login, s.form.(name := ""), "") && r.user.None?
    ensures r.call.Some? && reply.Err? ==> r.screen == s.(error := reply.message) && r.user.None?
  {
    match FormError(s.mode, s.form)
    case Some(message) => Submission(s.(error := message), None, None)
    case None =>
      var call := if s.mode == Register then RegisterCall(s.form) else LoginCall(Trim(s.form.email), s.form.password);
      match reply
      case Err(m) => Submission(s.(error := m), Some(call), None)
      case Ok(data) =>
        if s.mode == Register then Submission(Screen(Login, s.form.(name := ""), ""), Some(call), None)
        else match LoginIdentity(data, s.form.email)
          case Ok(user) => Submission(s.(error := ""), Some(call), Some(user))
          case Err(thrown) => Submission(s.(error := thrown), Some(call), None)
  }

  /** A login whose reply names no user adopts the email exactly as it was typed. */
  lemma LoginFallsBackToTypedEmail(s: Screen, data: Json)
    requires s.mode == Login && FormError(Login, s.form).None?
    requires !Present(Get(data, "user"))
    requires data != JNull
    ensures Submit(s, Ok(data)).user == Some(JObj(map["email" := JStr(s.form.email)]))
  {
  }

  /** The session the root keeps (`user`): the dashboard is shown while it is truthy. */
  predicate ShowsDashboard(session: Option<Json>) {
    Present(session)
  }

  /** What `Dashboard.logout` does: the call it sends and the session afterwards. */
  datatype SignOut = SignOut(call: Call, session: Option<Json>)

  /** `Dashboard.logout`: `POST /auth/logout` is sent, its failure is swallowed, and `onLogout`
      clears the session whatever the reply was. */
  function Logout(session: Option<Json>, reply: Result<Json>): (r: SignOut)
    ensures r.call == LogoutCall
    ensures r.session.None? && !ShowsDashboard(r.session)
  {
    SignOut(LogoutCall, None)
  }

  /** A completed login always opens the dashboard (the identity adopted is truthy), and logging
      out always returns to the sign-in screen, whatever either reply was. */
  lemma SessionCycle(s: Screen, reply: Result<Json>, logoutReply: Result<Json>)
    requires Submit(s, reply).user.Some?
    ensures ShowsDashboard(Submit(s, reply).user)
    ensures !ShowsDashboard(Logout(Submit(s, reply).user, logoutReply).session)
  {
    var data := reply.value;
    assert LoginIdentity(data, s.form.email).Ok?;
  }
}
