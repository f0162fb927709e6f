/** The authentication handlers: login and logout outcomes turned into statuses. */
module AuthController {
  import opened Common
  import opened Models
  import opened Http
  import opened AuthService

  /** `login`: 200 with `{user, token}`, 404 for "Email não cadastrado", other errors 500. */
  function LoginResponse(r: Result<LoginResult>): (resp: Response<LoginResult>)
    ensures r.Ok? ==> resp == Json(200, r.value)
    ensures r.Err? && r.error.message == EmailNotRegistered ==> resp == Problem(404, Message(EmailNotRegistered))
    ensures r.Err? && r.error.message != EmailNotRegistered ==> resp == Problem(500, Message(r.error.message))
  {
    match r
    case Ok(result) => Json(200, result)
    case Err(e) => Problem(if e.message == EmailNotRegistered then 404 else 500, Message(e.message))
  }

  /** `logout`: 204 with an empty body, any error 500. */
  function LogoutResponse(o: Outcome): (resp: Response<()>)
    ensures o.Pass? ==> resp == Empty(204)
    ensures o.Fail? ==> resp == Problem(500, Message(o.error.message))
  {
    match o
    case Pass => Empty(204)
    case Fail(e) => Problem(500, Message(e.message))
  }

  /** An unknown e-mail is answered 404 and opens no session; a known one is
      answered 200 with the token of the session it opened. */
  lemma LoginStatuses(
    users: map<Id, User>, sessions: map<Id, Session>, sign: Signer, email: string, sessionId: Id, now: Time)
    requires UsersWf(users) && SessionsWf(sessions, users) && sessionId !in sessions
    ensures var s := LoginStep(users, sessions, sign, email, sessionId, now);
      && ((forall k :: k in users ==> users[k].email != email) ==>
            LoginResponse(s.result) == Problem(404, Message(EmailNotRegistered)) && s.sessions == sessions)
      && (s.result.Ok? ==>
            LoginResponse(s.result).status == 200 && s.sessions[sessionId].token == s.result.value.token)
  {
    var s := LoginStep(users, sessions, sign, email, sessionId, now);
    if forall k :: k in users ==> users[k].email != email {
      assert !exists k :: HasEmail(users, k, email);
    }
  }
}
