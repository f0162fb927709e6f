/** Passwordless login by e-mail, logout, and the signed-token codec. */
module AuthService {
  import opened Common
  import opened Models

  /** The claims a token carries. */
  datatype Payload = Payload(id: Id, role: Role, sessionId: Id)

  /** Sessions last 24 hours, in milliseconds. */
  const SessionLifetime := 24 * 60 * 60 * 1000

  /** Tokens expire 24 hours after issue, in whole seconds. */
  const TokenLifetimeSeconds := 24 * 60 * 60

  /** `session_token` is a 500-character column. */
  const TokenMaxLength := 500

  /** `generateToken`: signs a payload at an issue time (the secret is part of the function). */
  type Signer = (Payload, Time) -> Token

  /** `verifyToken`: the payload of a token at a time, or None where it throws. */
  type Verifier = (Token, Time) -> Option<Payload>

  /** A token issued at `iat` (ms) carries `exp = floor(iat / 1000) + 24h` in
      seconds and is live while `floor(now / 1000) < exp`. */
  predicate TokenLive(iat: Time, now: Time)
  {
    now / 1000 < iat / 1000 + TokenLifetimeSeconds
  }

  /** What the codec is relied on for: a signed token verifies back to exactly
      the payload it was signed over while it is live, and is refused once it
      has expired; a token (base64url segments joined by dots) is not empty and
      holds no space. */
  ghost predicate Sound(sign: Signer, verify: Verifier)
  {
    && (forall p: Payload, iat: Time, now: Time ::
          verify(sign(p, iat), now) == if TokenLive(iat, now) then Some(p) else None)
    && (forall p: Payload, iat: Time :: sign(p, iat) != "" && ' ' !in sign(p, iat))
  }

  /** The session row outlives the token issued with it: while the token is
      live the session is not expired. */
  lemma {:induction false} SessionOutlivesToken(iat: Time, now: Time)
    requires TokenLive(iat, now)
    ensures !IsExpired(Session("", "", "", iat + SessionLifetime, iat), now)
  {
    var q := iat / 1000;
    assert iat == q * 1000 + iat % 1000;
    assert now == (now / 1000) * 1000 + now % 1000;
    assert now / 1000 <= q + TokenLifetimeSeconds - 1;
    assert (now / 1000) * 1000 <= (q + TokenLifetimeSeconds - 1) * 1000;
  }

  /** The user as login returns it, without anything else of the row. */
  datatype PublicUser = PublicUser(id: Id, name: string, email: string, role: Role)

  datatype LoginResult = LoginResult(user: PublicUser, token: Token)

  predicate HasEmail(users: map<Id, User>, k: Id, email: string)
  {
    k in users && users[k].email == email
  }

  /** `User.findOne({ where: { email } })`: exact match; e-mails are unique. */
  function FindUserByEmail(users: map<Id, User>, email: string): (r: Option<User>)
    requires UsersWf(users)
    ensures r.Some? <==> exists k :: HasEmail(users, k, email)
    ensures r.Some? ==> r.value.id in users && users[r.value.id] == r.value && r.value.email == email
  {
    if exists k | k in users :: HasEmail(users, k, email) then
      var k :| k in users && HasEmail(users, k, email);
      Some(users[k])
    else None
  }

  /** The reply and the session table after `login`. */
  datatype LoginOutcome = LoginOutcome(result: Result<LoginResult>, sessions: map<Id, Session>)

  /** `login(email)` with the fresh session id and the clock as inputs: an
      unknown e-mail throws and creates nothing; otherwise the token is signed
      over the user's id and role and the session id, and one session holding
      that token and expiring 24 hours from now is inserted, unless the store
      rejects the token. */
  function LoginStep(
    users: map<Id, User>, sessions: map<Id, Session>, sign: Signer,
    email: string, sessionId: Id, now: Time): (s: LoginOutcome)
    requires UsersWf(users) && SessionsWf(sessions, users)
    requires sessionId !in sessions
    ensures FindUserByEmail(users, email).None? ==>
      s == LoginOutcome(Err(Error(EmailNotRegistered)), sessions)
    ensures s.result.Err? ==> s.sessions == sessions
    ensures s.result.Ok? ==>
      var u := FindUserByEmail(users, email).value;
      var token := sign(Payload(u.id, u.role, sessionId), now);
      && s.result.value == LoginResult(PublicUser(u.id, u.name, u.email, u.role), token)
      && s.sessions == sessions[sessionId := Session(sessionId, u.id, token, now + SessionLifetime, now)]
      && ExpiryAccepted(now + SessionLifetime, now)
    ensures s.result.Ok? <==>
      && FindUserByEmail(users, email).Some?
      && var u := FindUserByEmail(users, email).value;
         var token := sign(Payload(u.id, u.role, sessionId), now);
         |token| <= TokenMaxLength && forall k :: k in sessions ==> sessions[k].token != token
    ensures SessionsWf(s.sessions, users)
  {
    match FindUserByEmail(users, email)
    case None => LoginOutcome(Err(Error(EmailNotRegistered)), sessions)
    case Some(u) =>
      var expiresAt := now + SessionLifetime;
      var token := sign(Payload(u.id, u.role, sessionId), now);
      if |token| > TokenMaxLength then LoginOutcome(Err(Error(ValueTooLong)), sessions)
      else if exists k | k in sessions :: sessions[k].token == token then
        LoginOutcome(Err(Error(SessionTokenTaken)), sessions)
      else if !ExpiryAccepted(expiresAt, now) then LoginOutcome(Err(Error(ExpiryInPast)), sessions)
      else
        var user := PublicUser(u.id, u.name, u.email, u.role);
        LoginOutcome(Ok(LoginResult(user, token)),
                     sessions[sessionId := Session(sessionId, u.id, token, expiresAt, now)])
  }

  /** `login` on the database. */
  method Login(db: Db, sign: Signer, email: string, sessionId: Id, now: Time) returns (r: Result<LoginResult>)
    requires db.Valid()
    requires sessionId !in db.sessions
    modifies db`sessions
    ensures db.Valid()
    ensures var s := LoginStep(db.users, old(db.sessions), sign, email, sessionId, now);
      r == s.result && db.sessions == s.sessions
  {
    var user := FindUserByEmail(db.users, email);
    if user.None? {
      return Err(Error(EmailNotRegistered));
    }
    var u := user.value;
    var expiresAt := now + SessionLifetime;
    var token := sign(Payload(u.id, u.role, sessionId), now);
    if |token| > TokenMaxLength {
      return Err(Error(ValueTooLong));
    }
    if exists k | k in db.sessions :: db.sessions[k].token == token {
      return Err(Error(SessionTokenTaken));
    }
    db.sessions := db.sessions[sessionId := Session(sessionId, u.id, token, expiresAt, now)];
    r := Ok(LoginResult(PublicUser(u.id, u.name, u.email, u.role), token));
  }

  /** `logout(sessionId)`: removes that session if there is one and touches no
      other. */
  method Logout(db: Db, sessionId: Id)
    requires db.Valid()
    modifies db`sessions
    ensures db.Valid()
    ensures db.sessions == old(db.sessions) - {sessionId}
  {
    db.sessions := db.sessions - {sessionId};
  }

  /** Logging in again adds a second, independent session and leaves the first as it was. */
  lemma TwoLogins(
    users: map<Id, User>, sessions: map<Id, Session>, sign: Signer,
    email: string, s1: Id, t1: Time, s2: Id, t2: Time)
    requires UsersWf(users) && SessionsWf(sessions, users)
    requires s1 !in sessions && s2 !in sessions && s1 != s2
    ensures var first := LoginStep(users, sessions, sign, email, s1, t1);
      var second := LoginStep(users, first.sessions, sign, email, s2, t2);
      first.result.Ok? && second.result.Ok? ==>
        && s1 in second.sessions && s2 in second.sessions
        && second.sessions[s1] == first.sessions[s1]
        && second.sessions[s1].userId == second.sessions[s2].userId
        && second.sessions.Keys == sessions.Keys + {s1, s2}
  {
  }
}
