/** The `authenticate` middleware: header, token, session and expiry checks,
    in that order, deleting an expired session on the way out. */
module Authentication {
  import opened Common
  import opened Text
  import opened Models
  import opened AuthService
  import opened Http

  const TokenMissing := "Token não fornecido"
  const TokenInvalid := "Token inválido"
  const SessionInvalid := "Sessão inválida"
  const SessionExpired := "Sessão expirada"

  /** `authHeader.split(' ')[1]`, a missing second word read as "". The first
      word is not inspected. */
  function BearerToken(header: string): (t: string)
    ensures ' ' !in t
  {
    var parts := Split(header, ' ');
    if |parts| >= 2 then parts[1] else ""
  }

  /** Any one-word scheme followed by a space and a space-free token yields
      that token, whatever further words follow it. */
  lemma BearerTokenOf(scheme: string, token: string, rest: string)
    requires ' ' !in scheme && ' ' !in token
    requires rest == [] || rest[0] == ' '
    ensures BearerToken(scheme + [' '] + token + rest) == token
  {
    if rest == [] {
      assert scheme + [' '] + token + rest == scheme + [' '] + token;
      SplitAfterWord(scheme, ' ', token);
      SplitWord(token, ' ');
    } else {
      var more := rest[1..];
      assert scheme + [' '] + token + rest == scheme + [' '] + (token + [' '] + more);
      SplitAfterWord(scheme, ' ', token + [' '] + more);
      SplitAfterWord(token, ' ', more);
    }
  }

  /** The decision and the session table after `authenticate`. */
  datatype AuthOutcome = AuthOutcome(gate: Gate, sessions: map<Id, Session>)

  function Reject(message: string, sessions: map<Id, Session>): AuthOutcome
  {
    AuthOutcome(Refuse(401, Message(message)), sessions)
  }

  /** `authenticate` as a function of the session table, the header and the
      clock. Exactly one of admission (with the identity from the token) and a
      401 happens; the table changes only when an expired session is dropped. */
  function AuthenticateStep(verify: Verifier, sessions: map<Id, Session>, header: Option<string>, now: Time)
    : (s: AuthOutcome)
    ensures header.None? || header.value == "" || BearerToken(header.value) == "" ==> s == Reject(TokenMissing, sessions)
    ensures s.gate.Admit? <==>
      && header.Some? && BearerToken(header.value) != ""
      && verify(BearerToken(header.value), now).Some?
      && var p := verify(BearerToken(header.value), now).value;
         p.sessionId in sessions && !IsExpired(sessions[p.sessionId], now)
    ensures s.gate.Admit? ==>
      var p := verify(BearerToken(header.value), now).value;
      s.gate.user == Some(Identity(p.id, p.role, p.sessionId))
    ensures s.gate.Refuse? ==> s.gate.status == 401 && s.gate.body.Message?
    ensures header.Some? && BearerToken(header.value) != "" && verify(BearerToken(header.value), now).None? ==>
      s == Reject(TokenInvalid, sessions)
    ensures header.Some? && BearerToken(header.value) != "" && verify(BearerToken(header.value), now).Some? ==>
      var p := verify(BearerToken(header.value), now).value;
      && (p.sessionId !in sessions ==> s == Reject(SessionInvalid, sessions))
      && (p.sessionId in sessions && IsExpired(sessions[p.sessionId], now) ==>
            s == Reject(SessionExpired, sessions - {p.sessionId}))
    ensures s.sessions != sessions ==>
      && s == Reject(SessionExpired, s.sessions)
      && exists sid :: sid in sessions && IsExpired(sessions[sid], now) && s.sessions == sessions - {sid}
  {
    if header.None? || header.value == "" then Reject(TokenMissing, sessions)
    else
      var token := BearerToken(header.value);
      if token == "" then Reject(TokenMissing, sessions)
      else match verify(token, now)
        case None => Reject(TokenInvalid, sessions)
        case Some(p) =>
          if p.sessionId !in sessions then Reject(SessionInvalid, sessions)
          else if IsExpired(sessions[p.sessionId], now) then Reject(SessionExpired, sessions - {p.sessionId})
          else AuthOutcome(Admit(Some(Identity(p.id, p.role, p.sessionId))), sessions)
  }

  /** `authenticate` on the database. */
  method Authenticate(db: Db, verify: Verifier, header: Option<string>, now: Time) returns (g: Gate)
    requires db.Valid()
    modifies db`sessions
    ensures db.Valid()
    ensures var s := AuthenticateStep(verify, old(db.sessions), header, now);
      g == s.gate && db.sessions == s.sessions
  {
    if header.None? || header.value == "" {
      return Refuse(401, Message(TokenMissing));
    }
    var token := BearerToken(header.value);
    if token == "" {
      return Refuse(401, Message(TokenMissing));
    }
    var decoded := verify(token, now);
    if decoded.None? {
      return Refuse(401, Message(TokenInvalid));
    }
    var p := decoded.value;
    if p.sessionId !in db.sessions {
      return Refuse(401, Message(SessionInvalid));
    }
    var session := db.sessions[p.sessionId];
    if now > session.expiresAt {
      db.sessions := db.sessions - {p.sessionId};
      return Refuse(401, Message(SessionExpired));
    }
    g := Admit(Some(Identity(p.id, p.role, p.sessionId)));
  }

  /** The header a client sends with the token login returned. */
  function BearerHeader(token: Token): string
  {
    "Bearer " + token
  }

  /** `authenticate` reads back the token of a Bearer header. */
  lemma BearerHeaderToken(token: Token)
    requires ' ' !in token
    ensures BearerToken(BearerHeader(token)) == token
  {
    assert "Bearer " == "Bearer" + [' '];
    assert BearerHeader(token) == "Bearer" + [' '] + token + [];
    BearerTokenOf("Bearer", token, []);
  }

  /** With a sound codec, the token from a login authenticates as that user and
      session until it expires, and leaves the session table as it is. */
  lemma LoginThenAuthenticate(
    users: map<Id, User>, sessions: map<Id, Session>, sign: Signer, verify: Verifier,
    email: string, sessionId: Id, t0: Time, now: Time)
    requires Sound(sign, verify)
    requires UsersWf(users) && SessionsWf(sessions, users) && sessionId !in sessions
    requires TokenLive(t0, now)
    ensures var s := LoginStep(users, sessions, sign, email, sessionId, t0);
      s.result.Ok? ==>
        var u := s.result.value.user;
        AuthenticateStep(verify, s.sessions, Some(BearerHeader(s.result.value.token)), now)
          == AuthOutcome(Admit(Some(Identity(u.id, u.role, sessionId))), s.sessions)
  {
    var s := LoginStep(users, sessions, sign, email, sessionId, t0);
    if s.result.Ok? {
      var u := FindUserByEmail(users, email).value;
      var p := Payload(u.id, u.role, sessionId);
      var token := s.result.value.token;
      assert token == sign(p, t0);
      BearerHeaderToken(token);
      assert verify(token, now) == Some(p);
      SessionOutlivesToken(t0, now);
    }
  }

  /** After logout, the same token is refused with "Sessão inválida". */
  lemma LogoutRevokes(
    users: map<Id, User>, sessions: map<Id, Session>, sign: Signer, verify: Verifier,
    email: string, sessionId: Id, t0: Time, now: Time)
    requires Sound(sign, verify)
    requires UsersWf(users) && SessionsWf(sessions, users) && sessionId !in sessions
    requires TokenLive(t0, now)
    ensures var s := LoginStep(users, sessions, sign, email, sessionId, t0);
      s.result.Ok? ==>
        AuthenticateStep(verify, s.sessions - {sessionId}, Some(BearerHeader(s.result.value.token)), now)
          == Reject(SessionInvalid, s.sessions - {sessionId})
  {
    var s := LoginStep(users, sessions, sign, email, sessionId, t0);
    if s.result.Ok? {
      var u := FindUserByEmail(users, email).value;
      var p := Payload(u.id, u.role, sessionId);
      var token := s.result.value.token;
      assert token == sign(p, t0);
      BearerHeaderToken(token);
      assert verify(token, now) == Some(p);
    }
  }

  /** With a sound codec and one clock for token and session, a login token is
      refused as invalid from the moment it expires, which is never later than
      its session: the "Sessão expirada" reply is not reachable with it. */
  lemma ExpiredLoginTokenIsInvalid(
    users: map<Id, User>, sessions: map<Id, Session>, sign: Signer, verify: Verifier,
    email: string, sessionId: Id, t0: Time, now: Time)
    requires Sound(sign, verify)
    requires UsersWf(users) && SessionsWf(sessions, users) && sessionId !in sessions
    ensures var s := LoginStep(users, sessions, sign, email, sessionId, t0);
      s.result.Ok? ==>
        var a := AuthenticateStep(verify, s.sessions, Some(BearerHeader(s.result.value.token)), now);
        && a.gate != Refuse(401, Message(SessionExpired))
        && (!TokenLive(t0, now) ==> a == Reject(TokenInvalid, s.sessions))
  {
    var s := LoginStep(users, sessions, sign, email, sessionId, t0);
    if s.result.Ok? {
      var u := FindUserByEmail(users, email).value;
      var p := Payload(u.id, u.role, sessionId);
      var token := s.result.value.token;
      assert token == sign(p, t0);
      BearerHeaderToken(token);
      if TokenLive(t0, now) {
        assert verify(token, now) == Some(p);
        SessionOutlivesToken(t0, now);
      } else {
        assert verify(token, now) == None;
      }
    }
  }
}
