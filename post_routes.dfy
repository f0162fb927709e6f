/** The post router: `optionalAuth` and the guard chain declared for each route. */
module PostRoutes {
  import opened Common
  import opened Models
  import opened AuthService
  import opened Http
  import opened Authentication
  import opened Authorization

  datatype Route = ListRoute | SearchRoute | GetRoute | CreateRoute | UpdateRoute | DeleteRoute

  datatype Guard = OptionalAuthGuard | AuthenticateGuard | AuthorizeGuard(roles: seq<Role>)

  /** The middlewares each route runs before its handler, in order. */
  function Guards(r: Route): (gs: seq<Guard>)
    ensures gs != [] && (gs[0] == OptionalAuthGuard || gs[0] == AuthenticateGuard)
    ensures gs[0] == OptionalAuthGuard <==> r == ListRoute || r == SearchRoute
    ensures AuthorizeGuard([Teacher]) in gs <==> r == CreateRoute || r == UpdateRoute || r == DeleteRoute
    ensures forall i :: 1 <= i < |gs| ==> gs[i].AuthorizeGuard?
  {
    match r
    case ListRoute => [OptionalAuthGuard]
    case SearchRoute => [OptionalAuthGuard]
    case GetRoute => [AuthenticateGuard]
    case CreateRoute => [AuthenticateGuard, AuthorizeGuard([Teacher])]
    case UpdateRoute => [AuthenticateGuard, AuthorizeGuard([Teacher])]
    case DeleteRoute => [AuthenticateGuard, AuthorizeGuard([Teacher])]
  }

  /** `optionalAuth`: without a header the request goes on anonymously; with
      one it is exactly `authenticate`, so a bad token is refused rather than
      treated as anonymous. */
  function OptionalAuthStep(verify: Verifier, sessions: map<Id, Session>, header: Option<string>, now: Time)
    : (s: AuthOutcome)
    ensures header.None? || header.value == "" ==> s == AuthOutcome(Admit(None), sessions)
    ensures header.Some? && header.value != "" ==> s == AuthenticateStep(verify, sessions, header, now)
    ensures s.gate.Refuse? ==> s.gate.status == 401
  {
    if header.None? || header.value == "" then AuthOutcome(Admit(None), sessions)
    else AuthenticateStep(verify, sessions, header, now)
  }

  /** `optionalAuth` on the database. */
  method OptionalAuth(db: Db, verify: Verifier, header: Option<string>, now: Time) returns (g: Gate)
    requires db.Valid()
    modifies db`sessions
    ensures db.Valid()
    ensures var s := OptionalAuthStep(verify, old(db.sessions), header, now);
      g == s.gate && db.sessions == s.sessions
  {
    if header.None? || header.value == "" {
      return Admit(None);
    }
    g := Authenticate(db, verify, header, now);
  }

  /** One guard applied to the user the previous guards left on the request. */
  function GuardStep(
    g: Guard, verify: Verifier, sessions: map<Id, Session>, header: Option<string>, now: Time,
    user: Option<Identity>): (s: AuthOutcome)
    ensures s.gate.Refuse? ==> s.gate.status == 401 || s.gate.status == 403
    ensures s.gate.Admit? ==> s.sessions == sessions
    ensures forall k :: k in s.sessions ==> k in sessions && s.sessions[k] == sessions[k]
  {
    match g
    case OptionalAuthGuard => OptionalAuthStep(verify, sessions, header, now)
    case AuthenticateGuard => AuthenticateStep(verify, sessions, header, now)
    case AuthorizeGuard(roles) =>
      match Authorize(roles, user)
      case Next => AuthOutcome(Admit(user), sessions)
      case Stop(status, body) => AuthOutcome(Refuse(status, body), sessions)
  }

  /** The guards in order, stopping at the first that ends the request. */
  function RunGuards(
    guards: seq<Guard>, verify: Verifier, sessions: map<Id, Session>, header: Option<string>, now: Time,
    user: Option<Identity>): (s: AuthOutcome)
    ensures guards == [] ==> s == AuthOutcome(Admit(user), sessions)
    ensures s.gate.Refuse? ==> s.gate.status == 401 || s.gate.status == 403
    ensures s.gate.Admit? ==> s.sessions == sessions
    ensures forall k :: k in s.sessions ==> k in sessions && s.sessions[k] == sessions[k]
    decreases |guards|
  {
    if guards == [] then AuthOutcome(Admit(user), sessions)
    else
      var out := GuardStep(guards[0], verify, sessions, header, now, user);
      if out.gate.Refuse? then out
      else RunGuards(guards[1..], verify, out.sessions, header, now, out.gate.user)
  }

  /** The request's way through the route's guards on the database: the
      handler runs only on admission. */
  method RunChain(db: Db, route: Route, verify: Verifier, header: Option<string>, now: Time) returns (g: Gate)
    requires db.Valid()
    modifies db`sessions
    ensures db.Valid()
    ensures var s := RunGuards(Guards(route), verify, old(db.sessions), header, now, None);
      g == s.gate && db.sessions == s.sessions
  {
    var guards := Guards(route);
    var user: Option<Identity> := None;
    var i := 0;
    while i < |guards|
      invariant 0 <= i <= |guards|
      invariant db.Valid()
      invariant RunGuards(guards[i..], verify, db.sessions, header, now, user)
             == RunGuards(guards, verify, old(db.sessions), header, now, None)
    {
      assert guards[i..][0] == guards[i] && guards[i..][1..] == guards[i + 1..];
      var step: Gate;
      match guards[i] {
        case OptionalAuthGuard =>
          step := OptionalAuth(db, verify, header, now);
        case AuthenticateGuard =>
          step := Authenticate(db, verify, header, now);
        case AuthorizeGuard(roles) =>
          var decision := Authorize(roles, user);
          step := if decision.Next? then Admit(user) else Refuse(decision.status, decision.body);
      }
      if step.Refuse? {
        return step;
      }
      user := step.user;
      i := i + 1;
    }
    g := Admit(user);
  }

  /** Create, update and delete admit nobody but an authenticated TEACHER. */
  lemma MutatingRoutesNeedTeacher(
    route: Route, verify: Verifier, sessions: map<Id, Session>, header: Option<string>, now: Time)
    requires route == CreateRoute || route == UpdateRoute || route == DeleteRoute
    ensures var s := RunGuards(Guards(route), verify, sessions, header, now, None);
      s.gate.Admit? ==> s.gate.user.Some? && s.gate.user.value.role == Teacher
  {
    var guards := Guards(route);
    var first := AuthenticateStep(verify, sessions, header, now);
    if first.gate.Admit? {
      assert guards[1..] == [AuthorizeGuard([Teacher])];
      assert guards[1..][1..] == [];
    }
  }

  /** Without an Authorization header, list and search run anonymously and
      touch no session, while every other route is refused with 401. */
  lemma AnonymousRequests(route: Route, verify: Verifier, sessions: map<Id, Session>, now: Time)
    ensures var s := RunGuards(Guards(route), verify, sessions, None, now, None);
      && (route == ListRoute || route == SearchRoute ==> s == AuthOutcome(Admit(None), sessions))
      && (route != ListRoute && route != SearchRoute ==> s == Reject(TokenMissing, sessions))
  {
    assert Guards(route)[1..] == [] || Guards(route)[1..] == [AuthorizeGuard([Teacher])];
  }

  /** A STUDENT who logged in reads the post by id, but creating a post gives
      403 naming TEACHER as required and STUDENT as current. */
  lemma StudentForbiddenToCreate(
    users: map<Id, User>, sessions: map<Id, Session>, sign: Signer, verify: Verifier,
    email: string, sessionId: Id, t0: Time, now: Time)
    requires Sound(sign, verify)
    requires UsersWf(users) && SessionsWf(sessions, users) && sessionId !in sessions
    requires TokenLive(t0, now)
    ensures var login := LoginStep(users, sessions, sign, email, sessionId, t0);
      login.result.Ok? && login.result.value.user.role == Student ==>
        var header := Some(BearerHeader(login.result.value.token));
        && RunGuards(Guards(GetRoute), verify, login.sessions, header, now, None).gate.Admit?
        && RunGuards(Guards(CreateRoute), verify, login.sessions, header, now, None)
           == AuthOutcome(Refuse(403, Forbidden(AccessDenied, [Teacher], Student)), login.sessions)
  {
    var login := LoginStep(users, sessions, sign, email, sessionId, t0);
    if login.result.Ok? && login.result.value.user.role == Student {
      LoginThenAuthenticate(users, sessions, sign, verify, email, sessionId, t0, now);
      assert Guards(CreateRoute)[1..] == [AuthorizeGuard([Teacher])];
    }
  }

  /** A TEACHER's token lists posts as that TEACHER; once the session is
      logged out, the same token on the listing is refused with 401 rather
      than served anonymously. */
  lemma ListingAcrossLogout(
    users: map<Id, User>, sessions: map<Id, Session>, sign: Signer, verify: Verifier,
    email: string, sessionId: Id, t0: Time, now: Time)
    requires Sound(sign, verify)
    requires UsersWf(users) && SessionsWf(sessions, users) && sessionId !in sessions
    requires TokenLive(t0, now)
    ensures var login := LoginStep(users, sessions, sign, email, sessionId, t0);
      login.result.Ok? && login.result.value.user.role == Teacher ==>
        var header := Some(BearerHeader(login.result.value.token));
        var u := login.result.value.user;
        && RunGuards(Guards(ListRoute), verify, login.sessions, header, now, None)
           == AuthOutcome(Admit(Some(Identity(u.id, Teacher, sessionId))), login.sessions)
        && RunGuards(Guards(ListRoute), verify, login.sessions - {sessionId}, header, now, None)
           == Reject(SessionInvalid, login.sessions - {sessionId})
  {
    var login := LoginStep(users, sessions, sign, email, sessionId, t0);
    if login.result.Ok? && login.result.value.user.role == Teacher {
      LoginThenAuthenticate(users, sessions, sign, verify, email, sessionId, t0, now);
      LogoutRevokes(users, sessions, sign, verify, email, sessionId, t0, now);
    }
  }
}
