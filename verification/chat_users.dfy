/** The `UserManager` of the REST chat server and of its websocket
    successor: a user directory, an online state per registered user and the
    session table. Registration, lookup, opening a session and the activity
    stamps are the same in both revisions; closing differs and lives in
    `RestUserManager` and `WebsocketUserManager`. */
module ChatUsers {
  import opened Wrappers
  import opened JavaInt
  import opened UserDirectory
  import opened SessionTable

  /** `UserOnlineState`. */
  datatype OnlineState = Online | Offline | TimedOut

  /** The exceptions the manager throws: a refused registration, an
      `IllegalStateException` for a second session, and an
      `IllegalStateException` for a token with no open session. */
  datatype ManagerError = Registry(reason: RegistryError) | SessionAlreadyOpen | NoOpenSession

  datatype Manager = Manager(dir: Directory, states: map<UserInfo, OnlineState>, table: Table)

  const EmptyManager := Manager(EmptyDirectory, map[], EmptyTable)

  /** Exactly the registered users have a state, the session maps agree,
      and a user with a session is online. */
  predicate Valid(m: Manager) {
    && UserDirectory.Valid(m.dir)
    && (forall u :: u in m.states ==> u.username in m.dir.byName && m.dir.byName[u.username] == u)
    && (forall i :: 0 <= i < |m.dir.indexed| ==> m.dir.indexed[i] in m.states)
    && Linked(m.table)
    && (forall u :: u in m.table.userSession ==> u in m.states && m.states[u] == Online)
  }

  lemma EmptyManagerValid()
    ensures Valid(EmptyManager)
  {
  }

  /** `registerUser`: a new user is OFFLINE and has no session. */
  function RegisterUser(m: Manager, name: string): (r: Result<(Manager, UserInfo), ManagerError>)
    requires Valid(m)
    ensures r == Failure(Registry(NameTaken)) <==> name in m.dir.byName
    ensures r == Failure(Registry(TooManyUsers)) <==> name !in m.dir.byName && |m.dir.indexed| == IntMax
    ensures r.Success? ==>
      var (m', u) := r.value;
      && Valid(m')
      && u.id == |m.dir.indexed| + 1 && u.username == name
      && FindById(m'.dir, u.id) == Some(u)
      && FindByName(m'.dir, name) == Some(u)
      && m'.states[u] == Offline
      && u !in m'.table.userSession
      && m'.table == m.table
      && (forall v :: v in m.states ==> v in m'.states && m'.states[v] == m.states[v])
  {
    match Register(m.dir, name)
    case Failure(e) => Failure(Registry(e))
    case Success((dir', u)) =>
      RegisteredFound(dir', u);
      Success((Manager(dir', m.states[u := Offline], m.table), u))
  }

  /** `openSessionForUser`: refused for a user who already has a session;
      otherwise the fresh token is valid, leads to the user, and the user is
      ONLINE. The random UUID is the `token` argument. */
  function OpenSession(m: Manager, user: UserInfo, token: Token, now: int): (r: Result<(Manager, SessionInfo), ManagerError>)
    requires Valid(m) && user in m.states && token !in m.table.sessions
    ensures r.Failure? <==> user in m.table.userSession
    ensures r.Failure? ==> r.error == SessionAlreadyOpen
    ensures r.Success? ==>
      var (m', s) := r.value;
      && Valid(m')
      && s == SessionInfo(token, now)
      && token in m'.table.sessions
      && UserOfToken(m'.table, token) == Some(user)
      && SessionOfUser(m'.table, user) == Some(s)
      && m'.states[user] == Online
      && m'.dir == m.dir
      && (forall v :: v in m.states && v != user ==> m'.states[v] == m.states[v])
  {
    if user in m.table.userSession then Failure(SessionAlreadyOpen)
    else
      var s := SessionInfo(token, now);
      LinkValid(m, user, token, now);
      Success((Manager(m.dir, m.states[user := Online], Link(m.table, user, token, now)), s))
  }

  /** Linking a fresh session to a registered user without one, and setting
      the user ONLINE, keeps the invariant. */
  lemma LinkValid(m: Manager, user: UserInfo, token: Token, now: int)
    requires Valid(m) && user in m.states && token !in m.table.sessions
    requires user !in m.table.userSession
    ensures Valid(Manager(m.dir, m.states[user := Online], Link(m.table, user, token, now)))
  {
    var t := Link(m.table, user, token, now);
    assert m.states[user := Online].Keys == m.states.Keys;
    assert t.userSession.Keys == m.table.userSession.Keys + {user};
  }

  /** `isTokenValid`: the token map knows the token. */
  predicate IsTokenValid(m: Manager, token: Token) {
    token in m.table.sessions
  }

  /** `updateSessionActivity(token)`: only the activity stamp of that
      session moves; an unknown token changes nothing. */
  function TouchByToken(m: Manager, token: Token, now: int): (r: Manager)
    requires Valid(m)
    ensures Valid(r)
    ensures r.dir == m.dir && r.states == m.states
    ensures r.table.sessionUser == m.table.sessionUser && r.table.userSession == m.table.userSession
    ensures IsTokenValid(m, token) ==> SessionOfToken(r.table, token) == Some(SessionInfo(token, now))
    ensures !IsTokenValid(m, token) ==> r == m
  {
    m.(table := Touch(m.table, token, now))
  }

  /** `updateSessionActivity(user)` of the websocket revision: stamps the
      user's session; a user without a session changes nothing. */
  function TouchByUser(m: Manager, user: UserInfo, now: int): (r: Manager)
    requires Valid(m)
    ensures Valid(r)
    ensures r.dir == m.dir && r.states == m.states
    ensures r.table.sessionUser == m.table.sessionUser && r.table.userSession == m.table.userSession
    ensures user in m.table.userSession ==> SessionOfUser(r.table, user) == Some(SessionInfo(m.table.userSession[user], now))
    ensures user !in m.table.userSession ==> r == m
  {
    match SessionOfUser(m.table, user)
    case Some(s) => TouchByToken(m, s.token, now)
    case None => m
  }

  /** Opening a session and then asking for the token's user, or for the
      user's session, gives back the pair just linked. */
  lemma OpenThenLookup(m: Manager, user: UserInfo, token: Token, now: int)
    requires Valid(m) && user in m.states && token !in m.table.sessions
    requires user !in m.table.userSession
    ensures OpenSession(m, user, token, now).Success?
    ensures var (m', s) := OpenSession(m, user, token, now).value;
      && IsTokenValid(m', s.token)
      && UserOfToken(m'.table, s.token) == Some(user)
      && SessionOfToken(m'.table, s.token) == Some(s)
  {
  }

  /** A user who has a session is refused a second one, and nothing changes. */
  lemma SecondOpenRefused(m: Manager, user: UserInfo, token: Token, token2: Token, now: int, later: int)
    requires Valid(m) && user in m.states && token !in m.table.sessions
    requires OpenSession(m, user, token, now).Success?
    requires token2 !in OpenSession(m, user, token, now).value.0.table.sessions
    ensures OpenSession(OpenSession(m, user, token, now).value.0, user, token2, later) == Failure(SessionAlreadyOpen)
  {
  }

  /** The part of `Valid` the inactivity sweeps rely on: the session maps
      agree and every user with a session has a state. */
  predicate Tracked(m: Manager) {
    Linked(m.table) && forall u :: u in m.table.userSession ==> u in m.states
  }

  /** What both revisions' `closeSessionByToken` do once the token has led
      to a user: unlink the session, set the user's state to `state`, and,
      in the websocket revision (`dropToken`), forget the token. */
  function EndSession(m: Manager, token: Token, state: OnlineState, dropToken: bool): (r: Manager)
    requires Linked(m.table) && token in m.table.sessionUser
  {
    var t := Unlink(m.table, token);
    m.(table := if dropToken then t.(sessions := t.sessions - {token}) else t,
       states := m.states[m.table.sessionUser[token] := state])
  }

  /** Ending a session keeps the invariant, whatever state the user is
      left in. */
  lemma EndSessionValid(m: Manager, token: Token, state: OnlineState, dropToken: bool)
    requires Valid(m) && token in m.table.sessionUser
    ensures Valid(EndSession(m, token, state, dropToken))
  {
    var u := m.table.sessionUser[token];
    var t := Unlink(m.table, token);
    var r := EndSession(m, token, state, dropToken);
    assert r.dir == m.dir && r.states.Keys == m.states.Keys;
    assert r.table.userSession == m.table.userSession - {u};
    assert Linked(r.table);
  }

  /** A sweep's bookkeeping: moving one element from the pending part to
      the done part keeps the two a partition of the whole, and shrinks the
      pending part. */
  lemma MoveOne<T>(done: set<T>, pending: set<T>, all: set<T>, x: T)
    requires done + pending == all && done !! pending && x in pending
    ensures (done + {x}) + (pending - {x}) == all && (done + {x}) !! (pending - {x})
    ensures x !in done && |pending - {x}| < |pending|
  {
  }

  /** The users whose sessions are among `closed`. */
  function LostSessions(m: Manager, closed: set<Token>): (r: set<UserInfo>)
    ensures forall u :: u in r <==> u in m.table.userSession && m.table.userSession[u] in closed
  {
    set u | u in m.table.userSession && m.table.userSession[u] in closed
  }

  /** The manager once the sessions in `closed` have been ended: their users
      are TIMED_OUT when in `marked` and OFFLINE otherwise, and their tokens
      are forgotten when `dropTokens`. This is the reference the inactivity
      sweeps are proved against. */
  function AfterClosing(m: Manager, closed: set<Token>, marked: set<UserInfo>, dropTokens: bool): (r: Manager)
  {
    Manager(
      m.dir,
      ClosedStates(m, closed, marked),
      Table(KeptSessions(m.table, closed, dropTokens), KeptSessionUser(m.table, closed), KeptUserSession(m.table, closed)))
  }

  /** The states once the sessions in `closed` have been ended. */
  function ClosedStates(m: Manager, closed: set<Token>, marked: set<UserInfo>): map<UserInfo, OnlineState>
  {
    map u | u in m.states ::
      if u in m.table.userSession && m.table.userSession[u] in closed
      then (if u in marked then TimedOut else Offline)
      else m.states[u]
  }

  /** The token map once the sessions in `closed` have been ended. */
  function KeptSessions(t: Table, closed: set<Token>, dropTokens: bool): map<Token, int>
  {
    if dropTokens then map tk | tk in t.sessions && !(tk in t.sessionUser && tk in closed) :: t.sessions[tk]
    else t.sessions
  }

  /** The session-to-user map once the sessions in `closed` have been ended. */
  function KeptSessionUser(t: Table, closed: set<Token>): map<Token, UserInfo>
  {
    map tk | tk in t.sessionUser && tk !in closed :: t.sessionUser[tk]
  }

  /** The user-to-session map once the sessions in `closed` have been ended. */
  function KeptUserSession(t: Table, closed: set<Token>): map<UserInfo, Token>
  {
    map u | u in t.userSession && t.userSession[u] !in closed :: t.userSession[u]
  }

  /** Ending sessions keeps the session maps inverse to each other. */
  lemma AfterClosingLinked(m: Manager, closed: set<Token>, marked: set<UserInfo>, dropTokens: bool)
    requires Linked(m.table)
    ensures Linked(AfterClosing(m, closed, marked, dropTokens).table)
  {
    var r := AfterClosing(m, closed, marked, dropTokens);
    forall tk | tk in r.table.sessionUser
      ensures r.table.sessionUser[tk] in r.table.userSession && r.table.userSession[r.table.sessionUser[tk]] == tk
    {
      assert m.table.userSession[m.table.sessionUser[tk]] == tk;
    }
  }

  /** Ending sessions keeps the invariant. */
  lemma AfterClosingValid(m: Manager, closed: set<Token>, marked: set<UserInfo>, dropTokens: bool)
    requires Valid(m)
    ensures Valid(AfterClosing(m, closed, marked, dropTokens))
  {
    AfterClosingLinked(m, closed, marked, dropTokens);
  }

  /** Before a sweep ends anything, the manager is as it was. */
  lemma NothingClosed(m: Manager, dropTokens: bool)
    requires Linked(m.table)
    ensures AfterClosing(m, {}, {}, dropTokens) == m
  {
    var r := AfterClosing(m, {}, {}, dropTokens);
    assert r.states == m.states;
    assert r.table.sessions == m.table.sessions;
    assert r.table.sessionUser == m.table.sessionUser;
    assert r.table.userSession == m.table.userSession;
  }

  /** The state a sweep gives each user who lost a session. */
  function Marked(m: Manager, tk: Token, marked: set<UserInfo>, state: OnlineState): set<UserInfo>
    requires tk in m.table.sessionUser
  {
    var u0 := m.table.sessionUser[tk];
    if state == TimedOut then marked + {u0} else marked - {u0}
  }

  /** Ending one more session sets just its user's state. */
  lemma ClosedStatesStep(m: Manager, closed: set<Token>, marked: set<UserInfo>, tk: Token, state: OnlineState)
    requires Linked(m.table) && tk in m.table.sessionUser && tk !in closed
    requires m.table.sessionUser[tk] in m.states && state != Online
    ensures ClosedStates(m, closed + {tk}, Marked(m, tk, marked, state))
         == ClosedStates(m, closed, marked)[m.table.sessionUser[tk] := state]
  {
    var u0 := m.table.sessionUser[tk];
    var a := ClosedStates(m, closed + {tk}, Marked(m, tk, marked, state));
    var b := ClosedStates(m, closed, marked)[u0 := state];
    assert a.Keys == b.Keys;
    forall u | u in a
      ensures a[u] == b[u]
    {
      if u != u0 && u in m.table.userSession {
        assert m.table.userSession[u] != tk;
      }
    }
  }

  /** Ending one more session drops just its user from the user-to-session
      map. */
  lemma KeptUserSessionStep(t: Table, closed: set<Token>, tk: Token)
    requires Linked(t) && tk in t.sessionUser && tk !in closed
    ensures KeptUserSession(t, closed + {tk}) == KeptUserSession(t, closed) - {t.sessionUser[tk]}
  {
    var u0 := t.sessionUser[tk];
    var a := KeptUserSession(t, closed + {tk});
    var b := KeptUserSession(t, closed) - {u0};
    forall u | u in t.userSession
      ensures u in a <==> u in b
    {
      if u != u0 {
        assert t.userSession[u] != tk;
      }
    }
    assert a.Keys == b.Keys;
  }

  /** Ending one more session drops just its token from the session-to-user
      map. */
  lemma KeptSessionUserStep(t: Table, closed: set<Token>, tk: Token)
    ensures KeptSessionUser(t, closed + {tk}) == KeptSessionUser(t, closed) - {tk}
  {
    assert KeptSessionUser(t, closed + {tk}).Keys == (KeptSessionUser(t, closed) - {tk}).Keys;
  }

  /** Ending one more session forgets just its token, and only when tokens
      are dropped. */
  lemma KeptSessionsStep(t: Table, closed: set<Token>, dropTokens: bool, tk: Token)
    requires tk in t.sessionUser
    ensures KeptSessions(t, closed + {tk}, dropTokens)
         == if dropTokens then KeptSessions(t, closed, dropTokens) - {tk} else KeptSessions(t, closed, dropTokens)
  {
    if dropTokens {
      assert KeptSessions(t, closed + {tk}, dropTokens).Keys == (KeptSessions(t, closed, dropTokens) - {tk}).Keys;
    }
  }

  /** The states part of `EndOneMore`. */
  lemma EndOneMoreStates(m: Manager, closed: set<Token>, marked: set<UserInfo>, dropTokens: bool,
                         tk: Token, state: OnlineState)
    requires Linked(m.table) && tk in m.table.sessionUser && tk !in closed
    requires m.table.sessionUser[tk] in m.states && state != Online
    ensures Linked(AfterClosing(m, closed, marked, dropTokens).table)
    ensures tk in AfterClosing(m, closed, marked, dropTokens).table.sessionUser
    ensures EndSession(AfterClosing(m, closed, marked, dropTokens), tk, state, dropTokens).states
         == AfterClosing(m, closed + {tk}, Marked(m, tk, marked, state), dropTokens).states
  {
    AfterClosingLinked(m, closed, marked, dropTokens);
    var r := AfterClosing(m, closed, marked, dropTokens);
    assert r.table.sessionUser[tk] == m.table.sessionUser[tk];
    ClosedStatesStep(m, closed, marked, tk, state);
  }

  /** The session-map part of `EndOneMore`. */
  lemma EndOneMoreTable(m: Manager, closed: set<Token>, marked: set<UserInfo>, dropTokens: bool,
                        tk: Token, state: OnlineState)
    requires Linked(m.table) && tk in m.table.sessionUser && tk !in closed
    ensures Linked(AfterClosing(m, closed, marked, dropTokens).table)
    ensures tk in AfterClosing(m, closed, marked, dropTokens).table.sessionUser
    ensures EndSession(AfterClosing(m, closed, marked, dropTokens), tk, state, dropTokens).table
         == AfterClosing(m, closed + {tk}, Marked(m, tk, marked, state), dropTokens).table
  {
    AfterClosingLinked(m, closed, marked, dropTokens);
    var r := AfterClosing(m, closed, marked, dropTokens);
    assert r.table.sessionUser[tk] == m.table.sessionUser[tk];
    KeptUserSessionStep(m.table, closed, tk);
    KeptSessionUserStep(m.table, closed, tk);
    KeptSessionsStep(m.table, closed, dropTokens, tk);
  }

  /** Ending one more session moves a sweep one step on: the session joins
      `closed`, and its user joins `marked` exactly when it is set TIMED_OUT. */
  lemma EndOneMore(m: Manager, closed: set<Token>, marked: set<UserInfo>, dropTokens: bool,
                   tk: Token, state: OnlineState)
    requires Linked(m.table) && tk in m.table.sessionUser && tk !in closed
    requires m.table.sessionUser[tk] in m.states && state != Online
    ensures Linked(AfterClosing(m, closed, marked, dropTokens).table)
    ensures tk in AfterClosing(m, closed, marked, dropTokens).table.sessionUser
    ensures EndSession(AfterClosing(m, closed, marked, dropTokens), tk, state, dropTokens)
         == AfterClosing(m, closed + {tk}, Marked(m, tk, marked, state), dropTokens)
  {
    EndOneMoreStates(m, closed, marked, dropTokens, tk, state);
    EndOneMoreTable(m, closed, marked, dropTokens, tk, state);
  }
}
