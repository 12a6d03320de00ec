/** The websocket chat server's `UserManager`: closing a session removes
    all three of its entries, the token included, and sets the user to the
    state the caller passes; the inactivity sweep closes with TIMED_OUT. */
module WebsocketUserManager {
  import opened Wrappers
  import opened UserDirectory
  import opened SessionTable
  import opened ChatUsers

  /** On top of `ChatUsers.Valid`: a user has a session exactly when the
      session leads back to the user, exactly when its token is known. */
  predicate Valid(m: Manager) {
    && ChatUsers.Valid(m)
    && m.table.sessions.Keys == m.table.sessionUser.Keys
  }

  lemma EmptyManagerValid()
    ensures Valid(EmptyManager)
  {
  }

  /** Registration, opening and both activity stamps keep the revision's
      invariant. */
  lemma RegisterAndOpenValid(m: Manager, name: string, user: UserInfo, token: Token, now: int)
    requires Valid(m)
    ensures RegisterUser(m, name).Success? ==> Valid(RegisterUser(m, name).value.0)
    ensures user in m.states && token !in m.table.sessions && OpenSession(m, user, token, now).Success?
            ==> Valid(OpenSession(m, user, token, now).value.0)
    ensures Valid(TouchByToken(m, token, now))
    ensures Valid(TouchByUser(m, user, now))
  {
  }

  /** `closeSessionByToken(token, state)`: an unknown token throws
      `IllegalStateException`; otherwise the session, its token and its user
      link are gone and the user has the given state. */
  function CloseSession(m: Manager, token: Token, state: OnlineState): (r: Result<Manager, ManagerError>)
    requires Valid(m)
    ensures r.Failure? <==> !IsTokenValid(m, token)
    ensures r.Failure? ==> r.error == NoOpenSession
    ensures r.Success? ==>
      var u := m.table.sessionUser[token];
      && Valid(r.value)
      && r.value.dir == m.dir
      && !IsTokenValid(r.value, token)
      && SessionOfUser(r.value.table, u).None?
      && r.value.states == m.states[u := state]
      && r.value.table.sessions == m.table.sessions - {token}
      && r.value.table.sessionUser == m.table.sessionUser - {token}
      && r.value.table.userSession == m.table.userSession - {u}
  {
    if token !in m.table.sessions then Failure(NoOpenSession)
    else if token !in m.table.sessionUser then Failure(NoOpenSession)
    else
      EndSessionValid(m, token, state, true);
      Success(EndSession(m, token, state, true))
  }

  /** After a close the token is no longer valid, so a second close throws. */
  lemma CloseTwiceFails(m: Manager, token: Token, state: OnlineState, state2: OnlineState)
    requires Valid(m) && CloseSession(m, token, state).Success?
    ensures !IsTokenValid(CloseSession(m, token, state).value, token)
    ensures UserOfToken(CloseSession(m, token, state).value.table, token).None?
    ensures CloseSession(CloseSession(m, token, state).value, token, state2).Failure?
  {
  }

  /** Opening then closing a session leaves the session maps as they were:
      the user has no session and the token is unknown again. */
  lemma OpenThenCloseRestores(m: Manager, user: UserInfo, token: Token, now: int, state: OnlineState)
    requires Valid(m) && user in m.states && token !in m.table.sessions
    requires user !in m.table.userSession
    ensures OpenSession(m, user, token, now).Success?
    ensures var m1 := OpenSession(m, user, token, now).value.0;
      && Valid(m1)
      && CloseSession(m1, token, state).Success?
      && CloseSession(m1, token, state).value.table == m.table
      && CloseSession(m1, token, state).value.states == m.states[user := state]
  {
    LinkThenUnlink(m.table, user, token, now);
    var m1 := OpenSession(m, user, token, now).value.0;
    assert m1.states == m.states[user := Online];
    assert m1.table.sessionUser[token] == user;
    assert m1.states[user := state] == m.states[user := state];
  }

  /** The users who lose a session grow by one user per ended session. */
  lemma LostOneMore(m: Manager, closed: set<Token>, tk: Token)
    requires Linked(m.table) && tk in m.table.sessionUser
    ensures LostSessions(m, closed + {tk}) == LostSessions(m, closed) + {m.table.sessionUser[tk]}
  {
  }

  /** What `checkSessionActivities` leaves behind: the idle sessions and
      their tokens gone, their users TIMED_OUT. */
  function Swept(m: Manager, now: int): (r: Manager)
    requires Valid(m)
    ensures ChatUsers.Valid(r)
  {
    var idle := IdleSessions(m.table, now);
    AfterClosingValid(m, idle, LostSessions(m, idle), true);
    AfterClosing(m, idle, LostSessions(m, idle), true)
  }

  /** The sweep ends exactly the sessions idle for longer than
      `MaxInactivity`: their tokens become invalid and their users
      TIMED_OUT; every other session and user is untouched. */
  lemma SweptClosesIdle(m: Manager, now: int, tk: Token, u: UserInfo)
    requires Valid(m)
    ensures var r := Swept(m, now);
      && Valid(r)
      && r.dir == m.dir
      && (IsTokenValid(r, tk) <==> IsTokenValid(m, tk) && !IsIdle(m.table, tk, now))
      && (IsTokenValid(r, tk) ==> r.table.sessions[tk] == m.table.sessions[tk])
      && r.states.Keys == m.states.Keys
      && (u in m.states ==>
            r.states[u] == if u in m.table.userSession && IsIdle(m.table, m.table.userSession[u], now)
                           then TimedOut else m.states[u])
  {
  }

  /** One pass of the loop of `checkSessionActivities`. */
  method CloseOne(m: Manager, closed: set<Token>, r: Manager, tk: Token) returns (r': Manager)
    requires Tracked(m) && tk in m.table.sessionUser && tk !in closed
    requires r == AfterClosing(m, closed, LostSessions(m, closed), true)
    ensures r' == AfterClosing(m, closed + {tk}, LostSessions(m, closed + {tk}), true)
  {
    EndOneMore(m, closed, LostSessions(m, closed), true, tk, TimedOut);
    LostOneMore(m, closed, tk);
    r' := EndSession(r, tk, TimedOut, true);
  }

  /** `checkSessionActivities`: collect the idle sessions, then close each
      by its token with TIMED_OUT. Each token was just taken from the session
      map, so `closeSessionByToken` takes its non-throwing path. The logout
      broadcast to websocket clients is not modelled. */
  method CheckSessionActivities(m: Manager, now: int) returns (r: Manager)
    requires Valid(m)
    ensures r == Swept(m, now)
  {
    var idle := IdleSessions(m.table, now);
    r := CloseAll(m, idle);
  }

  /** The loop of `checkSessionActivities`. */
  method CloseAll(m: Manager, idle: set<Token>) returns (r: Manager)
    requires Tracked(m) && idle <= m.table.sessionUser.Keys
    ensures r == AfterClosing(m, idle, LostSessions(m, idle), true)
  {
    var pending := idle;
    var closed: set<Token> := {};
    r := m;
    NothingClosed(m, true);
    assert LostSessions(m, {}) == {};
    while pending != {}
      invariant closed + pending == idle && closed !! pending
      invariant r == AfterClosing(m, closed, LostSessions(m, closed), true)
      decreases |pending|
    {
      var tk :| tk in pending;
      MoveOne(closed, pending, idle, tk);
      r := CloseOne(m, closed, r, tk);
      pending := pending - {tk};
      closed := closed + {tk};
    }
    assert closed == idle;
  }
}
