/** The REST chat server's `UserManager`: closing a session unlinks it from
    its user but leaves its token in the token map, and the inactivity sweep
    closes every idle session and marks its user TIMED_OUT. */
module RestUserManager {
  import opened Wrappers
  import opened UserDirectory
  import opened SessionTable
  import opened ChatUsers

  /** On top of `ChatUsers.Valid`: every ONLINE user has a session, since a
      close sets OFFLINE and the sweep TIMED_OUT. */
  predicate Valid(m: Manager) {
    && ChatUsers.Valid(m)
    && (forall u :: u in m.states && m.states[u] == Online ==> u in m.table.userSession)
  }

  lemma EmptyManagerValid()
    ensures Valid(EmptyManager)
  {
  }

  /** Registration and opening keep the revision's invariant. */
  lemma RegisterAndOpenValid(m: Manager, name: string, user: UserInfo, token: Token, now: int)
    requires Valid(m)
    ensures RegisterUser(m, name).Success? ==> Valid(RegisterUser(m, name).value.0)
    ensures user in m.states && token !in m.table.sessions && OpenSession(m, user, token, now).Success?
            ==> Valid(OpenSession(m, user, token, now).value.0)
    ensures Valid(TouchByToken(m, token, now))
  {
  }

  /** `closeSessionByToken`: an unknown token, or one whose session is already
      closed, throws `IllegalStateException`. Otherwise the session is
      unlinked from its user, the user goes OFFLINE, and the token stays. */
  function CloseSession(m: Manager, token: Token): (r: Result<Manager, ManagerError>)
    requires Valid(m)
    ensures r.Failure? <==> UserOfToken(m.table, token).None?
    ensures r.Failure? ==> r.error == NoOpenSession
    ensures r.Success? ==>
      var u := m.table.sessionUser[token];
      && Valid(r.value)
      && r.value.dir == m.dir
      && IsTokenValid(r.value, token)
      && r.value.table.sessions == m.table.sessions
      && UserOfToken(r.value.table, token).None?
      && SessionOfUser(r.value.table, u).None?
      && r.value.states == m.states[u := Offline]
      && r.value.table.sessionUser == m.table.sessionUser - {token}
      && r.value.table.userSession == m.table.userSession - {u}
  {
    if token !in m.table.sessions then Failure(NoOpenSession)
    else if token !in m.table.sessionUser then Failure(NoOpenSession)
    else
      EndSessionValid(m, token, Offline, false);
      Success(EndSession(m, token, Offline, false))
  }

  /** A closed session's token stays valid but leads to no user, and closing
      it again throws. */
  lemma CloseTwiceFails(m: Manager, token: Token)
    requires Valid(m) && CloseSession(m, token).Success?
    ensures IsTokenValid(CloseSession(m, token).value, token)
    ensures UserOfToken(CloseSession(m, token).value.table, token).None?
    ensures CloseSession(CloseSession(m, token).value, token).Failure?
  {
  }

  /** Marking one more user who lost a session moves the second loop on. */
  lemma MarkStep(m: Manager, closed: set<Token>, marked: set<UserInfo>, u: UserInfo)
    requires u in LostSessions(m, closed) && Tracked(m)
    ensures var r := AfterClosing(m, closed, marked, false);
      r.(states := r.states[u := TimedOut]) == AfterClosing(m, closed, marked + {u}, false)
  {
    var r := AfterClosing(m, closed, marked, false);
    var e := AfterClosing(m, closed, marked + {u}, false);
    assert r.states[u := TimedOut] == e.states;
  }

  /** What `checkSessionActivities` leaves behind: the idle sessions closed,
      their users TIMED_OUT, every token kept. */
  function Swept(m: Manager, now: int): (r: Manager)
    requires Valid(m)
    ensures Valid(r)
  {
    var idle := IdleSessions(m.table, now);
    AfterClosingValid(m, idle, LostSessions(m, idle), false);
    AfterClosing(m, idle, LostSessions(m, idle), false)
  }

  /** The sweep closes exactly the sessions idle for longer than
      `MaxInactivity`, keeps every token, and sets exactly their users
      TIMED_OUT. */
  lemma SweptClosesIdle(m: Manager, now: int, tk: Token, u: UserInfo)
    requires Valid(m)
    ensures var r := Swept(m, now);
      && r.dir == m.dir && r.table.sessions == m.table.sessions
      && (tk in r.table.sessionUser <==> tk in m.table.sessionUser && !IsIdle(m.table, tk, now))
      && r.states.Keys == m.states.Keys
      && (u in m.states ==>
            r.states[u] == if u in m.table.userSession && IsIdle(m.table, m.table.userSession[u], now)
                           then TimedOut else m.states[u])
  {
  }

  /** One pass of the first loop of `checkSessionActivities`. */
  method CloseOne(m: Manager, closed: set<Token>, r: Manager, tk: Token) returns (r': Manager)
    requires Tracked(m) && tk in m.table.sessionUser && tk !in closed
    requires r == AfterClosing(m, closed, {}, false)
    ensures r' == AfterClosing(m, closed + {tk}, {}, false)
  {
    EndOneMore(m, closed, {}, false, tk, Offline);
    assert Marked(m, tk, {}, Offline) == {};
    r' := EndSession(r, tk, Offline, false);
  }

  /** The first loop of `checkSessionActivities`: closes each collected
      session by its token. Each token was just taken from the session map,
      so `closeSessionByToken` takes its non-throwing path, `EndSession`. */
  method CloseAll(m: Manager, idle: set<Token>) returns (r: Manager)
    requires Tracked(m) && idle <= m.table.sessionUser.Keys
    ensures r == AfterClosing(m, idle, {}, false)
  {
    var pending := idle;
    var closed: set<Token> := {};
    r := m;
    NothingClosed(m, false);
    while pending != {}
      invariant closed + pending == idle && closed !! pending
      invariant r == AfterClosing(m, closed, {}, false)
      decreases |pending|
    {
      var tk :| tk in pending;
      MoveOne(closed, pending, idle, tk);
      r := CloseOne(m, closed, r, tk);
      pending := pending - {tk};
      closed := closed + {tk};
    }
    assert closed == idle;
  }

  /** The second loop of `checkSessionActivities`: sets each user who lost
      a session TIMED_OUT. */
  method MarkAll(m: Manager, idle: set<Token>, swept: Manager) returns (r: Manager)
    requires Tracked(m) && swept == AfterClosing(m, idle, {}, false)
    ensures r == AfterClosing(m, idle, LostSessions(m, idle), false)
  {
    var toMark := LostSessions(m, idle);
    var marked: set<UserInfo> := {};
    r := swept;
    while toMark != {}
      invariant marked + toMark == LostSessions(m, idle) && marked !! toMark
      invariant r == AfterClosing(m, idle, marked, false)
      decreases |toMark|
    {
      var u :| u in toMark;
      MoveOne(marked, toMark, LostSessions(m, idle), u);
      MarkStep(m, idle, marked, u);
      r := r.(states := r.states[u := TimedOut]);
      toMark := toMark - {u};
      marked := marked + {u};
    }
    assert marked == LostSessions(m, idle);
  }

  /** `checkSessionActivities`: collect the idle sessions, close each by its
      token, then set each of their users TIMED_OUT. */
  method CheckSessionActivities(m: Manager, now: int) returns (r: Manager)
    requires Valid(m)
    ensures Valid(r)
    ensures r == Swept(m, now)
  {
    var idle := IdleSessions(m.table, now);
    var swept := CloseAll(m, idle);
    r := MarkAll(m, idle, swept);
    assert r == Swept(m, now);
  }
}
