/** The session bookkeeping of the chat server's `UserManager`: the token
    map, the session-to-user map and the user-to-session map. A `SessionInfo`
    is equal to another exactly when their tokens are, so a session is
    identified by its token here and its last activity lives in the token
    map. A token is a random UUID; its bits are abstracted to a number. */
module SessionTable {
  import opened Wrappers
  import opened UserDirectory

  type Token = nat

  /** How long, in milliseconds, a session may stay inactive. */
  const MaxInactivity: int := 5000

  datatype SessionInfo = SessionInfo(token: Token, lastActivity: int)

  datatype Table = Table(
    sessions: map<Token, int>,
    sessionUser: map<Token, UserInfo>,
    userSession: map<UserInfo, Token>)

  const EmptyTable := Table(map[], map[], map[])

  /** The user-to-session and session-to-user maps are inverse to each other,
      and every session still has its token. */
  predicate Linked(t: Table) {
    && t.sessionUser.Keys <= t.sessions.Keys
    && (forall tk :: tk in t.sessionUser ==>
          t.sessionUser[tk] in t.userSession && t.userSession[t.sessionUser[tk]] == tk)
    && (forall u :: u in t.userSession ==>
          t.userSession[u] in t.sessionUser && t.sessionUser[t.userSession[u]] == u)
  }

  lemma EmptyLinked()
    ensures Linked(EmptyTable)
  {
  }

  /** The three `put`s of `openSessionForUser`. */
  function Link(t: Table, user: UserInfo, token: Token, now: int): (r: Table)
    requires Linked(t) && user !in t.userSession && token !in t.sessions
    ensures Linked(r)
    ensures r.sessions == t.sessions[token := now]
    ensures r.userSession == t.userSession[user := token]
    ensures r.sessionUser == t.sessionUser[token := user]
  {
    Table(t.sessions[token := now], t.sessionUser[token := user], t.userSession[user := token])
  }

  /** The two `remove`s every revision's `closeSessionByToken` makes: the
      session leaves both user maps, its token stays. */
  function Unlink(t: Table, token: Token): (r: Table)
    requires Linked(t) && token in t.sessionUser
    ensures Linked(r)
    ensures r.sessions == t.sessions
    ensures r.sessionUser == t.sessionUser - {token}
    ensures r.userSession == t.userSession - {t.sessionUser[token]}
  {
    t.(sessionUser := t.sessionUser - {token},
       userSession := t.userSession - {t.sessionUser[token]})
  }

  /** `Duration.between(lastActivity, now) > MAX_INACTIVITY_TIME`, with
      time counted in milliseconds. */
  predicate IsIdle(t: Table, token: Token, now: int)
    requires token in t.sessions
  {
    now - t.sessions[token] > MaxInactivity
  }

  /** The tokens `checkSessionActivities` collects: those of the sessions that
      still have a user and are idle. */
  function IdleSessions(t: Table, now: int): (r: set<Token>)
    requires Linked(t)
    ensures forall tk :: tk in r <==> tk in t.sessionUser && IsIdle(t, tk, now)
  {
    set tk | tk in t.sessionUser && now - t.sessions[tk] > MaxInactivity
  }

  /** `getSessionInfoByToken`: the session of a token, or null. */
  function SessionOfToken(t: Table, token: Token): (r: Option<SessionInfo>)
    ensures r.Some? <==> token in t.sessions
    ensures r.Some? ==> r.value.token == token && r.value.lastActivity == t.sessions[token]
  {
    if token in t.sessions then Some(SessionInfo(token, t.sessions[token])) else None
  }

  /** `getSessionInfoByUser`: the session of a user, or null. */
  function SessionOfUser(t: Table, user: UserInfo): (r: Option<SessionInfo>)
    requires Linked(t)
    ensures r.Some? <==> user in t.userSession
    ensures r.Some? ==> r.value.token in t.sessionUser && t.sessionUser[r.value.token] == user
  {
    if user in t.userSession then
      var token := t.userSession[user];
      Some(SessionInfo(token, t.sessions[token]))
    else None
  }

  /** `getUserByToken`: null for an unknown token, and null for a token
      whose session has been closed. */
  function UserOfToken(t: Table, token: Token): (r: Option<UserInfo>)
    requires Linked(t)
    ensures r.Some? <==> token in t.sessionUser
    ensures r.Some? ==> r.value in t.userSession && t.userSession[r.value] == token
  {
    if token !in t.sessions then None
    else if token in t.sessionUser then Some(t.sessionUser[token])
    else None
  }

  /** `updateSessionActivity(token)`: stamps the session of a known token. */
  function Touch(t: Table, token: Token, now: int): (r: Table)
    requires Linked(t)
    ensures Linked(r)
    ensures r.sessions.Keys == t.sessions.Keys
    ensures r.sessionUser == t.sessionUser && r.userSession == t.userSession
    ensures token in t.sessions ==> r.sessions[token] == now
    ensures forall tk :: tk in t.sessions && tk != token ==> r.sessions[tk] == t.sessions[tk]
    ensures token !in t.sessions ==> r == t
  {
    if token in t.sessions then t.(sessions := t.sessions[token := now]) else t
  }

  /** Linking a fresh session and then unlinking it and dropping its token
      gives back the table it started from. */
  lemma LinkThenUnlink(t: Table, user: UserInfo, token: Token, now: int)
    requires Linked(t) && user !in t.userSession && token !in t.sessions
    ensures var t' := Unlink(Link(t, user, token, now), token);
      t'.(sessions := t'.sessions - {token}) == t
  {
    var t' := Unlink(Link(t, user, token, now), token);
    assert token !in t.sessionUser;
    assert t'.sessions - {token} == t.sessions;
    assert t'.sessionUser == t.sessionUser;
    assert t'.userSession == t.userSession;
  }
}
