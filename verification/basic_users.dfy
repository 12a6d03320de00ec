/** The earliest `UserManager` of the chat server: registration, lookup by
    name, and one session per user, with no online states and no closing.
    Its `UserInfo` and `SessionInfo` have no equality of their own; a
    registered user is one object per id and each session has a fresh token,
    so comparing them by value agrees with comparing them by identity. */
module BasicUserManager {
  import opened Wrappers
  import opened JavaInt
  import opened UserDirectory
  import opened SessionTable

  datatype BasicError = Registry(reason: RegistryError) | SessionAlreadyOpen

  datatype Manager = Manager(dir: Directory, table: Table)

  const EmptyManager := Manager(EmptyDirectory, EmptyTable)

  predicate Valid(m: Manager) {
    UserDirectory.Valid(m.dir) && Linked(m.table)
  }

  lemma EmptyManagerValid()
    ensures Valid(EmptyManager)
  {
  }

  /** `registerUser`: a taken name throws `IllegalArgumentException`, a full
      count `IllegalStateException`; otherwise the user gets the next id. */
  function RegisterUser(m: Manager, name: string): (r: Result<(Manager, UserInfo), BasicError>)
    requires Valid(m)
    ensures r == Failure(Registry(NameTaken)) <==> name in m.dir.byName
    ensures r == Failure(Registry(TooManyUsers)) <==> name !in m.dir.byName && |m.dir.indexed| == IntMax
    ensures r.Success? ==>
      var (m', u) := r.value;
      && Valid(m')
      && u == UserInfo(name, |m.dir.indexed| + 1)
      && FindByName(m'.dir, name) == Some(u)
      && m'.table == m.table
  {
    match Register(m.dir, name)
    case Failure(e) => Failure(Registry(e))
    case Success((dir', u)) =>
      RegisteredFound(dir', u);
      Success((Manager(dir', m.table), u))
  }

  /** `openSessionForUser`: a user who already has a session is refused with
      `IllegalStateException`; otherwise the session with the fresh token is
      linked to the user. The random UUID is the `token` argument. */
  function OpenSession(m: Manager, user: UserInfo, token: Token, now: int): (r: Result<(Manager, SessionInfo), BasicError>)
    requires Valid(m) && token !in m.table.sessions
    ensures r.Failure? <==> user in m.table.userSession
    ensures r.Failure? ==> r.error == SessionAlreadyOpen
    ensures r.Success? ==>
      var (m', s) := r.value;
      && Valid(m')
      && s == SessionInfo(token, now)
      && m'.dir == m.dir
      && UserOfToken(m'.table, token) == Some(user)
      && (forall v :: v != user ==> SessionOfUser(m'.table, v) == SessionOfUser(m.table, v))
  {
    if user in m.table.userSession then Failure(SessionAlreadyOpen)
    else Success((Manager(m.dir, Link(m.table, user, token, now)), SessionInfo(token, now)))
  }

  /** `getUserSession`: the user's session, or null. */
  function GetUserSession(m: Manager, user: UserInfo): (r: Option<SessionInfo>)
    requires Valid(m)
    ensures r.Some? <==> user in m.table.userSession
    ensures r.Some? ==> UserOfToken(m.table, r.value.token) == Some(user)
  {
    SessionOfUser(m.table, user)
  }

  /** After `openSessionForUser(u)` returns `s`, `getUserSession(u)` is `s`,
      and a second open for `u` is refused. */
  lemma OpenThenGet(m: Manager, user: UserInfo, token: Token, token2: Token, now: int)
    requires Valid(m) && token !in m.table.sessions && user !in m.table.userSession
    ensures OpenSession(m, user, token, now).Success?
    ensures var (m', s) := OpenSession(m, user, token, now).value;
      && GetUserSession(m', user) == Some(s)
      && (token2 !in m'.table.sessions ==> OpenSession(m', user, token2, now).Failure?)
  {
  }
}
