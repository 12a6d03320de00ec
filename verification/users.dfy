/** The user directory every revision of the chat server's `UserManager`
    keeps: the list of registered users in registration order (the k-th user
    has id k) and the index from user name to user. The user count is a Java
    `int`, so registration stops at `Integer.MAX_VALUE`. */
module UserDirectory {
  import opened Wrappers
  import opened JavaInt

  /** `UserInfo`: a name and an id, equal when both are equal. */
  datatype UserInfo = UserInfo(username: string, id: int)

  /** Why a registration is refused: `IllegalArgumentException` for a taken
      name, `IllegalStateException` once the count is exhausted. */
  datatype RegistryError = NameTaken | TooManyUsers

  datatype Directory = Directory(indexed: seq<UserInfo>, byName: map<string, UserInfo>)

  const EmptyDirectory := Directory([], map[])

  /** The k-th registered user has id k, and the name index holds exactly
      the registered users under their names. */
  predicate Valid(d: Directory) {
    && |d.indexed| <= IntMax
    && (forall i :: 0 <= i < |d.indexed| ==> d.indexed[i].id == i + 1)
    && (forall i :: 0 <= i < |d.indexed| ==>
          d.indexed[i].username in d.byName && d.byName[d.indexed[i].username] == d.indexed[i])
    && (forall n :: n in d.byName ==> d.byName[n].username == n && d.byName[n] in d.indexed)
  }

  lemma EmptyValid()
    ensures Valid(EmptyDirectory)
  {
  }

  /** `registerUser`: the new user gets the next id and is indexed by name. */
  function Register(d: Directory, name: string): (r: Result<(Directory, UserInfo), RegistryError>)
    ensures r == Failure(NameTaken) <==> name in d.byName
    ensures r == Failure(TooManyUsers) <==> name !in d.byName && |d.indexed| >= IntMax
    ensures r.Success? ==>
      var (d', u) := r.value;
      && u == UserInfo(name, |d.indexed| + 1)
      && d'.indexed == d.indexed + [u]
    ensures r.Success? && Valid(d) ==> Valid(r.value.0) && r.value.1 !in d.indexed
  {
    if name in d.byName then Failure(NameTaken)
    else if |d.indexed| >= IntMax then Failure(TooManyUsers)
    else
      var u := UserInfo(name, |d.indexed| + 1);
      Success((Directory(d.indexed + [u], d.byName[name := u]), u))
  }

  /** `findUserByName`: the registered user of that name, or null. */
  function FindByName(d: Directory, name: string): (r: Option<UserInfo>)
    requires Valid(d)
    ensures r.Some? ==> r.value.username == name && r.value in d.indexed
    ensures r.None? <==> forall i :: 0 <= i < |d.indexed| ==> d.indexed[i].username != name
  {
    if name in d.byName then Some(d.byName[name]) else None
  }

  /** `findUserById`: the list element at `id - 1`, or null when that index
      is out of bounds (a wrapped `Integer.MIN_VALUE - 1` is out of bounds as
      well, since the list never holds `Integer.MAX_VALUE + 1` users). */
  function FindById(d: Directory, id: int): (r: Option<UserInfo>)
    ensures r.Some? <==> 1 <= id <= |d.indexed|
    ensures r.Some? ==> r.value in d.indexed
    ensures r.Some? && Valid(d) ==> r.value.id == id
  {
    if 1 <= id <= |d.indexed| then Some(d.indexed[id - 1]) else None
  }

  /** A registered user is found both by name and by id. */
  lemma RegisteredFound(d: Directory, u: UserInfo)
    requires Valid(d) && u in d.indexed
    ensures FindByName(d, u.username) == Some(u)
    ensures FindById(d, u.id) == Some(u)
  {
    var i :| 0 <= i < |d.indexed| && d.indexed[i] == u;
  }

  /** Registration adds exactly the new user: it is found by its name and
      id, and every lookup of another name or id answers as before. */
  lemma RegisterThenFind(d: Directory, name: string, other: string, id: int)
    requires Valid(d) && Register(d, name).Success?
    ensures var (d', u) := Register(d, name).value;
      && FindByName(d', name) == Some(u)
      && FindById(d', u.id) == Some(u)
      && (other != name ==> FindByName(d', other) == FindByName(d, other))
      && (id != u.id ==> FindById(d', id) == FindById(d, id))
  {
    var (d', u) := Register(d, name).value;
    RegisteredFound(d', u);
  }

  /** Registering several names in turn, stopping at the first refusal:
      the names are appended in call order, with ids following on. */
  function RegisterAll(d: Directory, names: seq<string>): (r: Result<Directory, RegistryError>)
    ensures r.Success? ==> r.value.indexed == d.indexed + Numbered(names, |d.indexed|)
    decreases |names|
  {
    if names == [] then Success(d)
    else
      var (d', _) :- Register(d, names[0]);
      var r := RegisterAll(d', names[1..]);
      if r.Success? then
        NumberedCons(names, |d.indexed|);
        AppendAssociates(d.indexed, [UserInfo(names[0], |d.indexed| + 1)], Numbered(names[1..], |d.indexed| + 1));
        r
      else r
  }

  lemma AppendAssociates<T>(a: seq<T>, b: seq<T>, c: seq<T>)
    ensures (a + b) + c == a + (b + c)
  {
  }

  /** Successive registrations keep the directory consistent. */
  lemma {:induction false} RegisterAllValid(d: Directory, names: seq<string>)
    requires Valid(d) && RegisterAll(d, names).Success?
    ensures Valid(RegisterAll(d, names).value)
    decreases |names|
  {
    if names != [] {
      var d' := Register(d, names[0]).value.0;
      RegisterAllValid(d', names[1..]);
    }
  }

  /** The users `names` become when registered after `count` others. */
  function Numbered(names: seq<string>, count: int): (r: seq<UserInfo>)
    ensures |r| == |names|
    ensures forall k :: 0 <= k < |names| ==> r[k] == UserInfo(names[k], count + k + 1)
  {
    seq(|names|, k requires 0 <= k < |names| => UserInfo(names[k], count + k + 1))
  }

  /** Numbering a list is numbering its head and then its tail. */
  lemma NumberedCons(names: seq<string>, count: int)
    requires names != []
    ensures Numbered(names, count) == [UserInfo(names[0], count + 1)] + Numbered(names[1..], count + 1)
  {
    var a := Numbered(names, count);
    var b := [UserInfo(names[0], count + 1)] + Numbered(names[1..], count + 1);
    assert |a| == |b|;
    forall k | 0 <= k < |a|
      ensures a[k] == b[k]
    {
      if k > 0 {
        assert b[k] == Numbered(names[1..], count + 1)[k - 1];
      }
    }
  }

  /** Ids are handed out 1, 2, 3, … in call order: after registering `names`,
      the id following the earlier users by k belongs to the k-th name. */
  lemma SequentialIds(d: Directory, names: seq<string>, k: int)
    requires RegisterAll(d, names).Success?
    requires 0 <= k < |names|
    ensures FindById(RegisterAll(d, names).value, |d.indexed| + k + 1)
         == Some(UserInfo(names[k], |d.indexed| + k + 1))
  {
    var r := RegisterAll(d, names).value;
    var id := |d.indexed| + k + 1;
    assert r.indexed[id - 1] == UserInfo(names[k], id);
  }
}
