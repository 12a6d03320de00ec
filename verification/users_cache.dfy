/** The websocket chat client's `UsersCache`: the users it has heard of by
    id, merged with each user list the server sends, and the users whose
    online status that merge changed. */
module UsersCache {
  import opened Wrappers

  /** One entry of the server's user list, `UserInfoResponse`. */
  datatype UserResponse = UserResponse(id: int, username: string, online: string)

  /** The client's `UserInfo`: only its online status ever changes. */
  datatype CachedUser = CachedUser(id: int, username: string, online: string)

  type Cache = map<int, CachedUser>

  /** Every entry sits under its own id. */
  predicate Valid(c: Cache) {
    forall id :: id in c ==> c[id].id == id
  }

  /** Whether merging one response reports its user, judged against the
      cache as it stands: a known user whose status string differs, or an
      unknown user whose status is exactly "true". */
  predicate Reports(c: Cache, r: UserResponse) {
    if r.id in c then r.online != c[r.id].online else r.online == "true"
  }

  /** One pass of the loop of `update`: a known user takes the new status,
      an unknown one is added as the response describes it. */
  function Merge(c: Cache, r: UserResponse): (res: (Cache, bool))
    requires Valid(c)
    ensures Valid(res.0)
    ensures res.1 == Reports(c, r)
    ensures res.0.Keys == c.Keys + {r.id}
    ensures res.0[r.id].online == r.online
    ensures r.id in c ==> res.0[r.id].username == c[r.id].username
    ensures r.id !in c ==> res.0[r.id].username == r.username
    ensures forall id :: id in c && id != r.id ==> res.0[id] == c[id]
  {
    if r.id in c then
      if r.online != c[r.id].online then (c[r.id := c[r.id].(online := r.online)], true)
      else (c, false)
    else (c[r.id := CachedUser(r.id, r.username, r.online)], r.online == "true")
  }

  /** The loop of `update`: the merged cache and the ids of the reported
      users, in the order they were reported. */
  function MergeAll(c: Cache, rs: seq<UserResponse>): (res: (Cache, seq<int>))
    requires Valid(c)
    ensures Valid(res.0)
    ensures res.0.Keys == c.Keys + Ids(rs)
    ensures |res.1| <= |rs|
    ensures forall k :: 0 <= k < |res.1| ==> res.1[k] in res.0
    decreases |rs|
  {
    if rs == [] then (c, [])
    else
      var (c1, reported) := Merge(c, rs[0]);
      var (c2, ids) := MergeAll(c1, rs[1..]);
      (c2, (if reported then [rs[0].id] else []) + ids)
  }

  /** `update`: the reported list holds references to the cached objects,
      which later responses in the same list may still change, so each
      reported user shows its status at the end of the merge. */
  function Update(c: Cache, rs: seq<UserResponse>): (res: (Cache, seq<CachedUser>))
    requires Valid(c)
    ensures Valid(res.0)
    ensures res.0.Keys == c.Keys + Ids(rs)
    ensures |res.1| <= |rs|
    ensures forall k :: 0 <= k < |res.1| ==> res.1[k].id in res.0 && res.0[res.1[k].id] == res.1[k]
  {
    var (c', ids) := MergeAll(c, rs);
    (c', seq(|ids|, k requires 0 <= k < |ids| => c'[ids[k]]))
  }

  /** `getNameById`: an id below 1 throws `IllegalArgumentException`;
      otherwise the cached user's name, or null. */
  function GetNameById(c: Cache, id: int): (r: Result<Option<string>, string>)
    requires Valid(c)
    ensures r.Failure? <==> id <= 0
    ensures r.Success? ==> (r.value.Some? <==> id in c)
    ensures r.Success? && r.value.Some? ==> r.value.value == c[id].username && c[id].id == id
  {
    if id <= 0 then Failure("IllegalArgumentException")
    else if id in c then Success(Some(c[id].username))
    else Success(None)
  }


  /** The ids a response list mentions. */
  function Ids(rs: seq<UserResponse>): (r: set<int>)
    ensures forall k :: 0 <= k < |rs| ==> rs[k].id in r
    ensures forall id :: id in r ==> exists k :: 0 <= k < |rs| && rs[k].id == id
    decreases |rs|
  {
    if rs == [] then {}
    else
      var tail := Ids(rs[1..]);
      assert forall k :: 1 <= k < |rs| ==> rs[k] == rs[1..][k - 1];
      assert forall id :: id in tail ==> exists k :: 0 <= k < |rs| && rs[k].id == id by {
        forall id | id in tail
          ensures exists k :: 0 <= k < |rs| && rs[k].id == id
        {
          var j :| 0 <= j < |rs[1..]| && rs[1..][j].id == id;
          assert rs[j + 1].id == id;
        }
      }
      {rs[0].id} + tail
  }

  /** The last response about `id`. */
  function LastWith(rs: seq<UserResponse>, id: int): (r: Option<UserResponse>)
    ensures r.Some? <==> id in Ids(rs)
    ensures r.Some? ==> r.value.id == id && r.value in rs
    decreases |rs|
  {
    if rs == [] then None
    else
      var later := LastWith(rs[1..], id);
      if later.Some? then later
      else if rs[0].id == id then Some(rs[0])
      else None
  }

  /** The first response about `id`. */
  function FirstWith(rs: seq<UserResponse>, id: int): (r: Option<UserResponse>)
    ensures r.Some? <==> id in Ids(rs)
    ensures r.Some? ==> r.value.id == id && r.value in rs
    decreases |rs|
  {
    if rs == [] then None
    else if rs[0].id == id then Some(rs[0])
    else FirstWith(rs[1..], id)
  }

  /** What the merge leaves under `id`: a user no response mentions is
      untouched, a known user takes the status of the last response about
      it, and a new user the name of the first and the status of the last. */
  function Entry(c: Cache, rs: seq<UserResponse>, id: int): (u: CachedUser)
    requires id in c || id in Ids(rs)
  {
    match LastWith(rs, id)
    case None => c[id]
    case Some(last) =>
      if id in c then c[id].(online := last.online)
      else CachedUser(id, FirstWith(rs, id).value.username, last.online)
  }

  /** The cache `update` leaves behind, stated without the loop. */
  function Merged(c: Cache, rs: seq<UserResponse>): (r: Cache)
    ensures r.Keys == c.Keys + Ids(rs)
  {
    map id | id in c.Keys + Ids(rs) :: Entry(c, rs, id)
  }

  /** Merging one response and then the rest leaves under each id what
      merging them all does. */
  lemma EntryStep(c: Cache, r: UserResponse, rs: seq<UserResponse>, id: int)
    requires Valid(c) && (id in c || id == r.id || id in Ids(rs))
    ensures id in Merge(c, r).0 || id in Ids(rs)
    ensures Entry(Merge(c, r).0, rs, id) == Entry(c, [r] + rs, id)
  {
    var s := [r] + rs;
    assert s[1..] == rs;
    assert LastWith(s, id) == if LastWith(rs, id).Some? then LastWith(rs, id)
                              else if r.id == id then Some(r) else None;
    assert FirstWith(s, id) == if r.id == id then Some(r) else FirstWith(rs, id);
  }

  /** The ids of a list are its head's id and the ids of its tail. */
  lemma IdsCons(r: UserResponse, rs: seq<UserResponse>)
    ensures Ids([r] + rs) == {r.id} + Ids(rs)
  {
    assert ([r] + rs)[1..] == rs;
  }

  /** Merging one response and then the rest is merging them all. */
  lemma MergedStep(c: Cache, r: UserResponse, rs: seq<UserResponse>)
    requires Valid(c)
    ensures Merged(Merge(c, r).0, rs) == Merged(c, [r] + rs)
  {
    IdsCons(r, rs);
    var a := Merged(Merge(c, r).0, rs);
    var b := Merged(c, [r] + rs);
    assert a.Keys == b.Keys;
    forall id | id in a.Keys
      ensures a[id] == b[id]
    {
      EntryStep(c, r, rs, id);
    }
  }

  /** The loop of `update` computes `Merged`. */
  lemma {:induction false} MergeAllMerged(c: Cache, rs: seq<UserResponse>)
    requires Valid(c)
    ensures MergeAll(c, rs).0 == Merged(c, rs)
    decreases |rs|
  {
    if rs == [] {
      assert Merged(c, rs) == c;
    } else {
      MergeAllMerged(Merge(c, rs[0]).0, rs[1..]);
      MergedStep(c, rs[0], rs[1..]);
      assert [rs[0]] + rs[1..] == rs;
    }
  }

  /** A cached user keeps its name through any update; one no response
      mentions keeps its entry, and one that is mentioned ends with the
      status of the last response about it. */
  lemma UpdateKeepsNames(c: Cache, rs: seq<UserResponse>, id: int)
    requires Valid(c) && id in c
    ensures id in Update(c, rs).0
    ensures Update(c, rs).0[id].username == c[id].username
    ensures id !in Ids(rs) ==> Update(c, rs).0[id] == c[id]
    ensures id in Ids(rs) ==> Update(c, rs).0[id].online == LastWith(rs, id).value.online
  {
    MergeAllMerged(c, rs);
  }

  /** A user new to the cache enters with the name of the first response
      about it and the status of the last. */
  lemma UpdateAddsNew(c: Cache, rs: seq<UserResponse>, id: int)
    requires Valid(c) && id !in c && id in Ids(rs)
    ensures id in Update(c, rs).0
    ensures Update(c, rs).0[id] == CachedUser(id, FirstWith(rs, id).value.username, LastWith(rs, id).value.online)
  {
    MergeAllMerged(c, rs);
  }

  /** The ids `update` reports when each response is judged against the
      cache it started from; this is the loop's outcome when no id
      repeats. */
  function Reported(c: Cache, rs: seq<UserResponse>): (r: seq<int>)
    ensures forall k :: 0 <= k < |r| ==> r[k] in Ids(rs)
    ensures forall k :: 0 <= k < |rs| && Reports(c, rs[k]) ==> rs[k].id in r
    decreases |rs|
  {
    if rs == [] then []
    else
      assert forall k :: 1 <= k < |rs| ==> rs[k] == rs[1..][k - 1];
      (if Reports(c, rs[0]) then [rs[0].id] else []) + Reported(c, rs[1..])
  }

  /** No id appears again later in the list. */
  predicate DistinctIds(rs: seq<UserResponse>)
    decreases |rs|
  {
    rs == [] || (rs[0].id !in Ids(rs[1..]) && DistinctIds(rs[1..]))
  }

  /** Whether each response is reported depends only on the entries of the
      ids the list mentions. */
  lemma {:induction false} ReportedFrame(c1: Cache, c2: Cache, rs: seq<UserResponse>)
    requires forall id :: id in Ids(rs) ==> (id in c1 <==> id in c2)
    requires forall id :: id in Ids(rs) && id in c1 ==> c1[id].online == c2[id].online
    ensures Reported(c1, rs) == Reported(c2, rs)
    decreases |rs|
  {
    if rs != [] {
      ReportedFrame(c1, c2, rs[1..]);
    }
  }

  /** With no repeated id, `update` reports exactly the users whose status
      changed or who are new and online, in the order of the list. */
  lemma {:induction false} DistinctReported(c: Cache, rs: seq<UserResponse>)
    requires Valid(c) && DistinctIds(rs)
    ensures MergeAll(c, rs).1 == Reported(c, rs)
    decreases |rs|
  {
    if rs != [] {
      var c1 := Merge(c, rs[0]).0;
      ReportedFrame(c1, c, rs[1..]);
      DistinctReported(c1, rs[1..]);
    }
  }

  /** A list whose every user the cache already holds with the status of
      the list's last word on it reports nobody. */
  lemma {:induction false} NoneReported(c: Cache, rs: seq<UserResponse>)
    requires DistinctIds(rs)
    requires forall id :: id in Ids(rs) ==> id in c && c[id].online == LastWith(rs, id).value.online
    ensures Reported(c, rs) == []
    decreases |rs|
  {
    if rs != [] {
      assert LastWith(rs, rs[0].id) == Some(rs[0]);
      forall id | id in Ids(rs[1..])
        ensures LastWith(rs[1..], id) == LastWith(rs, id)
      {
      }
      NoneReported(c, rs[1..]);
    }
  }

  /** The merged cache holds, for every mentioned user, the status of the
      last response about it. */
  lemma MergedLast(c: Cache, rs: seq<UserResponse>, id: int)
    requires id in Ids(rs)
    ensures id in Merged(c, rs) && Merged(c, rs)[id].online == LastWith(rs, id).value.online
  {
  }

  /** A cache that already holds every mentioned user with the status of
      the list's last word on it is left as it is by the merge. */
  lemma MergedFixed(c: Cache, rs: seq<UserResponse>)
    requires forall id :: id in Ids(rs) ==> id in c && c[id].online == LastWith(rs, id).value.online
    ensures Merged(c, rs) == c
  {
    var m := Merged(c, rs);
    assert m.Keys == c.Keys;
    forall id | id in c
      ensures m[id] == c[id]
    {
      assert m[id] == Entry(c, rs, id);
    }
  }

  /** With no repeated id, merging the same list a second time changes
      nothing and reports nobody. */
  lemma UpdateTwiceQuiet(c: Cache, rs: seq<UserResponse>)
    requires Valid(c) && DistinctIds(rs)
    ensures var c' := Update(c, rs).0;
      Update(c', rs).0 == c' && Update(c', rs).1 == []
  {
    var c' := MergeAll(c, rs).0;
    MergeAllMerged(c, rs);
    forall id | id in Ids(rs)
      ensures id in c' && c'[id].online == LastWith(rs, id).value.online
    {
      MergedLast(c, rs, id);
    }
    MergeAllMerged(c', rs);
    MergedFixed(c', rs);
    DistinctReported(c', rs);
    NoneReported(c', rs);
  }
}
