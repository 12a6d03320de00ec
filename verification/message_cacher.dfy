/** The tree chat node's `MessageCacher`: every message UUID the node has
    seen, and the messages still waiting for acknowledgements, each with the
    number of neighbours that have not yet acknowledged it. */
module MessageCacher {
  import opened Wrappers
  import opened JavaInt

  /** A message UUID; its bits are abstracted to a number. */
  type Uuid = nat

  /** `MessageSendPacket`: the message's UUID, its sender's name and text. */
  datatype SendPacket = SendPacket(messageUuid: Uuid, name: string, data: string)

  /** `CachedData`: the packet and its outstanding receiver count, a Java
      `int`. */
  datatype CachedData = CachedData(packet: SendPacket, receiversCount: int32)

  /** `NoSuchElementException`. */
  datatype CacheError = NoSuchElement

  /** `messageLogs` and `messageCache`. */
  datatype Cacher = Cacher(logs: set<Uuid>, cache: map<Uuid, CachedData>)

  const EmptyCacher := Cacher({}, map[])

  /** Every cached message is logged and sits under its own UUID. */
  predicate Valid(c: Cacher) {
    && c.cache.Keys <= c.logs
    && (forall u :: u in c.cache ==> c.cache[u].packet.messageUuid == u)
  }

  lemma EmptyCacherValid()
    ensures Valid(EmptyCacher)
  {
  }

  /** `logged`: whether the UUID has ever been cached. */
  predicate Logged(c: Cacher, uuid: Uuid) {
    uuid in c.logs
  }

  /** `cacheMessage`: logs the UUID and caches the packet with the given
      count, replacing any entry under the same UUID. */
  function CacheMessage(c: Cacher, packet: SendPacket, receiversCount: int32): (r: Cacher)
    requires Valid(c)
    ensures Valid(r)
    ensures r.logs == c.logs + {packet.messageUuid}
    ensures packet.messageUuid in r.cache && r.cache[packet.messageUuid] == CachedData(packet, receiversCount)
    ensures forall u :: u != packet.messageUuid ==> (u in r.cache <==> u in c.cache)
    ensures forall u :: u in c.cache && u != packet.messageUuid ==> r.cache[u] == c.cache[u]
  {
    Cacher(c.logs + {packet.messageUuid},
           c.cache[packet.messageUuid := CachedData(packet, receiversCount)])
  }

  /** `getFromCache`: the cached packet, or `NoSuchElementException`. */
  function GetFromCache(c: Cacher, uuid: Uuid): (r: Result<SendPacket, CacheError>)
    requires Valid(c)
    ensures r.Failure? <==> uuid !in c.cache
    ensures r.Success? ==> r.value.messageUuid == uuid && Logged(c, uuid)
  {
    if uuid in c.cache then Success(c.cache[uuid].packet) else Failure(NoSuchElement)
  }

  /** `decreaseReceiversCount`: an uncached UUID throws
      `NoSuchElementException`; otherwise the count drops by one, as a Java
      `int`, and the entry is evicted exactly when the count reaches zero.
      The log never shrinks. */
  function DecreaseReceiversCount(c: Cacher, uuid: Uuid): (r: Result<Cacher, CacheError>)
    requires Valid(c)
    ensures r.Failure? <==> uuid !in c.cache
    ensures r.Success? ==>
      var n := c.cache[uuid].receiversCount;
      && Valid(r.value)
      && r.value.logs == c.logs
      && (uuid in r.value.cache <==> n != 1)
      && (n != 1 ==> r.value.cache[uuid] == c.cache[uuid].(receiversCount := Wrap32(n - 1)))
      && (forall u :: u != uuid ==> (u in r.value.cache <==> u in c.cache))
      && (forall u :: u in c.cache && u != uuid ==> r.value.cache[u] == c.cache[u])
  {
    if uuid !in c.cache then Failure(NoSuchElement)
    else
      var data := c.cache[uuid];
      var n := Wrap32(data.receiversCount - 1);
      if n == 0 then Success(c.(cache := c.cache - {uuid}))
      else Success(c.(cache := c.cache[uuid := data.(receiversCount := n)]))
  }

  /** `k` acknowledgements of the same message in a row; the first that
      finds it gone throws. */
  function DecreaseTimes(c: Cacher, uuid: Uuid, k: nat): (r: Result<Cacher, CacheError>)
    requires Valid(c)
    ensures r.Success? ==> Valid(r.value) && r.value.logs == c.logs
    ensures r.Success? ==> forall u :: u != uuid ==> (u in r.value.cache <==> u in c.cache)
    ensures r.Success? ==> forall u :: u in c.cache && u != uuid ==> r.value.cache[u] == c.cache[u]
    decreases k
  {
    if k == 0 then Success(c)
    else
      var c1 :- DecreaseReceiversCount(c, uuid);
      DecreaseTimes(c1, uuid, k - 1)
  }

  /** While fewer acknowledgements than its count have arrived, a message
      stays cached with its count lowered by one per acknowledgement. A
      count that starts at zero or below only falls further, so such a
      message stays cached until the count wraps around. */
  lemma {:induction false} CountsDown(c: Cacher, uuid: Uuid, k: nat)
    requires Valid(c) && uuid in c.cache
    requires var n := c.cache[uuid].receiversCount;
      (n > 0 ==> k < n) && (n <= 0 ==> n - k >= IntMin)
    ensures DecreaseTimes(c, uuid, k).Success?
    ensures var r := DecreaseTimes(c, uuid, k).value;
      uuid in r.cache && r.cache[uuid] == c.cache[uuid].(receiversCount := c.cache[uuid].receiversCount - k)
    decreases k
  {
    if k > 0 {
      var c1 := DecreaseReceiversCount(c, uuid).value;
      CountsDown(c1, uuid, k - 1);
    }
  }

  /** `k + 1` acknowledgements are `k` followed by one more. */
  lemma {:induction false} DecreaseOneMore(c: Cacher, uuid: Uuid, k: nat)
    requires Valid(c) && DecreaseTimes(c, uuid, k).Success?
    ensures DecreaseTimes(c, uuid, k + 1) == DecreaseReceiversCount(DecreaseTimes(c, uuid, k).value, uuid)
    decreases k
  {
    if k > 0 {
      var c1 := DecreaseReceiversCount(c, uuid).value;
      DecreaseOneMore(c1, uuid, k - 1);
    }
  }

  /** A message cached for `n >= 1` receivers is evicted by exactly the
      `n`-th acknowledgement. */
  lemma {:induction false} EvictedAtZero(c: Cacher, uuid: Uuid)
    requires Valid(c) && uuid in c.cache && c.cache[uuid].receiversCount > 0
    ensures DecreaseTimes(c, uuid, c.cache[uuid].receiversCount).Success?
    ensures uuid !in DecreaseTimes(c, uuid, c.cache[uuid].receiversCount).value.cache
    decreases c.cache[uuid].receiversCount
  {
    var n: nat := c.cache[uuid].receiversCount;
    var c1 := DecreaseReceiversCount(c, uuid).value;
    assert DecreaseTimes(c, uuid, n) == DecreaseTimes(c1, uuid, n - 1);
    if n > 1 {
      assert c1.cache[uuid].receiversCount == n - 1;
      EvictedAtZero(c1, uuid);
    }
  }

  /** Once evicted, one more acknowledgement of the message throws. */
  lemma AckAfterEvictionThrows(c: Cacher, uuid: Uuid)
    requires Valid(c) && uuid in c.cache && c.cache[uuid].receiversCount > 0
    ensures DecreaseTimes(c, uuid, c.cache[uuid].receiversCount + 1).Failure?
  {
    var n: nat := c.cache[uuid].receiversCount;
    EvictedAtZero(c, uuid);
    DecreaseOneMore(c, uuid, n);
  }

  /** A message once cached stays logged through any later caching and any
      acknowledgements, so the node never relays it again. */
  lemma LoggedForever(c: Cacher, uuid: Uuid, packet: SendPacket, n: int32, other: Uuid, k: nat)
    requires Valid(c) && Logged(c, uuid)
    ensures Logged(CacheMessage(c, packet, n), uuid)
    ensures DecreaseTimes(c, other, k).Success? ==> Logged(DecreaseTimes(c, other, k).value, uuid)
    ensures Logged(CacheMessage(c, packet, n), packet.messageUuid)
  {
  }

  /** Caching the same UUID again replaces the packet and resets the count. */
  lemma RecacheReplaces(c: Cacher, p1: SendPacket, p2: SendPacket, n1: int32, n2: int32)
    requires Valid(c) && p1.messageUuid == p2.messageUuid
    ensures CacheMessage(CacheMessage(c, p1, n1), p2, n2) == CacheMessage(c, p2, n2)
    ensures GetFromCache(CacheMessage(CacheMessage(c, p1, n1), p2, n2), p1.messageUuid) == Success(p2)
  {
  }
}
