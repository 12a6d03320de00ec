/** The REST chat server's `MessageManager`: the list of sent messages, whose
    k-th message has id k, the counter that numbers them, lookup by id, and
    paging through the list by offset and count. Both the counter and the
    paging arguments are Java `int`s. */
module MessageLog {
  import opened Wrappers
  import opened JavaInt

  /** `Message`: its constructor refuses an id or an author id below 1. */
  datatype Message = Message(id: int, authorId: int, text: string)

  /** `IllegalArgumentException` (a failed `checkArgument` or a `subList`
      whose bounds are reversed) and `IndexOutOfBoundsException`. */
  datatype MessageError = IllegalArgument | IndexOutOfBounds

  /** The message list and the `messagesCount` field. */
  datatype Log = Log(messages: seq<Message>, count: int32)

  const EmptyLog := Log([], 0)

  /** The counter is the number of messages, and the k-th message has id k
      and a valid author. */
  predicate Valid(l: Log) {
    && l.count == |l.messages|
    && (forall i :: 0 <= i < |l.messages| ==> l.messages[i].id == i + 1 && l.messages[i].authorId > 0)
  }

  lemma EmptyLogValid()
    ensures Valid(EmptyLog)
  {
  }

  /** `sendMessage`: the counter is incremented first, as a Java `int`, and
      then the message is built from it. Once `Integer.MAX_VALUE` messages
      exist the counter wraps to `Integer.MIN_VALUE`, the `Message`
      constructor throws, and nothing is added, but the wrapped counter is
      kept. The sender is a `UserInfo`, whose id is at least 1. */
  function SendMessage(l: Log, text: string, senderId: int): (r: (Log, Result<Message, MessageError>))
    requires Valid(l) && senderId > 0
    ensures r.1.Failure? <==> |l.messages| == IntMax
    ensures r.1.Failure? ==> r.1.error == IllegalArgument && r.0.messages == l.messages && r.0.count == IntMin
    ensures r.1.Success? ==>
      && Valid(r.0)
      && r.1.value == Message(|l.messages| + 1, senderId, text)
      && r.0.messages == l.messages + [r.1.value]
  {
    var c := Wrap32(l.count + 1);
    if c <= 0 then (l.(count := c), Failure(IllegalArgument))
    else
      var msg := Message(c, senderId, text);
      (Log(l.messages + [msg], c), Success(msg))
  }

  /** `getMessageById`: the message at index `id - 1` (computed as a Java
      `int`), or null when that index is out of bounds. */
  function GetMessageById(l: Log, id: int32): (r: Option<Message>)
    requires Valid(l)
    ensures r.Some? <==> 1 <= id <= |l.messages|
    ensures r.Some? ==> r.value.id == id && r.value in l.messages
  {
    var i := Wrap32(id - 1);
    if 0 <= i < |l.messages| then Some(l.messages[i]) else None
  }

  /** `List.subList(from, to)`: reversed bounds are an
      `IllegalArgumentException`, bounds outside the list an
      `IndexOutOfBoundsException`. */
  function SubList<T>(s: seq<T>, from: int, to: int): (r: Result<seq<T>, MessageError>)
    ensures r.Success? <==> 0 <= from <= to <= |s|
    ensures r.Success? ==> |r.value| == to - from && forall k :: 0 <= k < |r.value| ==> r.value[k] == s[from + k]
  {
    if from < 0 || to > |s| then Failure(IndexOutOfBounds)
    else if from > to then Failure(IllegalArgument)
    else Success(s[from..to])
  }

  /** `getMessages(offset, count)` as written: `offset + count` is a Java
      `int` sum, which wraps to a negative number when it passes
      `Integer.MAX_VALUE`. */
  function GetMessagesAsWritten(l: Log, offset: int32, count: int32): (r: Result<seq<Message>, MessageError>)
    ensures offset < 0 || count < 0 ==> r == Failure(IllegalArgument)
    ensures 0 <= offset && 0 <= count && |l.messages| <= offset ==> r == Success([])
  {
    if offset < 0 || count < 0 then Failure(IllegalArgument)
    else if offset >= |l.messages| then Success([])
    else if Wrap32(offset + count) > |l.messages| then Success(l.messages[offset..])
    else SubList(l.messages, offset, Wrap32(offset + count))
  }

  /** `getMessages(offset, count)` with the sum taken exactly: a negative
      argument throws `IllegalArgumentException`; otherwise the page holds
      the messages from index `offset` on, at most `count` of them. */
  function GetMessages(l: Log, offset: int32, count: int32): (r: Result<seq<Message>, MessageError>)
    ensures r.Failure? <==> offset < 0 || count < 0
    ensures r.Failure? ==> r.error == IllegalArgument
    ensures r.Success? ==>
      && |r.value| == (if offset >= |l.messages| then 0
                       else if count < |l.messages| - offset then count
                       else |l.messages| - offset)
      && forall k :: 0 <= k < |r.value| ==> r.value[k] == l.messages[offset + k]
  {
    if offset < 0 || count < 0 then Failure(IllegalArgument)
    else if offset >= |l.messages| then Success([])
    else if offset + count > |l.messages| then Success(l.messages[offset..])
    else Success(l.messages[offset..offset + count])
  }

  /** In a valid log a page is a run of consecutive ids starting at
      `offset + 1`. */
  lemma PageIds(l: Log, offset: int32, count: int32)
    requires Valid(l) && GetMessages(l, offset, count).Success?
    ensures var p := GetMessages(l, offset, count).value;
      forall k :: 0 <= k < |p| ==> p[k].id == offset + k + 1
  {
  }

  /** As long as `offset + count` fits an `int`, the code as written returns
      the page the exact sum gives. */
  lemma AsWrittenAgrees(l: Log, offset: int32, count: int32)
    requires offset + count <= IntMax
    ensures GetMessagesAsWritten(l, offset, count) == GetMessages(l, offset, count)
  {
  }

  /** When `offset + count` passes `Integer.MAX_VALUE` the sum wraps
      negative, the "all remaining" branch is skipped, and `subList` gets
      reversed bounds: the code as written throws where the remaining
      messages are due. */
  lemma AsWrittenOverflows(l: Log, offset: int32, count: int32)
    requires Valid(l) && 0 <= offset < |l.messages| && 0 <= count && offset + count > IntMax
    ensures GetMessagesAsWritten(l, offset, count) == Failure(IllegalArgument)
    ensures GetMessages(l, offset, count) == Success(l.messages[offset..])
  {
    assert Wrap32(offset + count) < 0;
  }

  /** The smallest instance: two messages, offset 1, count
      `Integer.MAX_VALUE`. */
  lemma OverflowExample(m1: Message, m2: Message)
    requires m1.id == 1 && m2.id == 2 && m1.authorId > 0 && m2.authorId > 0
    ensures GetMessagesAsWritten(Log([m1, m2], 2), 1, IntMax as int32) == Failure(IllegalArgument)
    ensures GetMessages(Log([m1, m2], 2), 1, IntMax as int32) == Success([m2])
  {
    AsWrittenOverflows(Log([m1, m2], 2), 1, IntMax as int32);
    assert [m1, m2][1..] == [m2];
  }

  /** Two adjacent pages together are the page of their combined length,
      which is how a client reads the log in chunks. */
  lemma PagesConcatenate(l: Log, offset: int32, c1: int32, c2: int32)
    requires 0 <= offset && 0 <= c1 && 0 <= c2
    requires offset + c1 + c2 <= IntMax
    ensures GetMessages(l, offset, c1).value + GetMessages(l, (offset + c1) as int32, c2).value
            == GetMessages(l, offset, (c1 + c2) as int32).value
  {
    var p1 := GetMessages(l, offset, c1).value;
    var p2 := GetMessages(l, (offset + c1) as int32, c2).value;
    var p := GetMessages(l, offset, (c1 + c2) as int32).value;
    assert |p1 + p2| == |p|;
    forall k | 0 <= k < |p|
      ensures (p1 + p2)[k] == p[k]
    {
      if k >= |p1| {
        assert (p1 + p2)[k] == p2[k - |p1|];
      }
    }
  }

  /** A sent message is found by its id, the messages before it keep theirs,
      and every page that lay wholly inside the old log is unchanged. */
  lemma SendThenRead(l: Log, text: string, senderId: int, id: int32, offset: int32, count: int32)
    requires Valid(l) && senderId > 0 && SendMessage(l, text, senderId).1.Success?
    ensures var (l', msg) := (SendMessage(l, text, senderId).0, SendMessage(l, text, senderId).1.value);
      && GetMessageById(l', msg.id as int32) == Some(msg)
      && (1 <= id <= |l.messages| ==> GetMessageById(l', id) == GetMessageById(l, id))
      && (0 <= offset && 0 <= count && offset + count <= |l.messages| ==>
            GetMessages(l', offset, count) == GetMessages(l, offset, count))
  {
    var l' := SendMessage(l, text, senderId).0;
    assert l'.messages == l.messages + [SendMessage(l, text, senderId).1.value];
    ExtendedLogKeepsIds(l, l', id);
    ExtendedLogKeepsPages(l, l', offset, count);
  }

  /** Lookups of the ids a log already had answer the same in any longer
      log that extends it. */
  lemma ExtendedLogKeepsIds(l: Log, l': Log, id: int32)
    requires Valid(l) && Valid(l') && l.messages <= l'.messages
    ensures 1 <= id <= |l.messages| ==> GetMessageById(l', id) == GetMessageById(l, id)
  {
    if 1 <= id <= |l.messages| {
      assert l'.messages[id - 1] == l.messages[id - 1];
    }
  }

  /** Pages that lie wholly inside a log read the same in any log that
      extends it. */
  lemma ExtendedLogKeepsPages(l: Log, l': Log, offset: int32, count: int32)
    requires l.messages <= l'.messages
    ensures 0 <= offset && 0 <= count && offset + count <= |l.messages| ==>
      GetMessages(l', offset, count) == GetMessages(l, offset, count)
  {
    if 0 <= offset && 0 <= count && offset + count <= |l.messages| {
      assert l'.messages[offset..offset + count] == l.messages[offset..offset + count];
    }
  }

  /** Sending `n` messages from a valid log numbers them consecutively: the
      j-th of them gets id `|messages| + j + 1`. */
  function SendAll(l: Log, texts: seq<string>, senderId: int): (r: Result<Log, MessageError>)
    requires Valid(l) && senderId > 0
    ensures r.Success? ==> Valid(r.value)
    ensures r.Success? <==> |l.messages| + |texts| <= IntMax
    ensures r.Success? ==> |r.value.messages| == |l.messages| + |texts|
    ensures r.Success? ==> r.value.messages[..|l.messages|] == l.messages
    ensures r.Success? ==>
      forall j :: 0 <= j < |texts| ==>
        r.value.messages[|l.messages| + j] == Message(|l.messages| + j + 1, senderId, texts[j])
    decreases |texts|
  {
    if texts == [] then Success(l)
    else
      var (l1, sent) := SendMessage(l, texts[0], senderId);
      if sent.Failure? then Failure(sent.error)
      else
        var r := SendAll(l1, texts[1..], senderId);
        if r.Success? then
          assert r.value.messages[..|l.messages|] == r.value.messages[..|l1.messages|][..|l.messages|];
          assert forall j :: 1 <= j < |texts| ==> texts[1..][j - 1] == texts[j];
          r
        else r
  }
}
