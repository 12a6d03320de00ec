/** The multicast presence protocol of the first lab: every copy of the
    program sends an 18-byte keep-alive datagram (its process id as a
    big-endian Java `long`, then the ASCII bytes of "keep_alive"), and every
    copy parses the datagrams it receives back into the sender's id, with -1
    for anything that is not a keep-alive. Copies are told apart by the pair
    of sender address and id. */
module KeepAlive {
  import opened Wrappers
  import opened Wire
  import opened Addresses

  /** A value a Java `long` can hold. */
  type int64 = x: int | -0x8000_0000_0000_0000 <= x < 0x8000_0000_0000_0000

  /** The ASCII bytes of "keep_alive", which is also their UTF-8 encoding. */
  const KeepAliveString: seq<byte> := [0x6B, 0x65, 0x65, 0x70, 0x5F, 0x61, 0x6C, 0x69, 0x76, 0x65]

  /** `Long.BYTES`. */
  const LongBytes: nat := 8

  /** `KEEP_ALIVE_MSG_LEN`: the id and the keep-alive string, 18 bytes. */
  const KeepAliveMsgLen: nat := |KeepAliveString| + LongBytes

  /** `BUF_SIZE`: the size of the receive buffer. */
  const BufSize: nat := 100

  /** `256^n`. */
  function Pow256(n: nat): (r: nat)
    ensures r >= 1
  {
    if n == 0 then 1 else 256 * Pow256(n - 1)
  }

  /** The unsigned big-endian number the bytes spell. */
  function Unsigned(s: seq<byte>): (r: nat)
    ensures r < Pow256(|s|)
  {
    if s == [] then 0 else Unsigned(s[..|s| - 1]) * 256 + s[|s| - 1]
  }

  /** The `n` big-endian bytes of `u`. */
  function UnsignedBytes(u: nat, n: nat): (r: seq<byte>)
    requires u < Pow256(n)
    ensures |r| == n
  {
    if n == 0 then [] else UnsignedBytes(u / 256, n - 1) + [u % 256]
  }

  /** Writing `u` and reading it back gives `u`. */
  lemma {:induction false} UnsignedRoundTrip(u: nat, n: nat)
    requires u < Pow256(n)
    ensures Unsigned(UnsignedBytes(u, n)) == u
    decreases n
  {
    if n > 0 {
      UnsignedRoundTrip(u / 256, n - 1);
      var s := UnsignedBytes(u, n);
      assert s[..|s| - 1] == UnsignedBytes(u / 256, n - 1);
    }
  }

  /** Reading bytes and writing the number back gives the bytes. */
  lemma {:induction false} BytesRoundTrip(s: seq<byte>)
    ensures UnsignedBytes(Unsigned(s), |s|) == s
    decreases |s|
  {
    if s != [] {
      var init := s[..|s| - 1];
      BytesRoundTrip(init);
      var u := Unsigned(s);
      assert u / 256 == Unsigned(init);
      assert u % 256 == s[|s| - 1];
      assert init + [s[|s| - 1]] == s;
    }
  }

  /** `ByteBuffer.putLong`: the eight big-endian bytes of the two's
      complement of `id`. */
  function PutLong(id: int64): (r: seq<byte>)
    ensures |r| == LongBytes
  {
    var u := if id < 0 then id + Pow256(8) else id;
    UnsignedBytes(u, 8)
  }

  /** `ByteBuffer.getLong`: the first eight bytes read as a big-endian
      two's complement number. */
  function GetLong(s: seq<byte>): (r: int64)
    requires |s| >= LongBytes
  {
    var u := Unsigned(s[..8]);
    if u < 0x8000_0000_0000_0000 then u else u - Pow256(8)
  }

  /** `getLong` reads back what `putLong` wrote, and the eight bytes that
      `getLong` reads are what `putLong` writes for its result. */
  lemma LongRoundTrip(id: int64, s: seq<byte>)
    requires |s| >= LongBytes
    ensures GetLong(PutLong(id)) == id
    ensures PutLong(GetLong(s)) == s[..8]
  {
    var u := if id < 0 then id + Pow256(8) else id;
    UnsignedRoundTrip(u, 8);
    assert PutLong(id)[..8] == PutLong(id);
    BytesRoundTrip(s[..8]);
  }

  /** The datagram `sendKeepAlive` sends: the id, then "keep_alive". */
  function Frame(id: int64): (r: seq<byte>)
    ensures |r| == KeepAliveMsgLen
    ensures r[..LongBytes] == PutLong(id) && r[LongBytes..] == KeepAliveString
  {
    PutLong(id) + KeepAliveString
  }

  /** `parseGroupInput`: fewer than 18 bytes give -1; otherwise the first
      eight bytes are the id, and the result is that id when the next ten
      decode to exactly "keep_alive", else -1. A UTF-8 decoding equals that
      ASCII string exactly when the ten bytes are its ASCII bytes, because a
      malformed byte decodes to U+FFFD. Bytes past the 18th are never
      read. */
  function ParseGroupInput(data: seq<byte>): (r: int64)
    ensures |data| < KeepAliveMsgLen ==> r == -1
    ensures r != -1 ==> data[LongBytes..KeepAliveMsgLen] == KeepAliveString && data[..LongBytes] == PutLong(r)
    ensures |data| >= KeepAliveMsgLen && data[LongBytes..KeepAliveMsgLen] == KeepAliveString ==> r == GetLong(data)
  {
    if |data| < KeepAliveMsgLen then -1
    else
      LongRoundTrip(0, data);
      if data[LongBytes..KeepAliveMsgLen] == KeepAliveString then GetLong(data) else -1
  }

  /** Parsing the frame a copy sends, whatever follows it in the buffer,
      gives back its id. */
  lemma FrameRoundTrip(id: int64, rest: seq<byte>)
    ensures ParseGroupInput(Frame(id) + rest) == id
  {
    var d := Frame(id) + rest;
    assert d[LongBytes..KeepAliveMsgLen] == KeepAliveString;
    assert d[..8] == PutLong(id) == PutLong(id)[..8];
    assert GetLong(d) == GetLong(PutLong(id));
    LongRoundTrip(id, d);
  }

  /** An 18-byte datagram is accepted exactly when it is some id's frame. */
  lemma AcceptedIsFrame(data: seq<byte>)
    requires |data| == KeepAliveMsgLen
    ensures ParseGroupInput(data) != -1 ==> data == Frame(ParseGroupInput(data))
    ensures (exists id: int64 :: id != -1 && data == Frame(id)) ==> ParseGroupInput(data) != -1
  {
    if ParseGroupInput(data) != -1 {
      assert data == data[..LongBytes] + data[LongBytes..];
    }
    if exists id: int64 :: id != -1 && data == Frame(id) {
      var id: int64 :| id != -1 && data == Frame(id);
      FrameRoundTrip(id, []);
      assert Frame(id) + [] == data;
    }
  }

  /** Only the first 18 bytes matter. */
  lemma SuffixIgnored(data: seq<byte>, rest: seq<byte>)
    requires |data| >= KeepAliveMsgLen
    ensures ParseGroupInput(data + rest) == ParseGroupInput(data)
  {
    assert (data + rest)[..KeepAliveMsgLen] == data[..KeepAliveMsgLen];
    assert (data + rest)[LongBytes..KeepAliveMsgLen] == data[LongBytes..KeepAliveMsgLen];
    assert (data + rest)[..8] == data[..8];
  }

  /** The frame of id -1 parses to -1, the value that also means "not a
      keep-alive", so a copy whose id is -1 is never noticed. */
  lemma MinusOneIsRejection()
    ensures ParseGroupInput(Frame(-1)) == -1 == ParseGroupInput([])
  {
    FrameRoundTrip(-1, []);
    assert Frame(-1) + [] == Frame(-1);
  }

  /** `DatagramPacket.receive` into the program's buffer: the datagram,
      truncated to the buffer's size, overwrites the front of the buffer and
      the rest keeps what the previous datagrams left there. */
  function Receive(buf: seq<byte>, datagram: seq<byte>): (r: seq<byte>)
    requires |buf| == BufSize
    ensures |r| == BufSize
    ensures |datagram| <= BufSize ==> r[..|datagram|] == datagram && r[|datagram|..] == buf[|datagram|..]
  {
    var d := if |datagram| <= BufSize then datagram else datagram[..BufSize];
    d + buf[|d|..]
  }

  /** `readGroupMessages` as written: it parses `getData()`, the whole
      buffer, whatever the length of the datagram just received. */
  function ReceivedIdAsWritten(buf: seq<byte>, datagram: seq<byte>): (r: int64)
    requires |buf| == BufSize
    ensures r != -1 ==> Receive(buf, datagram)[LongBytes..KeepAliveMsgLen] == KeepAliveString
  {
    ParseGroupInput(Receive(buf, datagram))
  }

  /** The receive path with the datagram's length respected: only the bytes
      received are parsed. */
  function ReceivedId(buf: seq<byte>, datagram: seq<byte>): (r: int64)
    requires |buf| == BufSize
    ensures |datagram| < KeepAliveMsgLen ==> r == -1
    ensures |datagram| <= BufSize ==> r == ParseGroupInput(datagram)
  {
    var n := if |datagram| <= BufSize then |datagram| else BufSize;
    ParseGroupInput(Receive(buf, datagram)[..n])
  }

  /** A well-formed keep-alive is read the same way by both receive
      paths. */
  lemma ReceivePathsAgreeOnFrames(buf: seq<byte>, id: int64)
    requires |buf| == BufSize
    ensures ReceivedIdAsWritten(buf, Frame(id)) == ReceivedId(buf, Frame(id)) == id
  {
    var r := Receive(buf, Frame(id));
    assert r == Frame(id) + buf[KeepAliveMsgLen..];
    FrameRoundTrip(id, buf[KeepAliveMsgLen..]);
    FrameRoundTrip(id, []);
    assert r[..KeepAliveMsgLen] == Frame(id) + [];
  }

  /** After one keep-alive has been received, a datagram of at most eight
      bytes is, as written, taken for a keep-alive: its bytes replace the
      front of the old id and the old "keep_alive" is still in the buffer. */
  lemma StaleBufferAccepted(buf: seq<byte>, datagram: seq<byte>)
    requires |buf| == BufSize && |datagram| <= LongBytes
    requires buf[LongBytes..KeepAliveMsgLen] == KeepAliveString
    ensures ReceivedId(buf, datagram) == -1
    ensures ReceivedIdAsWritten(buf, datagram) == GetLong(datagram + buf[|datagram|..])
  {
    var r := Receive(buf, datagram);
    assert r == datagram + buf[|datagram|..];
    assert r[LongBytes..KeepAliveMsgLen] == buf[LongBytes..KeepAliveMsgLen];
  }

  /** The smallest instance: a one-byte datagram 0x00 after the keep-alive
      of id 7 is read, as written, as another keep-alive of id 7. */
  lemma StaleBufferExample(rest: seq<byte>)
    requires |rest| == BufSize - KeepAliveMsgLen
    ensures ReceivedIdAsWritten(Frame(7) + rest, [0]) == 7
    ensures ReceivedId(Frame(7) + rest, [0]) == -1
  {
    var buf := Frame(7) + rest;
    StaleBufferAccepted(buf, [0]);
    var r := Receive(buf, [0]);
    assert r == buf;
    FrameRoundTrip(7, rest);
  }

  /** `InstanceInfo`: the sender's address, which may be null, and its id. */
  datatype InstanceInfo = InstanceInfo(address: Option<InetAddress>, id: int64)

  /** `InstanceInfo.equals`: the addresses must both be null or be equal,
      and the ids must be equal. `InetAddress.equals` compares the address
      family and bytes, which is value equality of the model's addresses. */
  predicate InstanceEquals(a: InstanceInfo, b: InstanceInfo) {
    if (if a.address.Some? then !(b.address.Some? && a.address.value == b.address.value)
        else b.address.Some?) then false
    else if a.id != b.id then false
    else true
  }

  /** Two instances are equal exactly when both their addresses and their
      ids are, so equality is reflexive, symmetric and transitive. */
  lemma InstanceEqualsIsEquality(a: InstanceInfo, b: InstanceInfo)
    ensures InstanceEquals(a, b) <==> a.address == b.address && a.id == b.id
    ensures InstanceEquals(a, b) <==> a == b
    ensures InstanceEquals(a, b) == InstanceEquals(b, a)
  {
  }
}
