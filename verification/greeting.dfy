/** The SOCKS5 method-selection message (section 3 of RFC 1928):
    VER(1) NMETHODS(1) METHODS(NMETHODS), decoded from the front of the
    client-to-destination buffer, and the two-byte method-selection reply. */
module GreetingCodec {
  import opened Wrappers
  import opened Wire
  import opened SocksEnums

  /** A decoded greeting: the version byte exactly as received (checking it
      is the caller's job) and the set of offered methods this proxy knows. */
  datatype GreetingMessage = GreetingMessage(version: byte, methods: set<AuthMethod>) {
    predicate HasAuthMethod(m: AuthMethod) {
      m in methods
    }
  }

  /** The methods named by the offered bytes; unknown method bytes are
      silently dropped. */
  function KnownMethods(offered: seq<byte>): (r: set<AuthMethod>)
    ensures forall m: AuthMethod :: m in r <==> m.Value() in offered
  {
    if offered == [] then {}
    else
      var last := offered[|offered| - 1];
      var found := match AuthMethodByValue(last)
        case Some(m) => {m}
        case None => {};
      KnownMethods(offered[..|offered| - 1]) + found
  }

  /** `GreetingMessage.fromByteBuffer`. NMETHODS is read as a signed byte and
      must be non-negative, so a count of 0x80 or more is malformed even
      though section 3 of RFC 1928 allows up to 255. */
  function Decode(buf: seq<byte>): (r: Decoded<GreetingMessage>)
    ensures r.Malformed? <==> |buf| >= 2 && buf[1] >= 0x80
    ensures r.Incomplete? <==> |buf| < 2 || (buf[1] < 0x80 && |buf| < 2 + buf[1])
    ensures r.Parsed? ==>
      && |buf| == 2 + buf[1] + |r.rest|
      && r.rest == buf[2 + buf[1]..]
      && r.msg.version == buf[0]
      && forall m: AuthMethod :: r.msg.HasAuthMethod(m) <==> m.Value() in buf[2..2 + buf[1]]
  {
    if |buf| < 2 then Incomplete
    else
      var count := Signed8(buf[1]);
      if count < 0 then Malformed
      else if |buf| < 2 + count then Incomplete
      else Parsed(GreetingMessage(buf[0], KnownMethods(buf[2..2 + count])), buf[2 + count..])
  }

  /** The greeting a client sends: the reference layout the decoder reads. */
  function Encode(version: byte, offered: seq<byte>): (r: seq<byte>)
    requires |offered| < 256
    ensures |r| == 2 + |offered|
    ensures r[0] == version && r[1] == |offered| && r[2..] == offered
  {
    [version, |offered|] + offered
  }

  /** A greeting with fewer than 128 methods decodes to its version and known
      methods, consuming exactly its own bytes and keeping what follows. */
  lemma DecodeEncode(version: byte, offered: seq<byte>, rest: seq<byte>)
    requires |offered| < 128
    ensures Decode(Encode(version, offered) + rest)
         == Parsed(GreetingMessage(version, KnownMethods(offered)), rest)
  {
    var buf := Encode(version, offered) + rest;
    assert buf[2..2 + |offered|] == offered;
    assert buf[2 + |offered|..] == rest;
  }

  /** A greeting offering 128..255 methods is rejected, whatever follows. */
  lemma DecodeEncodeLongList(version: byte, offered: seq<byte>, rest: seq<byte>)
    requires 128 <= |offered| < 256
    ensures Decode(Encode(version, offered) + rest).Malformed?
  {
  }

  /** Conversely every successful decode read an encoded greeting. */
  lemma DecodedIsEncoded(buf: seq<byte>)
    requires Decode(buf).Parsed?
    ensures var offered := buf[2..|buf| - |Decode(buf).rest|];
      && |offered| < 128
      && buf == Encode(buf[0], offered) + Decode(buf).rest
      && Decode(buf).msg == GreetingMessage(buf[0], KnownMethods(offered))
  {
    var n := buf[1];
    assert buf == [buf[0], buf[1]] + buf[2..2 + n] + buf[2 + n..];
  }

  /** Every strict prefix of a well-formed greeting is incomplete: a short
      read is never mistaken for an error or a shorter message. */
  lemma PrefixIncomplete(version: byte, offered: seq<byte>, k: nat)
    requires |offered| < 128
    requires k < |Encode(version, offered)|
    ensures Decode(Encode(version, offered)[..k]).Incomplete?
  {
  }

  /** Bytes arriving later never change a decision already taken: a parsed
      greeting stays parsed with the new bytes appended to the leftover, and
      a malformed one stays malformed. */
  lemma DecodeMoreBytes(buf: seq<byte>, more: seq<byte>)
    ensures Decode(buf).Parsed? ==>
      Decode(buf + more) == Parsed(Decode(buf).msg, Decode(buf).rest + more)
    ensures Decode(buf).Malformed? ==> Decode(buf + more).Malformed?
  {
    if Decode(buf).Parsed? {
      var n := buf[1];
      assert (buf + more)[2..2 + n] == buf[2..2 + n];
      assert (buf + more)[2 + n..] == buf[2 + n..] + more;
    }
  }

  /** `GreetingResponse.toByteArray`: the version byte and the chosen
      method's byte. */
  function EncodeResponse(version: byte, chosen: AuthMethod): (r: seq<byte>)
    ensures |r| == 2
    ensures r[0] == version
    ensures AuthMethodByValue(r[1]) == Some(chosen)
  {
    [version, chosen.Value()]
  }

  /** The two replies the proxy sends, byte for byte, and a reply names
      its version and method uniquely, so a client can tell them apart. */
  lemma ResponseBytes(v1: byte, v2: byte, m1: AuthMethod, m2: AuthMethod)
    ensures EncodeResponse(0x05, NoAuthentication) == [0x05, 0x00]
    ensures EncodeResponse(0x05, NoAcceptableMethod) == [0x05, 0xFF]
    ensures EncodeResponse(v1, m1) == EncodeResponse(v2, m2) <==> v1 == v2 && m1 == m2
  {
  }
}
