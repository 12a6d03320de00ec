/** The SOCKS5 request (section 4 of RFC 1928):
    VER CMD RSV ATYP DST.ADDR DST.PORT, decoded by
    `ConnectionRequest.fromByteBuffer` from the front of the
    client-to-destination buffer. Addresses follow section 5: four bytes for
    IPv4, sixteen for IPv6, a length byte and that many bytes for a name. */
module RequestCodec {
  import opened Wrappers
  import opened Wire
  import opened SocksEnums
  import opened Addresses

  const Reserved: byte := 0x00

  /** A request as the constructor accepts it. `port` is a Java `int` holding
      the sign-extended `short` read from the wire. */
  datatype ConnectionRequest = ConnectionRequest(
    version: byte,
    command: ConnReqCommand,
    addressType: AddressType,
    address: Address,
    port: int)

  /** The `ConnectionRequest` constructor: it throws unless the address
      object is of the kind the address type names. */
  function NewConnectionRequest(version: byte, command: ConnReqCommand, addressType: AddressType,
                                address: Address, port: int): (r: Option<ConnectionRequest>)
    ensures r.Some? <==> Agrees(addressType, address)
    ensures r.Some? ==> r.value.address == address && r.value.addressType == addressType
    ensures r.Some? ==> r.value.version == version && r.value.command == command && r.value.port == port
  {
    if Agrees(addressType, address)
    then Some(ConnectionRequest(version, command, addressType, address, port))
    else None
  }

  /** `fromByteBuffer`: the fields are read in wire order, and each check
      fails as soon as its byte is available, before later bytes are needed. */
  function Decode(buf: seq<byte>): (r: Decoded<ConnectionRequest>)
    ensures |buf| >= 2 && ConnReqCommandByValue(buf[1]).None? ==> r.Malformed?
    ensures |buf| >= 3 && ConnReqCommandByValue(buf[1]).Some? && buf[2] != Reserved ==> r.Malformed?
    ensures (|buf| >= 4 && ConnReqCommandByValue(buf[1]).Some? && buf[2] == Reserved
             && AddressTypeByValue(buf[3]).None?) ==> r.Malformed?
    ensures |buf| < 4 ==> !r.Parsed?
    ensures r.Parsed? ==>
      && r.msg.version == buf[0]
      && r.msg.command.Value() == buf[1]
      && r.msg.addressType.Value() == buf[3]
      && Agrees(r.msg.addressType, r.msg.address)
      && |r.rest| <= |buf| - 8
      && r.rest == buf[|buf| - |r.rest|..]
      && r.msg.port == Signed16(buf[|buf| - |r.rest| - 2], buf[|buf| - |r.rest| - 1])
  {
    if |buf| < 2 then Incomplete
    else match ConnReqCommandByValue(buf[1])
      case None => Malformed
      case Some(command) =>
        if |buf| < 3 then Incomplete
        else if buf[2] != Reserved then Malformed
        else if |buf| < 4 then Incomplete
        else match AddressTypeByValue(buf[3])
          case None => Malformed
          case Some(addressType) => DecodeAddress(buf, command, addressType)
  }

  /** The address and port of a request whose first four bytes are read. */
  function DecodeAddress(buf: seq<byte>, command: ConnReqCommand, addressType: AddressType)
    : (r: Decoded<ConnectionRequest>)
    requires |buf| >= 4
    ensures r.Parsed? ==> 8 <= |buf| - |r.rest| && r.rest == buf[|buf| - |r.rest|..]
  {
    match addressType
    case Ipv4Address =>
      if |buf| < 8 then Incomplete
      else DecodePort(buf, 8, command, addressType, AddressFromBytes(buf[4..8]))
    case Ipv6Address =>
      if |buf| < 20 then Incomplete
      else DecodePort(buf, 20, command, addressType, AddressFromBytes(buf[4..20]))
    case DomainName =>
      if |buf| < 5 then Incomplete
      else
        var length := Signed8(buf[4]);
        if length <= 0 then Malformed
        else if |buf| < 5 + length then Incomplete
        else DecodePort(buf, 5 + length, command, addressType, Domain(buf[5..5 + length]))
  }

  /** The port at offset `at`, then the constructor's agreement check. */
  function DecodePort(buf: seq<byte>, at: nat, command: ConnReqCommand, addressType: AddressType,
                      address: Address): (r: Decoded<ConnectionRequest>)
    requires 4 <= at <= |buf|
    ensures r.Parsed? ==> at + 2 <= |buf| && r.rest == buf[at + 2..] && r.msg.port == Signed16(buf[at], buf[at + 1])
    ensures r.Parsed? ==> r.msg == ConnectionRequest(buf[0], command, addressType, address, r.msg.port)
  {
    if |buf| < at + 2 then Incomplete
    else match NewConnectionRequest(buf[0], command, addressType, address, Signed16(buf[at], buf[at + 1]))
      case None => Malformed
      case Some(request) => Parsed(request, buf[at + 2..])
  }

  /** The requests that can appear on the wire: the address agrees with its
      type, a name has 1..127 bytes (its length byte is signed), an IPv6
      literal is not IPv4-mapped, and the port fits a Java `short`. */
  predicate OnWire(req: ConnectionRequest) {
    && Agrees(req.addressType, req.address)
    && (req.address.Domain? ==> 1 <= |req.address.name| <= 127)
    && (req.address.Ipv6? ==> !IsIpv4Mapped(req.address.v6))
    && -0x8000 <= req.port < 0x8000
  }

  /** The DST.ADDR field of section 5 of RFC 1928: a literal address, or a
      name after its length byte. */
  function AddressField(a: Address): (r: seq<byte>)
    requires a.Domain? ==> |a.name| < 256
    ensures |r| >= 1
  {
    match a
    case Domain(name) => [|name|] + name
    case _ => AddressBytes(a)
  }

  /** The request a client sends: the reference layout the decoder reads. */
  function Encode(req: ConnectionRequest): (r: seq<byte>)
    requires req.address.Domain? ==> |req.address.name| < 256
    ensures |r| >= 6 && r[..4] == [req.version, req.command.Value(), Reserved, req.addressType.Value()]
  {
    [req.version, req.command.Value(), Reserved, req.addressType.Value()] + AddressField(req.address) + ShortBytes(req.port)
  }

  /** Round trip: a request that can be on the wire decodes from its
      encoding, consuming exactly its bytes and keeping what follows. */
  lemma DecodeEncode(req: ConnectionRequest, rest: seq<byte>)
    requires OnWire(req)
    ensures Decode(Encode(req) + rest) == Parsed(req, rest)
  {
    var buf := Encode(req) + rest;
    EncodedPortDecodes(req, rest);
    assert ConnReqCommandByValue(buf[1]) == Some(req.command);
    assert AddressTypeByValue(buf[3]) == Some(req.addressType);
    assert Decode(buf) == DecodeAddress(buf, req.command, req.addressType);
    EncodedAddressDecodes(req, rest);
  }

  /** In an encoded request the address field reads back as the address. */
  lemma EncodedAddressDecodes(req: ConnectionRequest, rest: seq<byte>)
    requires OnWire(req)
    ensures var buf := Encode(req) + rest;
      DecodeAddress(buf, req.command, req.addressType)
      == DecodePort(buf, 4 + |AddressField(req.address)|, req.command, req.addressType, req.address)
  {
    var buf := Encode(req) + rest;
    EncodedPortDecodes(req, rest);
    match req.address
    case Ipv4(v4) =>
      assert buf[4..8] == v4;
    case Ipv6(v6) =>
      assert buf[4..20] == v6;
    case Domain(name) =>
      var field := buf[4..5 + |name|];
      assert field == [|name| as byte] + name;
      assert buf[4] == field[0];
      assert buf[5..5 + |name|] == field[1..];
  }

  /** In an encoded request the port sits right after the address field and
      the leftover bytes right after the port. */
  lemma EncodedPortDecodes(req: ConnectionRequest, rest: seq<byte>)
    requires OnWire(req)
    ensures var buf := Encode(req) + rest;
      var at := 4 + |AddressField(req.address)|;
      && buf[..4] == [req.version, req.command.Value(), Reserved, req.addressType.Value()]
      && buf[4..at] == AddressField(req.address)
      && DecodePort(buf, at, req.command, req.addressType, req.address) == Parsed(req, rest)
  {
    var head := [req.version, req.command.Value(), Reserved, req.addressType.Value()];
    var port := ShortBytes(req.port);
    var buf := Encode(req) + rest;
    var at := 4 + |AddressField(req.address)|;
    SplitFour(head, AddressField(req.address), port, rest);
    ShortBytesSigned(req.port);
    assert Signed16(buf[at], buf[at + 1]) == req.port;
    assert NewConnectionRequest(buf[0], req.command, req.addressType, req.address, req.port) == Some(req);
  }

  /** A request parsed once its address field is read is the encoding of
      what it parsed to, followed by the leftover bytes. */
  lemma PortIsEncoded(buf: seq<byte>, at: nat, command: ConnReqCommand, addressType: AddressType, address: Address)
    requires 4 <= at <= |buf| && (address.Domain? ==> |address.name| < 256)
    requires buf[..4] == [buf[0], command.Value(), Reserved, addressType.Value()]
    requires buf[4..at] == AddressField(address)
    requires DecodePort(buf, at, command, addressType, address).Parsed?
    ensures var d := DecodePort(buf, at, command, addressType, address);
      buf == Encode(d.msg) + d.rest
  {
    var d := DecodePort(buf, at, command, addressType, address);
    ShortBytesOfSigned16(buf[at], buf[at + 1]);
    JoinFour(buf, 4, at);
    assert buf[at..at + 2] == ShortBytes(d.msg.port);
  }

  /** Conversely, whatever decodes is on the wire and is exactly the
      encoding of the decoded request followed by the leftover bytes. */
  lemma DecodedIsEncoded(buf: seq<byte>)
    requires Decode(buf).Parsed?
    ensures OnWire(Decode(buf).msg)
    ensures buf == Encode(Decode(buf).msg) + Decode(buf).rest
  {
    var command := ConnReqCommandByValue(buf[1]).value;
    var addressType := AddressTypeByValue(buf[3]).value;
    assert Decode(buf) == DecodeAddress(buf, command, addressType);
    assert buf[..4] == [buf[0], command.Value(), Reserved, addressType.Value()];
    if addressType == DomainName {
      DomainIsEncoded(buf, command);
    } else {
      LiteralIsEncoded(buf, command, addressType);
    }
  }

  /** The literal-address case of `DecodedIsEncoded`. */
  lemma LiteralIsEncoded(buf: seq<byte>, command: ConnReqCommand, addressType: AddressType)
    requires |buf| >= 4 && buf[..4] == [buf[0], command.Value(), Reserved, addressType.Value()]
    requires addressType != DomainName && DecodeAddress(buf, command, addressType).Parsed?
    ensures var d := DecodeAddress(buf, command, addressType);
      OnWire(d.msg) && buf == Encode(d.msg) + d.rest
  {
    var at := if addressType == Ipv4Address then 8 else 20;
    PortIsEncoded(buf, at, command, addressType, AddressFromBytes(buf[4..at]));
  }

  /** The name case of `DecodedIsEncoded`. */
  lemma DomainIsEncoded(buf: seq<byte>, command: ConnReqCommand)
    requires |buf| >= 4 && buf[..4] == [buf[0], command.Value(), Reserved, DomainName.Value()]
    requires DecodeAddress(buf, command, DomainName).Parsed?
    ensures var d := DecodeAddress(buf, command, DomainName);
      OnWire(d.msg) && buf == Encode(d.msg) + d.rest
  {
    var n := buf[4];
    assert buf[4..5 + n] == [n] + buf[5..5 + n];
    PortIsEncoded(buf, 5 + n, command, DomainName, Domain(buf[5..5 + n]));
  }

  /** A domain name whose length byte reads as zero or negative is rejected
      once the length byte has arrived. */
  lemma BadDomainLength(version: byte, command: ConnReqCommand, rest: seq<byte>)
    requires |rest| >= 1 && (rest[0] == 0 || rest[0] >= 0x80)
    ensures Decode([version, command.Value(), Reserved, DomainName.Value()] + rest).Malformed?
  {
    var buf := [version, command.Value(), Reserved, DomainName.Value()] + rest;
    assert buf[4] == rest[0];
  }

  /** Ports 32768..65535 decode to negative Java ints. */
  lemma HighPortDecodesNegative(req: ConnectionRequest, port: int, rest: seq<byte>)
    requires OnWire(req) && 0x8000 <= port < 0x1_0000
    ensures Decode(Encode(req.(port := port)) + rest) == Parsed(req.(port := port - 0x1_0000), rest)
  {
    ShortBytesSigned(port);
    assert ShortBytes(port) == ShortBytes(port - 0x1_0000);
    assert Encode(req.(port := port)) == Encode(req.(port := port - 0x1_0000));
    DecodeEncode(req.(port := port - 0x1_0000), rest);
  }

  /** An IPv4-mapped IPv6 literal is read as an `Inet4Address`, which the
      constructor refuses for the IPv6 address type. */
  lemma MappedIpv6Malformed(version: byte, command: ConnReqCommand, raw: Ip6, tail: seq<byte>)
    requires IsIpv4Mapped(raw) && |tail| >= 2
    ensures Decode([version, command.Value(), Reserved, Ipv6Address.Value()] + raw + tail).Malformed?
  {
    var buf := [version, command.Value(), Reserved, Ipv6Address.Value()] + raw + tail;
    assert buf[4..20] == raw;
  }

  /** Every strict prefix of an encoded request is incomplete. */
  lemma PrefixIncomplete(req: ConnectionRequest, k: nat)
    requires OnWire(req)
    requires k < |Encode(req)|
    ensures Decode(Encode(req)[..k]).Incomplete?
  {
    var full := Encode(req);
    var buf := full[..k];
    if k >= 5 && req.address.Domain? {
      assert buf[4] == full[4] == |req.address.name|;
    }
    if k >= 20 && req.address.Ipv6? {
      assert buf[4..20] == full[4..20] == req.address.v6;
    }
  }
}
