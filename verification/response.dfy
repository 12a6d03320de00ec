/** The SOCKS5 reply (section 6 of RFC 1928):
    VER REP RSV ATYP BND.ADDR BND.PORT, as `ConnectionResponse` builds it. */
module ResponseCodec {
  import opened Wrappers
  import opened Wire
  import opened SocksEnums
  import opened Addresses
  import RequestCodec

  const Reserved: byte := 0x00

  datatype ConnectionResponse = ConnectionResponse(
    version: byte,
    code: ConnRespCode,
    addressType: AddressType,
    address: Address,
    port: int)

  /** The `ConnectionResponse` constructor: it throws an
      IllegalArgumentException unless the address object is of the kind the
      address type names. */
  function NewConnectionResponse(version: byte, code: ConnRespCode, addressType: AddressType,
                                 address: Address, port: int): (r: Option<ConnectionResponse>)
    ensures r.Some? <==> Agrees(addressType, address)
    ensures r.Some? ==> r.value == ConnectionResponse(version, code, addressType, address, port)
  {
    if Agrees(addressType, address)
    then Some(ConnectionResponse(version, code, addressType, address, port))
    else None
  }

  /** The size `toByteArray` allocates: room for a length-prefixed name,
      although the name is then written without its prefix. */
  function AllocatedSize(resp: ConnectionResponse): nat
    requires Agrees(resp.addressType, resp.address)
  {
    match resp.addressType
    case Ipv4Address => 10
    case Ipv6Address => 22
    case DomainName => 7 + |resp.address.name|
  }

  /** `toByteArray`: header, address bytes, the port's low 16 bits, in a
      zero-filled array of `AllocatedSize` bytes. */
  function ToByteArray(resp: ConnectionResponse): (r: seq<byte>)
    requires Agrees(resp.addressType, resp.address)
    ensures resp.address.Ipv4? ==> |r| == 10
    ensures resp.address.Ipv6? ==> |r| == 22
    ensures resp.address.Domain? ==> |r| == 7 + |resp.address.name|
    ensures r[..4] == [resp.version, resp.code.Value(), Reserved, resp.addressType.Value()]
    ensures var k := |AddressBytes(resp.address)|;
      && r[4..4 + k] == AddressBytes(resp.address)
      && Unsigned16(r[4 + k], r[5 + k]) == resp.port % 0x1_0000
    ensures resp.address.Domain? ==> r[|r| - 1] == 0
  {
    var head := [resp.version, resp.code.Value(), Reserved, resp.addressType.Value()];
    var address := AddressBytes(resp.address);
    var port := ShortBytes(resp.port);
    var padding := seq(AllocatedSize(resp) - (6 + |address|), i => 0);
    SplitFour(head, address, port, padding);
    head + address + port + padding
  }

  /** For a literal address, the reply's address and port are laid out as in a
      request: prefixing the request's VER CMD RSV to the reply's ATYP onward
      re-parses to the same address, and to the same port when it is below
      32768 (above that the port comes back sign-extended). */
  lemma LiteralReplyReparses(resp: ConnectionResponse, command: ConnReqCommand)
    requires Agrees(resp.addressType, resp.address)
    requires !resp.address.Domain?
    requires resp.address.Ipv6? ==> !IsIpv4Mapped(resp.address.v6)
    requires 0 <= resp.port < 0x1_0000
    ensures var reparsed := RequestCodec.Decode([resp.version, command.Value(), Reserved] + ToByteArray(resp)[3..]);
      && reparsed.Parsed?
      && reparsed.rest == []
      && reparsed.msg.addressType == resp.addressType
      && reparsed.msg.address == resp.address
      && (resp.port < 0x8000 ==> reparsed.msg.port == resp.port)
      && (resp.port >= 0x8000 ==> reparsed.msg.port == resp.port - 0x1_0000)
  {
    var bytes := ToByteArray(resp);
    var signedPort := if resp.port < 0x8000 then resp.port else resp.port - 0x1_0000;
    var req := RequestCodec.ConnectionRequest(resp.version, command, resp.addressType, resp.address, signedPort);
    ShortBytesSigned(resp.port);
    assert ShortBytes(resp.port) == ShortBytes(signedPort);
    assert [resp.version, command.Value(), Reserved] + bytes[3..] == RequestCodec.Encode(req) + [];
    RequestCodec.DecodeEncode(req, []);
  }

  /** A name reply is not in the layout of section 5 of RFC 1928: the byte
      after ATYP is the name's first byte, not its length, so the reply does
      not re-parse. For the name "ab" the length read is 0x61 and the decoder
      waits for 97 bytes that never come. */
  lemma DomainReplyLacksLengthPrefix()
    ensures var resp := ConnectionResponse(0x05, RequestGranted, DomainName, Domain([0x61, 0x62]), 80);
      && ToByteArray(resp) == [0x05, 0x00, 0x00, 0x03, 0x61, 0x62, 0x00, 0x50, 0x00]
      && RequestCodec.Decode([0x05, 0x01, 0x00] + ToByteArray(resp)[3..]).Incomplete?
  {
    var resp := ConnectionResponse(0x05, RequestGranted, DomainName, Domain([0x61, 0x62]), 80);
    var bytes := ToByteArray(resp);
    assert bytes == [0x05, 0x00, 0x00, 0x03, 0x61, 0x62, 0x00, 0x50, 0x00];
    var reparsed := [0x05, 0x01, 0x00] + bytes[3..];
    assert reparsed == [0x05, 0x01, 0x00, 0x03, 0x61, 0x62, 0x00, 0x50, 0x00];
    assert RequestCodec.Decode(reparsed) == RequestCodec.DecodeAddress(reparsed, EstablishStreamConnection, DomainName);
  }

  /** The reply section 5 of RFC 1928 describes, which the allocated size
      evidently has room for: the name's length byte precedes the name. */
  function ToByteArrayPrefixed(resp: ConnectionResponse): (r: seq<byte>)
    requires Agrees(resp.addressType, resp.address)
    requires resp.address.Domain? ==> |resp.address.name| < 256
    ensures |r| == AllocatedSize(resp)
    ensures r[..4] == [resp.version, resp.code.Value(), Reserved, resp.addressType.Value()]
  {
    [resp.version, resp.code.Value(), Reserved, resp.addressType.Value()]
      + RequestCodec.AddressField(resp.address) + ShortBytes(resp.port)
  }

  /** With the prefix, a name reply re-parses to the same name and port, and
      the literal replies are unchanged. */
  lemma PrefixedReplyReparses(resp: ConnectionResponse, command: ConnReqCommand)
    requires Agrees(resp.addressType, resp.address)
    requires resp.address.Domain? ==> 1 <= |resp.address.name| <= 127
    requires resp.address.Ipv6? ==> !IsIpv4Mapped(resp.address.v6)
    requires 0 <= resp.port < 0x8000
    ensures RequestCodec.Decode([resp.version, command.Value(), Reserved] + ToByteArrayPrefixed(resp)[3..])
         == Wire.Parsed(RequestCodec.ConnectionRequest(resp.version, command, resp.addressType, resp.address, resp.port), [])
    ensures !resp.address.Domain? ==> ToByteArrayPrefixed(resp) == ToByteArray(resp)
  {
    var req := RequestCodec.ConnectionRequest(resp.version, command, resp.addressType, resp.address, resp.port);
    assert [resp.version, command.Value(), Reserved] + ToByteArrayPrefixed(resp)[3..] == RequestCodec.Encode(req) + [];
    RequestCodec.DecodeEncode(req, []);
  }
}
