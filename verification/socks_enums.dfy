/** The byte tables of the SOCKS5 protocol (RFC 1928): authentication
    methods (section 3), request commands (section 4), address types
    (section 5) and reply codes (section 6). Each `...ByValue` models the
    enum's `getByValue`: a lookup in a map built from the constants, giving
    `None` (Java `null`) for every byte that is not a constant's value. */
module SocksEnums {
  import opened Wrappers
  import opened Wire

  datatype AuthMethod = NoAuthentication | Gssapi | UsernamePassword | NoAcceptableMethod {
    function Value(): byte {
      match this
      case NoAuthentication => 0x00
      case Gssapi => 0x01
      case UsernamePassword => 0x02
      case NoAcceptableMethod => 0xFF
    }
  }

  function AuthMethodByValue(b: byte): (r: Option<AuthMethod>)
    ensures forall m: AuthMethod :: r == Some(m) <==> m.Value() == b
  {
    if b == 0x00 then Some(NoAuthentication)
    else if b == 0x01 then Some(Gssapi)
    else if b == 0x02 then Some(UsernamePassword)
    else if b == 0xFF then Some(NoAcceptableMethod)
    else None
  }

  datatype AddressType = Ipv4Address | DomainName | Ipv6Address {
    function Value(): byte {
      match this
      case Ipv4Address => 0x01
      case DomainName => 0x03
      case Ipv6Address => 0x04
    }
  }

  function AddressTypeByValue(b: byte): (r: Option<AddressType>)
    ensures forall t: AddressType :: r == Some(t) <==> t.Value() == b
  {
    if b == 0x01 then Some(Ipv4Address)
    else if b == 0x03 then Some(DomainName)
    else if b == 0x04 then Some(Ipv6Address)
    else None
  }

  datatype ConnReqCommand = EstablishStreamConnection | EstablishPortBinding | AssociateUdpPort {
    function Value(): byte {
      match this
      case EstablishStreamConnection => 0x01
      case EstablishPortBinding => 0x02
      case AssociateUdpPort => 0x03
    }
  }

  function ConnReqCommandByValue(b: byte): (r: Option<ConnReqCommand>)
    ensures forall c: ConnReqCommand :: r == Some(c) <==> c.Value() == b
  {
    if b == 0x01 then Some(EstablishStreamConnection)
    else if b == 0x02 then Some(EstablishPortBinding)
    else if b == 0x03 then Some(AssociateUdpPort)
    else None
  }

  /** Reply codes of a connection response; this enum has no `getByValue`. */
  datatype ConnRespCode = RequestGranted | HostUnreachable | CmdNotSupported | AddrTypeNotSupported {
    function Value(): byte {
      match this
      case RequestGranted => 0x00
      case HostUnreachable => 0x04
      case CmdNotSupported => 0x07
      case AddrTypeNotSupported => 0x08
    }
  }

  /** Every constant is found again from its own byte: the lookup tables are
      left inverses of `Value`. */
  lemma ByValueRoundTrip()
    ensures forall m: AuthMethod :: AuthMethodByValue(m.Value()) == Some(m)
    ensures forall t: AddressType :: AddressTypeByValue(t.Value()) == Some(t)
    ensures forall c: ConnReqCommand :: ConnReqCommandByValue(c.Value()) == Some(c)
  {
  }

  /** The byte values of each enum are pairwise distinct, which building the
      lookup map with `toMap` needs (it throws on a duplicate key). Reply
      codes are included although no map is built from them. */
  lemma ValuesDistinct()
    ensures forall m1: AuthMethod, m2: AuthMethod :: m1.Value() == m2.Value() ==> m1 == m2
    ensures forall t1: AddressType, t2: AddressType :: t1.Value() == t2.Value() ==> t1 == t2
    ensures forall c1: ConnReqCommand, c2: ConnReqCommand :: c1.Value() == c2.Value() ==> c1 == c2
    ensures forall k1: ConnRespCode, k2: ConnRespCode :: k1.Value() == k2.Value() ==> k1 == k2
  {
  }

  /** The bytes the tables reject: everything but the listed constants. */
  lemma UnknownBytes(b: byte)
    ensures AuthMethodByValue(b).None? <==> b !in {0x00, 0x01, 0x02, 0xFF}
    ensures AddressTypeByValue(b).None? <==> b !in {0x01, 0x03, 0x04}
    ensures ConnReqCommandByValue(b).None? <==> (b == 0x00 || b >= 0x04)
  {
  }
}
