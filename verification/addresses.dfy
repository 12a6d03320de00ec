/** The address objects a SOCKS5 request or reply carries: Java's
    `Inet4Address`, `Inet6Address` or a domain-name `String` behind a field
    of type `Object`, and the agreement between that object and the
    address-type byte that both message constructors check. */
module Addresses {
  import opened Wire
  import opened SocksEnums

  type Ip4 = s: seq<byte> | |s| == 4 witness [0, 0, 0, 0]
  type Ip6 = s: seq<byte> | |s| == 16 witness seq(16, i => 0)

  /** Domain names are kept as the raw bytes received; the model treats the
      UTF-8 decoding into a Java `String` as the identity (ASCII names). */
  datatype Address = Ipv4(v4: Ip4) | Ipv6(v6: Ip6) | Domain(name: seq<byte>)

  /** An `InetAddress`: a literal address, never a name. */
  type InetAddress = a: Address | !a.Domain? witness Ipv4([0, 0, 0, 0])

  /** The `instanceof` check of the `ConnectionRequest` and
      `ConnectionResponse` constructors. */
  predicate Agrees(t: AddressType, a: Address) {
    match t
    case Ipv4Address => a.Ipv4?
    case DomainName => a.Domain?
    case Ipv6Address => a.Ipv6?
  }

  /** An IPv4-mapped IPv6 address, `::ffff:a.b.c.d`. */
  predicate IsIpv4Mapped(raw: Ip6) {
    (forall i :: 0 <= i < 10 ==> raw[i] == 0) && raw[10] == 0xFF && raw[11] == 0xFF
  }

  /** `InetAddress.getByAddress`: four bytes give an `Inet4Address`; sixteen
      give an `Inet6Address`, except that an IPv4-mapped address comes back
      as the `Inet4Address` of its last four bytes. */
  function AddressFromBytes(raw: seq<byte>): (a: InetAddress)
    requires |raw| == 4 || |raw| == 16
    ensures |raw| == 4 ==> a == Ipv4(raw)
    ensures |raw| == 16 ==> (a.Ipv6? <==> !IsIpv4Mapped(raw))
    ensures a.Ipv6? ==> a.v6 == raw
    ensures |raw| == 16 && a.Ipv4? ==> a.v4 == raw[12..]
  {
    if |raw| == 4 then Ipv4(raw)
    else if IsIpv4Mapped(raw) then Ipv4(raw[12..])
    else Ipv6(raw)
  }

  /** The bytes of an address as `toByteArray` writes them: the literal
      address, or the name's bytes with no length prefix. The contents are
      pinned by `ResponseCodec.LiteralReplyReparses` and
      `ResponseCodec.PrefixedReplyReparses`, which read them back. */
  function AddressBytes(a: Address): (r: seq<byte>)
    ensures a.Ipv4? ==> |r| == 4
    ensures a.Ipv6? ==> |r| == 16
    ensures a.Domain? ==> |r| == |a.name|
  {
    match a
    case Ipv4(v4) => v4
    case Ipv6(v6) => v6
    case Domain(name) => name
  }

  /** The address type whose constructor check `a` passes. */
  function TypeOf(a: Address): (t: AddressType)
    ensures Agrees(t, a)
    ensures forall t': AddressType :: Agrees(t', a) ==> t' == t
  {
    match a
    case Ipv4(_) => Ipv4Address
    case Ipv6(_) => Ipv6Address
    case Domain(_) => DomainName
  }
}
