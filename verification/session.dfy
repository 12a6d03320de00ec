/** One proxied connection of the SOCKS5 server: the `SocksClient` record and
    the selector handlers of `SocksProxy` as transitions on it.

    A handler either returns the next session or fails with the exception
    that escapes it; such an exception is not caught before `run()`, so it
    ends the whole reactor. Socket reads and writes are parameters (the
    bytes a read delivered, the count a write accepted), as are the DNS
    answer, whether the destination connected, and `InetAddress.getLocalHost`. */
module SocksSession {
  import opened Wrappers
  import opened Wire
  import opened SocksEnums
  import opened Addresses
  import GreetingCodec
  import RequestCodec
  import ResponseCodec

  const Version: byte := 0x05

  /** Capacity of each relay buffer. */
  const BufSize: nat := 1024

  /** The bytes held in one of the two fixed-size `ByteBuffer`s; the type
      itself says the fill never exceeds the capacity. */
  type Buffer = b: seq<byte> | |b| <= BufSize witness []

  /** `SocksClientState`. `ResolvingAddress` is declared but never entered. */
  datatype Phase = RecvInitGreeting | SendGreetingResp | RecvConnReq | ResolvingAddress
                 | ConnectingToDest | SendConnResp | Active | Closed

  /** The selection-key operations a socket channel uses. */
  datatype Op = Read | Write | Connect

  /** A side's selection key: not created yet (a `null` reference), valid
      with its interest set, or cancelled together with its closed channel. */
  datatype Channel = Unopened | Registered(interest: set<Op>) | Cancelled

  /** An `InetSocketAddress` built from a literal address. */
  datatype SocketAddress = SocketAddress(host: InetAddress, port: int)

  datatype Session = Session(
    phase: Phase,
    closeUponSending: bool,
    clientToDest: Buffer,
    destToClient: Buffer,
    client: Channel,
    dest: Channel,
    destAddress: Option<SocketAddress>)

  /** The exceptions a handler can let escape. */
  datatype Fault =
    | AssertionFailed   // an `AssertionError` for a state the handler does not expect
    | NullReference     // a `NullPointerException`
    | CancelledKey      // a `CancelledKeyException` from `interestOps`
    | ClosedChannel     // a `ClosedChannelException` from `getRemoteAddress`
    | IllegalArgument   // an `IllegalArgumentException` from a constructor
    | BufferOverflow    // a `BufferOverflowException` from `put`
    | IoFailure         // an `IOException` from a write or from `connect`

  /** The proxy's own listening port (its constructor demands 1..65535) and
      what `InetAddress.getLocalHost()` returns. */
  datatype Config = Config(proxyPort: int, localHost: InetAddress) {
    predicate Valid() {
      0 < proxyPort < 65536
    }
  }

  /** What a non-blocking `read` did: end of stream, some bytes (possibly
      none), or an `IOException`, which the handlers catch. */
  datatype ReadResult = Eof | Received(data: seq<byte>) | ReadFailed

  /** What a non-blocking `write` did: accepted a prefix of the bytes, or
      threw an `IOException`, which nothing catches. */
  datatype WriteResult = Wrote(count: nat) | WriteFailed

  /** The wildcard address `new InetSocketAddress((InetAddress) null, port)`
      stands for. */
  const Wildcard: InetAddress := Ipv4([0, 0, 0, 0])

  /** The state `new SocksClient(...)` creates, just after the accepted client
      channel was registered for reading. */
  function NewSession(): (s: Session)
    ensures s.phase == RecvInitGreeting && !s.closeUponSending
    ensures s.dest == Unopened && s.destAddress == None
    ensures s.clientToDest == [] && s.destToClient == []
    ensures s.client == Registered({Read})
  {
    Session(RecvInitGreeting, false, [], [], Registered({Read}), Unopened, None)
  }

  function OrFault<T>(o: Option<T>, f: Fault): (r: Result<T, Fault>)
    ensures r.Success? <==> o.Some?
    ensures r.Success? ==> r.value == o.value
    ensures r.Failure? ==> r.error == f
  {
    match o
    case Some(v) => Success(v)
    case None => Failure(f)
  }

  predicate HasInterest(ch: Channel, op: Op) {
    ch.Registered? && op in ch.interest
  }

  /** `key.interestOps()`: throws on a `null` or cancelled key. */
  function InterestOps(ch: Channel): (r: Result<set<Op>, Fault>)
    ensures r.Success? <==> ch.Registered?
    ensures r.Success? ==> r.value == ch.interest
    ensures ch.Cancelled? ==> r == Failure(CancelledKey)
  {
    match ch
    case Registered(ops) => Success(ops)
    case Unopened => Failure(NullReference)
    case Cancelled => Failure(CancelledKey)
  }

  /** `key.interestOps(ops)`. */
  function SetInterestOps(ch: Channel, ops: set<Op>): (r: Result<Channel, Fault>)
    ensures r.Success? <==> ch.Registered?
    ensures r.Success? ==> r.value == Registered(ops)
    ensures ch.Cancelled? ==> r == Failure(CancelledKey)
  {
    var _ :- InterestOps(ch);
    Success(Registered(ops))
  }

  /** `key.interestOps(key.interestOps() | op)`. */
  function AddInterest(ch: Channel, op: Op): (r: Result<Channel, Fault>)
    ensures r.Success? <==> ch.Registered?
    ensures r.Success? ==> r.value.Registered? && r.value.interest == ch.interest + {op}
    ensures ch.Cancelled? ==> r == Failure(CancelledKey)
  {
    var ops :- InterestOps(ch);
    Success(Registered(ops + {op}))
  }

  /** `key.interestOps(key.interestOps() & ~op)`. */
  function RemoveInterest(ch: Channel, op: Op): (r: Result<Channel, Fault>)
    ensures r.Success? <==> ch.Registered?
    ensures r.Success? ==> r.value.Registered? && r.value.interest == ch.interest - {op}
    ensures ch.Cancelled? ==> r == Failure(CancelledKey)
  {
    var ops :- InterestOps(ch);
    Success(Registered(ops - {op}))
  }

  /** `buffer.put(bytes)`: overflows unless all the bytes fit. */
  function Put(buf: Buffer, data: seq<byte>): (r: Result<Buffer, Fault>)
    ensures r.Success? <==> |buf| + |data| <= BufSize
    ensures r.Success? ==> |r.value| == |buf| + |data| && r.value[..|buf|] == buf && r.value[|buf|..] == data
    ensures r.Failure? ==> r.error == BufferOverflow
  {
    if |buf| + |data| <= BufSize then Success(buf + data) else Failure(BufferOverflow)
  }

  /** `closeClientSide`: cancels the client key, closes the channel and marks
      the whole session closed, whatever phase it was in. Asking a closed
      channel for its remote address throws first. */
  function CloseClientSide(s: Session): (r: Result<Session, Fault>)
    ensures r.Success? <==> s.client.Registered?
    ensures r.Success? ==>
      && r.value.phase == Closed && r.value.client == Cancelled
      && r.value.dest == s.dest && r.value.closeUponSending == s.closeUponSending
      && r.value.clientToDest == s.clientToDest && r.value.destToClient == s.destToClient
      && r.value.destAddress == s.destAddress
  {
    match s.client
    case Registered(_) => Success(s.(client := Cancelled, phase := Closed))
    case Unopened => Failure(NullReference)
    case Cancelled => Failure(ClosedChannel)
  }

  /** `closeDestSide`: the same for the destination; with no destination
      channel yet it dereferences `null`. */
  function CloseDestSide(s: Session): (r: Result<Session, Fault>)
    ensures r.Success? <==> s.dest.Registered?
    ensures r.Success? ==>
      && r.value.phase == Closed && r.value.dest == Cancelled
      && r.value.client == s.client && r.value.closeUponSending == s.closeUponSending
      && r.value.clientToDest == s.clientToDest && r.value.destToClient == s.destToClient
      && r.value.destAddress == s.destAddress
  {
    match s.dest
    case Registered(_) => Success(s.(dest := Cancelled, phase := Closed))
    case Unopened => Failure(NullReference)
    case Cancelled => Failure(ClosedChannel)
  }

  /** What `extractClient*` hands back: the message, or `null` when more bytes
      are needed, and the buffer left behind. */
  datatype Extracted<T> = Extracted(msg: Option<T>, buffer: Buffer)

  /** `extractClientGreeting`: an incomplete greeting leaves the buffer as it
      was; a malformed one lets the `IllegalArgumentException` through; a
      complete one is removed from the front of the buffer. */
  function ExtractClientGreeting(buf: Buffer): (r: Result<Extracted<GreetingCodec.GreetingMessage>, Fault>)
    ensures r.Failure? <==> |buf| >= 2 && buf[1] >= 0x80
    ensures r.Failure? ==> r.error == IllegalArgument
    ensures r.Success? && r.value.msg.None? ==> r.value.buffer == buf
    ensures r.Success? && r.value.msg.Some? ==>
      && |buf| >= 2 && |buf| == 2 + buf[1] + |r.value.buffer|
      && r.value.buffer == buf[2 + buf[1]..]
      && r.value.msg.value.version == buf[0]
  {
    match GreetingCodec.Decode(buf)
    case Malformed => Failure(IllegalArgument)
    case Incomplete => Success(Extracted(None, buf))
    case Parsed(greeting, rest) => Success(Extracted(Some(greeting), rest))
  }

  /** `extractClientConnectionRequest`, with the same three outcomes. */
  function ExtractClientConnectionRequest(buf: Buffer): (r: Result<Extracted<RequestCodec.ConnectionRequest>, Fault>)
    ensures r.Failure? ==> r.error == IllegalArgument
    ensures r.Success? && r.value.msg.None? ==> r.value.buffer == buf
    ensures r.Success? && r.value.msg.Some? ==>
      && |r.value.buffer| <= |buf| - 8
      && r.value.buffer == buf[|buf| - |r.value.buffer|..]
      && r.value.msg.value.version == buf[0]
      && Agrees(r.value.msg.value.addressType, r.value.msg.value.address)
  {
    match RequestCodec.Decode(buf)
    case Malformed => Failure(IllegalArgument)
    case Incomplete => Success(Extracted(None, buf))
    case Parsed(request, rest) => Success(Extracted(Some(request), rest))
  }

  /** `processGreeting`. */
  function ProcessGreeting(s: Session): (r: Result<Session, Fault>)
  {
    match ExtractClientGreeting(s.clientToDest)
    case Failure(_) => CloseClientSide(s)
    case Success(Extracted(None, _)) => Success(s)
    case Success(Extracted(Some(greeting), rest)) =>
      var s1 := s.(clientToDest := rest);
      if greeting.version != Version then CloseClientSide(s1)
      else
        var accepted := greeting.HasAuthMethod(NoAuthentication);
        var reply := GreetingCodec.EncodeResponse(Version, if accepted then NoAuthentication else NoAcceptableMethod);
        var out :- Put(s1.destToClient, reply);
        var client :- SetInterestOps(s1.client, {Write});
        Success(s1.(closeUponSending := s1.closeUponSending || !accepted, destToClient := out,
                    client := client, phase := SendGreetingResp))
  }

  /** The literal address a CONNECT goes to: the request's own address, or
      the first A record the lookup returned for a name. `resolution` is
      `None` when `resolveDomainName` returns null, which happens only when
      dnsjava cannot parse the name (a `TextParseException`, as for an empty
      label or one longer than 63 bytes); a name that parses but has no A
      record makes the lookup's null result throw instead, which is not
      modelled. */
  function TargetAddress(address: Address, resolution: Option<Ip4>): (r: Option<InetAddress>)
    ensures r.None? <==> address.Domain? && resolution.None?
    ensures !address.Domain? ==> r == Some(address)
    ensures address.Domain? && resolution.Some? ==> r == Some(Ipv4(resolution.value))
  {
    match address
    case Ipv4(v4) => Some(Ipv4(v4))
    case Ipv6(v6) => Some(Ipv6(v6))
    case Domain(_) =>
      match resolution
      case Some(ip) => Some(Ipv4(ip))
      case None => None
  }

  /** `new InetSocketAddress(host, port)` rejects a port outside 0..65535. */
  function NewSocketAddress(host: InetAddress, port: int): (r: Result<SocketAddress, Fault>)
    ensures r.Success? <==> 0 <= port < 0x1_0000
    ensures r.Success? ==> r.value.host == host && r.value.port == port
    ensures r.Failure? ==> r.error == IllegalArgument
  {
    if 0 <= port < 0x1_0000 then Success(SocketAddress(host, port)) else Failure(IllegalArgument)
  }

  /** The reply of a request the proxy turns down: `code` with the local host
      and the proxy's port as an IPv4 bound address, after which the client
      is closed. */
  function RefuseRequest(cfg: Config, s: Session, code: ConnRespCode): (r: Result<Session, Fault>)
  {
    var response :- OrFault(ResponseCodec.NewConnectionResponse(Version, code, Ipv4Address, cfg.localHost, cfg.proxyPort),
                            IllegalArgument);
    var client :- SetInterestOps(s.client, {Write});
    var out :- Put(s.destToClient, ResponseCodec.ToByteArray(response));
    Success(s.(closeUponSending := true, client := client, phase := SendConnResp, destToClient := out))
  }

  /** `connectToDestination`: a non-blocking connect, registered for CONNECT;
      `connect` itself may throw. */
  function ConnectToDestination(s: Session, connectThrows: bool): (r: Result<Session, Fault>)
  {
    if connectThrows then Failure(IoFailure) else Success(s.(dest := Registered({Connect})))
  }

  /** `processConnectionRequest`, as written: when the lookup of a name
      yields null (an unparsable name), the refusal is queued and then the code goes on to connect to the
      wildcard address anyway. */
  function ProcessConnectionRequest(cfg: Config, s: Session, resolution: Option<Ip4>, connectThrows: bool)
    : (r: Result<Session, Fault>)
  {
    match ExtractClientConnectionRequest(s.clientToDest)
    case Failure(_) => CloseClientSide(s)
    case Success(Extracted(None, _)) => Success(s)
    case Success(Extracted(Some(request), rest)) =>
      var s1 := s.(clientToDest := rest);
      if request.version != Version then CloseClientSide(s1)
      else if request.command != EstablishStreamConnection then RefuseRequest(cfg, s1, CmdNotSupported)
      else
        var target := TargetAddress(request.address, resolution);
        var s2 :- if target.None? then RefuseRequest(cfg, s1, HostUnreachable) else Success(s1);
        var client :- SetInterestOps(s2.client, {});
        var destAddress :- NewSocketAddress(target.GetOr(Wildcard), request.port);
        ConnectToDestination(s2.(client := client, phase := ConnectingToDest, destAddress := Some(destAddress)),
                             connectThrows)
  }

  /** `handleConnect`, as written: the reply is built with the IPv4 address
      type whatever the destination's family. A failed `finishConnect` closes
      the destination channel, so the `getRemoteAddress` call that opens the
      catch block throws `ClosedChannelException` from inside the handler,
      before any reply is queued. */
  function HandleConnect(s: Session, connected: bool): (r: Result<Session, Fault>)
  {
    if connected then
      var dest :- SetInterestOps(s.dest, {});
      var client :- SetInterestOps(s.client, {Write});
      var target :- OrFault(s.destAddress, NullReference);
      var response :- OrFault(ResponseCodec.NewConnectionResponse(Version, RequestGranted, Ipv4Address, target.host, target.port),
                              IllegalArgument);
      var out :- Put(s.destToClient, ResponseCodec.ToByteArray(response));
      Success(s.(dest := dest, client := client, phase := SendConnResp, destToClient := out))
    else
      Failure(ClosedChannel)
  }

  /** A read delivers at most the free space of the buffer it reads into. */
  predicate ReadFits(buf: Buffer, read: ReadResult) {
    read.Received? ==> |buf| + |read.data| <= BufSize
  }

  /** A write takes at most the bytes pending in the buffer it drains. */
  predicate WriteFits(buf: Buffer, write: WriteResult) {
    write.Wrote? ==> write.count <= |buf|
  }

  /** `handleReadFromClient`. */
  function ReadFromClient(cfg: Config, s: Session, read: ReadResult, resolution: Option<Ip4>, connectThrows: bool)
    : (r: Result<Session, Fault>)
    requires ReadFits(s.clientToDest, read)
  {
    if s.phase == Closed then CloseClientSide(s)
    else match read
      case ReadFailed => Success(s)
      case Eof =>
        var s1 :- CloseClientSide(s);
        if s1.dest.Unopened? then Success(s1)
        else
          var dest :- RemoveInterest(s1.dest, Read);
          Success(s1.(dest := dest))
      case Received(data) =>
        var s1 := s.(clientToDest := s.clientToDest + data);
        match s1.phase
        case RecvInitGreeting => ProcessGreeting(s1)
        case RecvConnReq => ProcessConnectionRequest(cfg, s1, resolution, connectThrows)
        case Active =>
          var client :- if |s1.clientToDest| == BufSize then RemoveInterest(s1.client, Read) else Success(s1.client);
          if |data| > 0 then
            var dest :- AddInterest(s1.dest, Write);
            Success(s1.(client := client, dest := dest))
          else Success(s1.(client := client))
        case _ => Failure(AssertionFailed)
  }

  /** `handleReadFromDestination`. */
  function ReadFromDestination(s: Session, read: ReadResult): (r: Result<Session, Fault>)
    requires ReadFits(s.destToClient, read)
  {
    if s.phase == Closed then CloseDestSide(s)
    else match read
      case ReadFailed => Success(s)
      case Eof =>
        var s1 :- CloseDestSide(s);
        var client :- RemoveInterest(s1.client, Read);
        Success(s1.(client := client))
      case Received(data) =>
        var s1 := s.(destToClient := s.destToClient + data);
        var dest :- if |s1.destToClient| == BufSize then RemoveInterest(s1.dest, Read) else Success(s1.dest);
        if |data| > 0 then
          var client :- AddInterest(s1.client, Write);
          Success(s1.(dest := dest, client := client))
        else Success(s1.(dest := dest))
  }

  /** The destination branch of `handleWrite`. */
  function WriteToDest(s: Session, write: WriteResult): (r: Result<Session, Fault>)
    requires WriteFits(s.clientToDest, write)
  {
    match write
    case WriteFailed => Failure(IoFailure)
    case Wrote(n) =>
      var s1 := s.(clientToDest := s.clientToDest[n..]);
      if s1.clientToDest == [] then
        var dest :- RemoveInterest(s1.dest, Write);
        var s2 := s1.(dest := dest);
        if s2.phase == Closed then CloseDestSide(s2) else ResumeReading(s2, n)
      else ResumeReading(s1, n)
  }

  /** After a write of `n` bytes toward the destination, the client may be
      read again if anything was written. */
  function ResumeReading(s: Session, n: nat): (r: Result<Session, Fault>)
  {
    if n > 0 then
      var client :- AddInterest(s.client, Read);
      Success(s.(client := client))
    else Success(s)
  }

  /** `handleWriteToClient`. */
  function WriteToClient(s: Session, write: WriteResult): (r: Result<Session, Fault>)
    requires WriteFits(s.destToClient, write)
  {
    match write
    case WriteFailed => Failure(IoFailure)
    case Wrote(n) =>
      var s1 := s.(destToClient := s.destToClient[n..]);
      var drained := s1.destToClient == [];
      match s1.phase
      case SendGreetingResp =>
        if !drained then Success(s1)
        else if s1.closeUponSending then CloseClientSide(s1)
        else
          var client :- SetInterestOps(s1.client, {Read});
          Success(s1.(phase := RecvConnReq, client := client))
      case SendConnResp =>
        if !drained then Success(s1)
        else if s1.closeUponSending then CloseClientSide(s1)
        else
          var client :- SetInterestOps(s1.client, {Read});
          var dest :- SetInterestOps(s1.dest, {Read});
          Success(s1.(phase := Active, client := client, dest := dest))
      case Active =>
        var client :- if drained then RemoveInterest(s1.client, Write) else Success(s1.client);
        if n > 0 then
          var dest :- AddInterest(s1.dest, Read);
          Success(s1.(client := client, dest := dest))
        else Success(s1.(client := client))
      case Closed =>
        if drained then CloseClientSide(s1) else Success(s1)
      case _ => Failure(AssertionFailed)
  }

  /** What the selector reports for one session, with what the operating
      system and the resolver answer. */
  datatype Event =
    | ClientReadable(read: ReadResult, resolution: Option<Ip4>, connectThrows: bool)
    | DestConnectable(connected: bool)
    | DestReadable(read: ReadResult)
    | ClientWritable(write: WriteResult)
    | DestWritable(write: WriteResult)

  /** The selector reports an operation only on a valid key whose interest
      set holds it. */
  predicate Enabled(s: Session, e: Event) {
    match e
    case ClientReadable(_, _, _) => HasInterest(s.client, Read)
    case DestConnectable(_) => HasInterest(s.dest, Connect)
    case DestReadable(_) => HasInterest(s.dest, Read)
    case ClientWritable(_) => HasInterest(s.client, Write)
    case DestWritable(_) => HasInterest(s.dest, Write)
  }

  /** The event's read or write agrees with the buffer it uses. */
  predicate Fits(s: Session, e: Event) {
    match e
    case ClientReadable(read, _, _) => ReadFits(s.clientToDest, read)
    case DestReadable(read) => ReadFits(s.destToClient, read)
    case ClientWritable(write) => WriteFits(s.destToClient, write)
    case DestWritable(write) => WriteFits(s.clientToDest, write)
    case DestConnectable(_) => true
  }

  /** The handler `run()` dispatches the event to. */
  function Step(cfg: Config, s: Session, e: Event): (r: Result<Session, Fault>)
    requires Fits(s, e)
  {
    match e
    case ClientReadable(read, resolution, connectThrows) => ReadFromClient(cfg, s, read, resolution, connectThrows)
    case DestConnectable(connected) => HandleConnect(s, connected)
    case DestReadable(read) => ReadFromDestination(s, read)
    case ClientWritable(write) => WriteToClient(s, write)
    case DestWritable(write) => WriteToDest(s, write)
  }
}
