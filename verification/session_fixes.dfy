/** Six places where the session handlers do not do what their surrounding
    code evidently intends. For each: a lemma about the handler as written
    that exhibits the behaviour, and a corrected handler with the intended
    property proved about it. */
module SessionFixes {
  import opened Wrappers
  import opened Wire
  import opened SocksEnums
  import opened Addresses
  import opened SocksSession
  import opened SessionInvariant
  import GreetingCodec
  import RequestCodec
  import ResponseCodec

  // ---------------------------------------------------------------------
  // 1. A name the lookup yields no address for (one dnsjava cannot parse)
  //    is refused, and then connected anyway.

  /** As written: the HOST_UNREACHABLE reply is queued and the client marked
      for closing, but the handler falls through, stops writing the client
      and connects to the wildcard address; the reply is only sent if that
      connect completes, followed by a second reply. */
  lemma UnresolvedNameStillConnects(cfg: Config, s: Session)
    requires s.phase == RecvConnReq && Inv(s) && cfg.localHost.Ipv4?
    requires var d := RequestCodec.Decode(s.clientToDest);
      && d.Parsed? && d.msg.version == Version && d.msg.command == EstablishStreamConnection
      && d.msg.address.Domain? && d.msg.port >= 0
    ensures var d := RequestCodec.Decode(s.clientToDest);
      var r := ProcessConnectionRequest(cfg, s, None, false);
      && r.Success?
      && r.value.phase == ConnectingToDest && r.value.closeUponSending
      && r.value.client == Registered({})
      && r.value.dest == Registered({Connect})
      && r.value.destAddress == Some(SocketAddress(Wildcard, d.msg.port))
      && |r.value.destToClient| == 10 && r.value.destToClient[1] == HostUnreachable.Value()
  {
    var d := RequestCodec.Decode(s.clientToDest);
    RefuseRequestInv(cfg, s.(clientToDest := d.rest), HostUnreachable);
  }

  /** `processConnectionRequest` with both corrections: a name the lookup
      yields no address for is refused without connecting, and the port is read unsigned. */
  function ProcessConnectionRequestFixed(cfg: Config, s: Session, resolution: Option<Ip4>, connectThrows: bool)
    : (r: Result<Session, Fault>)
    ensures r.Failure? ==> r.error != IllegalArgument || !cfg.localHost.Ipv4?
  {
    match ExtractClientConnectionRequest(s.clientToDest)
    case Failure(_) => CloseClientSide(s)
    case Success(Extracted(None, _)) => Success(s)
    case Success(Extracted(Some(request), rest)) =>
      var s1 := s.(clientToDest := rest);
      if request.version != Version then CloseClientSide(s1)
      else if request.command != EstablishStreamConnection then RefuseRequest(cfg, s1, CmdNotSupported)
      else match TargetAddress(request.address, resolution)
        case None => RefuseRequest(cfg, s1, HostUnreachable)
        case Some(host) =>
          var client :- SetInterestOps(s1.client, {});
          var destAddress := SocketAddress(host, request.port % 0x1_0000);
          ConnectToDestination(s1.(client := client, phase := ConnectingToDest, destAddress := Some(destAddress)),
                               connectThrows)
  }

  /** Corrected: a name the lookup yields no address for gets the
      HOST_UNREACHABLE reply and the
      client is closed after it; no destination socket is opened. */
  lemma FixedUnresolvedNameRefused(cfg: Config, s: Session, connectThrows: bool)
    requires s.phase == RecvConnReq && Inv(s)
    requires var d := RequestCodec.Decode(s.clientToDest);
      && d.Parsed? && d.msg.version == Version && d.msg.command == EstablishStreamConnection
      && d.msg.address.Domain?
    ensures var r := ProcessConnectionRequestFixed(cfg, s, None, connectThrows);
      && (r.Success? <==> cfg.localHost.Ipv4?)
      && (r.Success? ==>
            && r.value.phase == SendConnResp && r.value.closeUponSending
            && r.value.client == Registered({Write})
            && r.value.dest == Unopened && r.value.destAddress == s.destAddress
            && |r.value.destToClient| == 10 && r.value.destToClient[1] == HostUnreachable.Value()
            && Inv(r.value))
  {
    var d := RequestCodec.Decode(s.clientToDest);
    if cfg.localHost.Ipv4? {
      RefuseRequestInv(cfg, s.(clientToDest := d.rest), HostUnreachable);
    }
  }

  // ---------------------------------------------------------------------
  // 2. Every connect reply is built as IPv4.

  /** As written: once an IPv6 destination's connect completes, the reply
      constructor throws and the reactor stops. */
  lemma Ipv6DestinationFaults(s: Session)
    requires s.phase == ConnectingToDest && Inv(s)
    requires s.destAddress.value.host.Ipv6?
    ensures HandleConnect(s, true) == Failure(IllegalArgument)
  {
  }

  /** `handleConnect` with the reply's address type taken from the
      destination's family, and with the failure branch no longer asking
      the closed channel for its address. */
  function HandleConnectFixed(s: Session, connected: bool): (r: Result<Session, Fault>)
    ensures r.Failure? ==> r.error != IllegalArgument
  {
    var target :- OrFault(s.destAddress, NullReference);
    var response := ResponseCodec.ConnectionResponse(Version, if connected then RequestGranted else HostUnreachable,
                                                     TypeOf(target.host), target.host, target.port);
    if connected then
      var dest :- SetInterestOps(s.dest, {});
      var client :- SetInterestOps(s.client, {Write});
      var out :- Put(s.destToClient, ResponseCodec.ToByteArray(response));
      Success(s.(dest := dest, client := client, phase := SendConnResp, destToClient := out))
    else
      var out :- Put(s.destToClient, ResponseCodec.ToByteArray(response));
      var client :- SetInterestOps(s.client, {Write});
      Success(s.(dest := Cancelled, destToClient := out, closeUponSending := true, client := client,
                 phase := SendConnResp))
  }

  /** The reply the corrected `handleConnect` queues. */
  function FixedConnectReply(target: SocketAddress, connected: bool): (r: seq<byte>)
    ensures |r| == 10 || |r| == 22
    ensures r[1] == (if connected then RequestGranted else HostUnreachable).Value()
    ensures r[3] == TypeOf(target.host).Value()
  {
    ResponseCodec.ToByteArray(ResponseCodec.ConnectionResponse(
      Version, if connected then RequestGranted else HostUnreachable, TypeOf(target.host), target.host, target.port))
  }

  /** Corrected: with room for the reply, a finished connect to either family
      is answered with the destination's own address type. */
  lemma FixedConnectAnswers(s: Session, connected: bool)
    requires s.phase == ConnectingToDest && Inv(s)
    requires |s.destToClient| + 22 <= BufSize
    ensures var r := HandleConnectFixed(s, connected);
      && r.Success? && r.value.phase == SendConnResp
      && r.value.destToClient == s.destToClient + FixedConnectReply(s.destAddress.value, connected)
      && Inv(r.value)
  {
  }

  /** The corrected reply to a literal destination re-parses, under the
      request layout, to the destination's address and (below 32768) port. */
  lemma FixedConnectReplyReparses(target: SocketAddress, connected: bool, command: ConnReqCommand)
    requires target.host.Ipv6? ==> !IsIpv4Mapped(target.host.v6)
    requires 0 <= target.port < 0x8000
    ensures var reply := FixedConnectReply(target, connected);
      var reparsed := RequestCodec.Decode([Version, command.Value(), 0x00] + reply[3..]);
      reparsed.Parsed? && reparsed.msg.address == target.host && reparsed.msg.port == target.port
  {
    var response := ResponseCodec.ConnectionResponse(
      Version, if connected then RequestGranted else HostUnreachable, TypeOf(target.host), target.host, target.port);
    ResponseCodec.LiteralReplyReparses(response, command);
  }

  // ---------------------------------------------------------------------
  // 2a. A failed connect asks the closed channel for its address.

  /** As written: once `finishConnect` has failed, the handler throws
      `ClosedChannelException`, which escapes the reactor loop, so no
      "host unreachable" reply is ever queued; the corrected handler, given
      room for the reply, answers instead. */
  lemma FailedConnectFaults(s: Session)
    requires s.phase == ConnectingToDest && Inv(s)
    ensures HandleConnect(s, false) == Failure(ClosedChannel)
    ensures |s.destToClient| + 22 <= BufSize ==> HandleConnectFixed(s, false).Success?
  {
  }

  /** Corrected: a failed connect queues "host unreachable" with the
      destination's address, exactly when the reply fits the buffer; the
      client is marked to be closed after it and written, and the
      destination is gone. An IPv4 destination gets the ten-byte reply. */
  lemma ConnectFailed(s: Session)
    requires s.phase == ConnectingToDest && Inv(s)
    ensures var reply := FixedConnectReply(s.destAddress.value, false);
      var r := HandleConnectFixed(s, false);
      && (r.Success? <==> |s.destToClient| + |reply| <= BufSize)
      && (r.Failure? ==> r.error == BufferOverflow)
      && (r.Success? ==>
            r.value == s.(dest := Cancelled, client := Registered({Write}), phase := SendConnResp,
                          closeUponSending := true, destToClient := s.destToClient + reply))
      && (s.destAddress.value.host.Ipv4? ==>
            |reply| == 10 && reply[..4] == [Version, HostUnreachable.Value(), 0x00, 0x01]
            && reply[4..8] == s.destAddress.value.host.v4)
  {
  }

  // ---------------------------------------------------------------------
  // 3. A port of 32768 or more is read as a negative number.

  /** As written: a CONNECT to a literal address on a port of 32768 or more
      makes `InetSocketAddress` throw, and the reactor stops. */
  lemma HighPortFaults(cfg: Config, s: Session, resolution: Option<Ip4>, connectThrows: bool)
    requires s.phase == RecvConnReq && Inv(s)
    requires var d := RequestCodec.Decode(s.clientToDest);
      && d.Parsed? && d.msg.version == Version && d.msg.command == EstablishStreamConnection
      && !d.msg.address.Domain?
      && s.clientToDest[|s.clientToDest| - |d.rest| - 2] >= 0x80
    ensures ProcessConnectionRequest(cfg, s, resolution, connectThrows) == Failure(IllegalArgument)
  {
  }

  /** Corrected: the destination port is the unsigned value of the two port
      bytes, so every port of a literal address is connected to. */
  lemma FixedPortIsUnsigned(cfg: Config, s: Session, resolution: Option<Ip4>, connectThrows: bool)
    requires s.phase == RecvConnReq && Inv(s)
    requires var d := RequestCodec.Decode(s.clientToDest);
      && d.Parsed? && d.msg.version == Version && d.msg.command == EstablishStreamConnection
      && !d.msg.address.Domain?
    ensures var d := RequestCodec.Decode(s.clientToDest);
      var at := |s.clientToDest| - |d.rest| - 2;
      var r := ProcessConnectionRequestFixed(cfg, s, resolution, connectThrows);
      && (r.Success? <==> !connectThrows)
      && (r.Success? ==>
            && r.value.phase == ConnectingToDest && r.value.dest == Registered({Connect})
            && r.value.destAddress == Some(SocketAddress(d.msg.address, Unsigned16(s.clientToDest[at], s.clientToDest[at + 1])))
            && Inv(r.value))
  {
  }

  // ---------------------------------------------------------------------
  // 4. A partial write after the client has gone touches the client's key.

  /** As written: after end of stream from the client while bytes wait for
      the destination, a write that takes some but not all of them
      re-enables reading on the cancelled client key, which throws. */
  lemma PartialWriteAfterClientEofFaults(cfg: Config, s: Session, n: nat, resolution: Option<Ip4>, connectThrows: bool)
    requires s.phase == Active && Inv(s) && HasInterest(s.dest, Write)
    requires 0 < n < |s.clientToDest|
    ensures var t := ReadFromClient(cfg, s, Eof, resolution, connectThrows);
      && t.Success? && HasInterest(t.value.dest, Write)
      && WriteToDest(t.value, Wrote(n)) == Failure(CancelledKey)
  {
  }

  /** The destination branch of `handleWrite`, re-enabling the client only
      while the session is not closed. */
  function WriteToDestFixed(s: Session, write: WriteResult): (r: Result<Session, Fault>)
    requires WriteFits(s.clientToDest, write)
    ensures r.Success? && s.phase == Closed ==> r.value.client == s.client
  {
    match write
    case WriteFailed => Failure(IoFailure)
    case Wrote(n) =>
      var s1 := s.(clientToDest := s.clientToDest[n..]);
      if s1.clientToDest == [] then
        var dest :- RemoveInterest(s1.dest, Write);
        var s2 := s1.(dest := dest);
        if s2.phase == Closed then CloseDestSide(s2) else ResumeReading(s2, n)
      else if s1.phase == Closed then Success(s1)
      else ResumeReading(s1, n)
  }

  /** Corrected: a surviving destination is written until its buffer is
      empty and then closed; no write to it throws. */
  lemma FixedSurvivorWrite(s: Session, n: nat)
    requires s.phase == Closed && Inv(s) && HasInterest(s.dest, Write)
    requires n <= |s.clientToDest|
    ensures var r := WriteToDestFixed(s, Wrote(n));
      && r.Success? && r.value.phase == Closed && Inv(r.value)
      && r.value.clientToDest == s.clientToDest[n..]
      && (r.value.clientToDest == [] <==> r.value.dest == Cancelled)
  {
  }

  // ---------------------------------------------------------------------
  // 5. When one side ends with nothing pending toward the other, the other
  //    side is left open and never selected again.

  /** No event of the session can be reported any more. */
  ghost predicate Idle(s: Session) {
    forall e: Event :: !Enabled(s, e)
  }

  /** As written: end of stream from the client while the destination is not
      being written leaves the destination open with an empty interest set;
      likewise for the destination and the client. */
  lemma EofStrandsSurvivor(cfg: Config, s: Session, resolution: Option<Ip4>, connectThrows: bool)
    requires s.phase == Active && Inv(s)
    ensures Write !in s.dest.interest ==>
      var t := ReadFromClient(cfg, s, Eof, resolution, connectThrows);
      t.Success? && t.value.dest == Registered({}) && Idle(t.value)
    ensures Write !in s.client.interest ==>
      var t := ReadFromDestination(s, Eof);
      t.Success? && t.value.client == Registered({}) && Idle(t.value)
  {
  }

  /** `handleReadFromClient` whose end of stream also settles the
      destination: closed at once when nothing waits for it, otherwise
      written until drained. */
  function ReadFromClientFixed(cfg: Config, s: Session, read: ReadResult, resolution: Option<Ip4>, connectThrows: bool)
    : (r: Result<Session, Fault>)
    requires ReadFits(s.clientToDest, read)
  {
    if read.Eof? && s.phase != Closed then
      var s1 :- CloseClientSide(s);
      if s1.dest.Unopened? then Success(s1)
      else if s1.clientToDest == [] then CloseDestSide(s1)
      else
        var dest :- SetInterestOps(s1.dest, {Write});
        Success(s1.(dest := dest))
    else ReadFromClient(cfg, s, read, resolution, connectThrows)
  }

  /** `handleReadFromDestination` with the same end-of-stream rule toward the
      client. */
  function ReadFromDestinationFixed(s: Session, read: ReadResult): (r: Result<Session, Fault>)
    requires ReadFits(s.destToClient, read)
  {
    if read.Eof? && s.phase != Closed then
      var s1 :- CloseDestSide(s);
      if s1.destToClient == [] then CloseClientSide(s1)
      else
        var client :- SetInterestOps(s1.client, {Write});
        Success(s1.(client := client))
    else ReadFromDestination(s, read)
  }

  /** Corrected: after end of stream from either side while relaying, the
      other side is closed at once or is being written with bytes pending,
      so it is closed once they are written. */
  lemma FixedEofSettlesSurvivor(cfg: Config, s: Session, resolution: Option<Ip4>, connectThrows: bool)
    requires s.phase == Active && Inv(s)
    ensures var t := ReadFromClientFixed(cfg, s, Eof, resolution, connectThrows);
      && t.Success? && t.value.phase == Closed && t.value.client == Cancelled
      && t.value.clientToDest == s.clientToDest
      && (t.value.dest == Cancelled || (t.value.dest == Registered({Write}) && t.value.clientToDest != []))
      && Inv(t.value)
    ensures var t := ReadFromDestinationFixed(s, Eof);
      && t.Success? && t.value.phase == Closed && t.value.dest == Cancelled
      && t.value.destToClient == s.destToClient
      && (t.value.client == Cancelled || (t.value.client == Registered({Write}) && t.value.destToClient != []))
      && Inv(t.value)
  {
  }
}
