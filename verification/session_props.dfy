/** What the session handlers promise, one handler and one situation at a
    time: the greeting and request replies, replies flushed before a phase
    advances, relay backpressure, and the end of a relay when one side
    closes. Each lemma starts from a session satisfying the invariant. */
module SessionProperties {
  import opened Wrappers
  import opened Wire
  import opened SocksEnums
  import opened Addresses
  import opened SocksSession
  import opened SessionInvariant
  import GreetingCodec
  import RequestCodec
  import ResponseCodec

  /** A malformed greeting, or one of another protocol version, closes the
      client and queues no reply. */
  lemma GreetingRejected(s: Session)
    requires s.phase == RecvInitGreeting && Inv(s)
    requires var d := GreetingCodec.Decode(s.clientToDest);
      d.Malformed? || (d.Parsed? && d.msg.version != Version)
    ensures var r := ProcessGreeting(s);
      && r.Success?
      && r.value.phase == Closed && r.value.client == Cancelled
      && r.value.destToClient == [] && r.value.dest == Unopened
  {
  }

  /** A version-5 greeting is answered with "no authentication" when it offers
      method 0x00 and with "no acceptable method" otherwise, in which case the
      client is to be closed once the reply is sent. Either way only the
      client is written next. */
  lemma GreetingAnswered(s: Session)
    requires s.phase == RecvInitGreeting && Inv(s)
    requires var d := GreetingCodec.Decode(s.clientToDest); d.Parsed? && d.msg.version == Version
    ensures var r := ProcessGreeting(s);
      var n := s.clientToDest[1];
      && r.Success?
      && r.value.phase == SendGreetingResp
      && r.value.client == Registered({Write})
      && r.value.clientToDest == s.clientToDest[2 + n..]
      && (0x00 in s.clientToDest[2..2 + n] ==> r.value.destToClient == [0x05, 0x00] && !r.value.closeUponSending)
      && (0x00 !in s.clientToDest[2..2 + n] ==> r.value.destToClient == [0x05, 0xFF] && r.value.closeUponSending)
  {
    var d := GreetingCodec.Decode(s.clientToDest);
    assert d.msg.HasAuthMethod(NoAuthentication) <==> 0x00 in s.clientToDest[2..2 + s.clientToDest[1]];
  }

  /** In a reply phase nothing advances until the reply is fully written:
      a partial write only consumes bytes; once drained, the client is
      closed if so marked, otherwise the next phase reads (from both sides
      after the connection reply). */
  lemma RepliesFlushedBeforeAdvance(s: Session, n: nat)
    requires Inv(s) && (s.phase == SendGreetingResp || s.phase == SendConnResp)
    requires n <= |s.destToClient|
    ensures var r := WriteToClient(s, Wrote(n));
      var rest := s.destToClient[n..];
      && r.Success?
      && (rest != [] ==> r.value == s.(destToClient := rest))
      && (rest == [] && s.closeUponSending ==> r.value.phase == Closed && r.value.client == Cancelled)
      && (rest == [] && !s.closeUponSending && s.phase == SendGreetingResp ==>
            r.value == s.(destToClient := [], phase := RecvConnReq, client := Registered({Read})))
      && (rest == [] && !s.closeUponSending && s.phase == SendConnResp ==>
            r.value == s.(destToClient := [], phase := Active, client := Registered({Read}), dest := Registered({Read})))
  {
  }

  /** A BIND or UDP ASSOCIATE request is answered with code 0x07 and the
      client is to be closed; no destination socket is opened. Building the
      reply throws when the local host is not an IPv4 address. */
  lemma UnsupportedCommandRefused(cfg: Config, s: Session, resolution: Option<Ip4>, connectThrows: bool)
    requires s.phase == RecvConnReq && Inv(s)
    requires var d := RequestCodec.Decode(s.clientToDest);
      d.Parsed? && d.msg.version == Version && d.msg.command != EstablishStreamConnection
    ensures var r := ProcessConnectionRequest(cfg, s, resolution, connectThrows);
      && (r.Success? <==> cfg.localHost.Ipv4?)
      && (r.Success? ==>
            && r.value.dest == Unopened && r.value.destAddress == s.destAddress
            && r.value.phase == SendConnResp && r.value.closeUponSending
            && r.value.client == Registered({Write})
            && |r.value.destToClient| == 10
            && r.value.destToClient[..4] == [0x05, 0x07, 0x00, 0x01])
  {
    var d := RequestCodec.Decode(s.clientToDest);
    if cfg.localHost.Ipv4? {
      RefuseRequestInv(cfg, s.(clientToDest := d.rest), CmdNotSupported);
    }
  }

  /** A CONNECT to a literal or resolved address records the destination,
      stops reading the client, and opens the destination socket registered
      for CONNECT; only `connect` throwing prevents it. */
  lemma ConnectRequestStartsConnect(cfg: Config, s: Session, resolution: Option<Ip4>, connectThrows: bool)
    requires s.phase == RecvConnReq && Inv(s)
    requires var d := RequestCodec.Decode(s.clientToDest);
      && d.Parsed? && d.msg.version == Version && d.msg.command == EstablishStreamConnection
      && TargetAddress(d.msg.address, resolution).Some? && d.msg.port >= 0
    ensures var d := RequestCodec.Decode(s.clientToDest);
      var r := ProcessConnectionRequest(cfg, s, resolution, connectThrows);
      && (r.Success? <==> !connectThrows)
      && (r.Success? ==>
            r.value == s.(clientToDest := d.rest, client := Registered({}), phase := ConnectingToDest,
                          dest := Registered({Connect}),
                          destAddress := Some(SocketAddress(TargetAddress(d.msg.address, resolution).value, d.msg.port))))
  {
  }

  /** The reply `handleConnect` queues for an IPv4 destination. */
  function ConnectReply(code: ConnRespCode, target: SocketAddress): (r: seq<byte>)
    requires target.host.Ipv4?
    ensures |r| == 10
    ensures r[..4] == [Version, code.Value(), 0x00, 0x01]
    ensures r[4..8] == target.host.v4
  {
    ResponseCodec.ToByteArray(ResponseCodec.ConnectionResponse(Version, code, Ipv4Address, target.host, target.port))
  }

  /** A completed connect queues "request granted" with the destination's
      address, stops watching the destination, and writes the client. */
  lemma ConnectSucceeded(s: Session)
    requires s.phase == ConnectingToDest && Inv(s)
    requires s.destAddress.value.host.Ipv4? && |s.destToClient| + 10 <= BufSize
    ensures HandleConnect(s, true)
         == Success(s.(dest := Registered({}), client := Registered({Write}), phase := SendConnResp,
                       destToClient := s.destToClient + ConnectReply(RequestGranted, s.destAddress.value)))
  {
  }

  /** Reading the client while relaying: a full buffer stops reading the
      client, a nonzero read makes the destination writable, and nothing
      else changes. */
  lemma ClientReadBackpressure(cfg: Config, s: Session, data: seq<byte>, resolution: Option<Ip4>, connectThrows: bool)
    requires s.phase == Active && Inv(s) && HasInterest(s.client, Read)
    requires |s.clientToDest| + |data| <= BufSize
    ensures var r := ReadFromClient(cfg, s, Received(data), resolution, connectThrows);
      && r.Success? && r.value.phase == Active
      && r.value.clientToDest == s.clientToDest + data && r.value.destToClient == s.destToClient
      && r.value.client.Registered? && r.value.dest.Registered?
      && (Read in r.value.client.interest <==> |s.clientToDest| + |data| < BufSize)
      && r.value.client.interest - {Read} == s.client.interest - {Read}
      && (Write in r.value.dest.interest <==> |data| > 0 || Write in s.dest.interest)
      && r.value.dest.interest - {Write} == s.dest.interest - {Write}
  {
  }

  /** Reading the destination while relaying, symmetrically. */
  lemma DestReadBackpressure(s: Session, data: seq<byte>)
    requires s.phase == Active && Inv(s) && HasInterest(s.dest, Read)
    requires |s.destToClient| + |data| <= BufSize
    ensures var r := ReadFromDestination(s, Received(data));
      && r.Success? && r.value.phase == Active
      && r.value.destToClient == s.destToClient + data && r.value.clientToDest == s.clientToDest
      && r.value.client.Registered? && r.value.dest.Registered?
      && (Read in r.value.dest.interest <==> |s.destToClient| + |data| < BufSize)
      && r.value.dest.interest - {Read} == s.dest.interest - {Read}
      && (Write in r.value.client.interest <==> |data| > 0 || Write in s.client.interest)
      && r.value.client.interest - {Write} == s.client.interest - {Write}
  {
  }

  /** Writing the destination while relaying: a drained buffer stops writing
      the destination, and a nonzero write lets the client be read again. */
  lemma DestWriteBackpressure(s: Session, n: nat)
    requires s.phase == Active && Inv(s) && HasInterest(s.dest, Write)
    requires n <= |s.clientToDest|
    ensures var r := WriteToDest(s, Wrote(n));
      && r.Success? && r.value.phase == Active
      && r.value.clientToDest == s.clientToDest[n..] && r.value.destToClient == s.destToClient
      && r.value.client.Registered? && r.value.dest.Registered?
      && (Write in r.value.dest.interest <==> n < |s.clientToDest|)
      && r.value.dest.interest - {Write} == s.dest.interest - {Write}
      && (Read in r.value.client.interest <==> n > 0 || Read in s.client.interest)
      && r.value.client.interest - {Read} == s.client.interest - {Read}
  {
  }

  /** Writing the client while relaying, symmetrically. */
  lemma ClientWriteBackpressure(s: Session, n: nat)
    requires s.phase == Active && Inv(s) && HasInterest(s.client, Write)
    requires n <= |s.destToClient|
    ensures var r := WriteToClient(s, Wrote(n));
      && r.Success? && r.value.phase == Active
      && r.value.destToClient == s.destToClient[n..] && r.value.clientToDest == s.clientToDest
      && r.value.client.Registered? && r.value.dest.Registered?
      && (Write in r.value.client.interest <==> n < |s.destToClient|)
      && r.value.client.interest - {Write} == s.client.interest - {Write}
      && (Read in r.value.dest.interest <==> n > 0 || Read in s.dest.interest)
      && r.value.dest.interest - {Read} == s.dest.interest - {Read}
  {
  }

  /** End of stream from the client while relaying: the client is closed, the
      session is closed, and the destination is no longer read. */
  lemma ClientEof(cfg: Config, s: Session, resolution: Option<Ip4>, connectThrows: bool)
    requires s.phase == Active && Inv(s)
    ensures ReadFromClient(cfg, s, Eof, resolution, connectThrows)
         == Success(s.(phase := Closed, client := Cancelled, dest := Registered(s.dest.interest - {Read})))
  {
  }

  /** End of stream from the destination while relaying, symmetrically. */
  lemma DestEof(s: Session)
    requires s.phase == Active && Inv(s)
    ensures ReadFromDestination(s, Eof)
         == Success(s.(phase := Closed, dest := Cancelled, client := Registered(s.client.interest - {Read})))
  {
  }

  /** Once one side has closed, the surviving side is only written, every
      write takes bytes off the front of the buffer toward it, and it is
      closed only when that buffer is empty. */
  lemma SurvivorClosedOnlyWhenDrained(cfg: Config, s: Session, e: Event)
    requires s.phase == Closed && Inv(s) && Enabled(s, e) && Fits(s, e)
    requires Step(cfg, s, e).Success?
    ensures e.ClientWritable? || e.DestWritable?
    ensures var t := Step(cfg, s, e).value;
      && t.phase == Closed
      && (e.DestWritable? ==> t.clientToDest == s.clientToDest[e.write.count..])
      && (e.ClientWritable? ==> t.destToClient == s.destToClient[e.write.count..])
      && (s.dest.Registered? && !t.dest.Registered? ==> t.clientToDest == [])
      && (s.client.Registered? && !t.client.Registered? ==> t.destToClient == [])
  {
  }
}
