/** The invariant of the reachable sessions: which keys exist and what they
    are interested in, phase by phase, and the backpressure rule that ties
    each relay buffer's fill to the interest of the sides around it. Every
    handler that returns (rather than throws) keeps it. */
module SessionInvariant {
  import opened Wrappers
  import opened Wire
  import opened SocksEnums
  import opened Addresses
  import opened SocksSession
  import GreetingCodec
  import RequestCodec
  import ResponseCodec

  /** While both sides relay: a side is read exactly when the buffer it fills
      has room, and the client is written exactly when bytes wait for it. The
      destination is written only when bytes wait for it, but bytes left over
      after the request do not by themselves make it writable. */
  predicate Backpressure(s: Session)
    requires s.client.Registered? && s.dest.Registered?
  {
    && s.client.interest <= {Read, Write}
    && s.dest.interest <= {Read, Write}
    && (Read in s.client.interest <==> |s.clientToDest| < BufSize)
    && (Write in s.dest.interest ==> s.clientToDest != [])
    && (Read in s.dest.interest <==> |s.destToClient| < BufSize)
    && (Write in s.client.interest <==> s.destToClient != [])
  }

  /** After one side has closed, the survivor is never read and is written
      only while bytes wait for it. */
  predicate Survivor(ch: Channel, toward: Buffer)
    requires ch.Registered?
  {
    ch.interest <= {Write} && (Write in ch.interest ==> toward != [])
  }

  predicate Inv(s: Session) {
    match s.phase
    case RecvInitGreeting =>
      && s.client == Registered({Read}) && s.dest.Unopened?
      && s.destToClient == [] && !s.closeUponSending
    case SendGreetingResp =>
      s.client == Registered({Write}) && s.dest.Unopened? && s.destToClient != []
    case RecvConnReq =>
      && s.client == Registered({Read}) && s.dest.Unopened?
      && s.destToClient == [] && !s.closeUponSending
    case ResolvingAddress => false
    case ConnectingToDest =>
      && s.client == Registered({}) && s.dest == Registered({Connect}) && s.destAddress.Some?
      && |s.clientToDest| < BufSize
      && (s.closeUponSending || s.destToClient == [])
    case SendConnResp =>
      && s.client == Registered({Write}) && s.destToClient != [] && |s.clientToDest| < BufSize
      && (s.dest.Registered? ==> s.dest == Registered({}))
      && (!s.closeUponSending ==> s.dest.Registered?)
    case Active =>
      && s.client.Registered? && s.dest.Registered? && !s.closeUponSending
      && Backpressure(s)
    case Closed =>
      && !s.client.Unopened?
      && (s.client.Registered? ==> s.dest.Cancelled? && Survivor(s.client, s.destToClient)
                                   && (Write in s.client.interest <==> s.destToClient != []))
      && (s.dest.Registered? ==> s.client.Cancelled? && Survivor(s.dest, s.clientToDest))
  }

  /** A fresh session satisfies the invariant. */
  lemma NewSessionInv()
    ensures Inv(NewSession())
  {
  }

  /** Handling a greeting keeps the invariant. */
  lemma ProcessGreetingInv(s: Session)
    requires s.phase == RecvInitGreeting && Inv(s)
    requires ProcessGreeting(s).Success?
    ensures Inv(ProcessGreeting(s).value)
  {
  }

  /** Turning a request down leads to a reply phase that keeps the invariant. */
  lemma RefuseRequestInv(cfg: Config, s: Session, code: ConnRespCode)
    requires s.client == Registered({Read}) && s.dest.Unopened? && s.destToClient == []
    requires |s.clientToDest| < BufSize
    requires RefuseRequest(cfg, s, code).Success?
    ensures var t := RefuseRequest(cfg, s, code).value;
      && t.phase == SendConnResp && t.closeUponSending && t.dest.Unopened? && t.destToClient != []
      && t.client == Registered({Write}) && t.clientToDest == s.clientToDest
      && t.destAddress == s.destAddress
    ensures Inv(RefuseRequest(cfg, s, code).value)
  {
    var response := ResponseCodec.NewConnectionResponse(Version, code, Ipv4Address, cfg.localHost, cfg.proxyPort).value;
    assert |ResponseCodec.ToByteArray(response)| == 10;
  }

  /** Handling a request keeps the invariant. */
  lemma ProcessConnectionRequestInv(cfg: Config, s: Session, resolution: Option<Ip4>, connectThrows: bool)
    requires s.phase == RecvConnReq && Inv(s)
    requires ProcessConnectionRequest(cfg, s, resolution, connectThrows).Success?
    ensures Inv(ProcessConnectionRequest(cfg, s, resolution, connectThrows).value)
  {
    var x := ExtractClientConnectionRequest(s.clientToDest);
    if x.Success? && x.value.msg.Some? {
      var request := x.value.msg.value;
      var s1 := s.(clientToDest := x.value.buffer);
      if request.version == Version {
        if request.command != EstablishStreamConnection {
          RefuseRequestInv(cfg, s1, CmdNotSupported);
        } else if TargetAddress(request.address, resolution).None? {
          RefuseRequestInv(cfg, s1, HostUnreachable);
        }
      }
    }
  }

  /** Completing the connect keeps the invariant. */
  lemma HandleConnectInv(s: Session, connected: bool)
    requires Inv(s) && HasInterest(s.dest, Connect)
    requires HandleConnect(s, connected).Success?
    ensures Inv(HandleConnect(s, connected).value)
  {
  }

  /** A read from the client keeps the invariant. */
  lemma ReadFromClientInv(cfg: Config, s: Session, read: ReadResult, resolution: Option<Ip4>, connectThrows: bool)
    requires Inv(s) && HasInterest(s.client, Read) && ReadFits(s.clientToDest, read)
    requires ReadFromClient(cfg, s, read, resolution, connectThrows).Success?
    ensures Inv(ReadFromClient(cfg, s, read, resolution, connectThrows).value)
  {
    if read.Received? {
      var s1 := s.(clientToDest := s.clientToDest + read.data);
      if s.phase == RecvInitGreeting {
        ProcessGreetingInv(s1);
      } else if s.phase == RecvConnReq {
        ProcessConnectionRequestInv(cfg, s1, resolution, connectThrows);
      }
    }
  }

  /** A read from the destination keeps the invariant. */
  lemma ReadFromDestinationInv(s: Session, read: ReadResult)
    requires Inv(s) && HasInterest(s.dest, Read) && ReadFits(s.destToClient, read)
    requires ReadFromDestination(s, read).Success?
    ensures Inv(ReadFromDestination(s, read).value)
  {
  }

  /** A write to the client keeps the invariant. */
  lemma WriteToClientInv(s: Session, write: WriteResult)
    requires Inv(s) && HasInterest(s.client, Write) && WriteFits(s.destToClient, write)
    requires WriteToClient(s, write).Success?
    ensures Inv(WriteToClient(s, write).value)
  {
  }

  /** A write to the destination keeps the invariant. */
  lemma WriteToDestInv(s: Session, write: WriteResult)
    requires Inv(s) && HasInterest(s.dest, Write) && WriteFits(s.clientToDest, write)
    requires WriteToDest(s, write).Success?
    ensures Inv(WriteToDest(s, write).value)
  {
  }

  /** Every event the selector can report keeps the invariant, unless its
      handler throws. */
  lemma StepInv(cfg: Config, s: Session, e: Event)
    requires Inv(s) && Enabled(s, e) && Fits(s, e)
    requires Step(cfg, s, e).Success?
    ensures Inv(Step(cfg, s, e).value)
  {
    match e
    case ClientReadable(read, resolution, connectThrows) => ReadFromClientInv(cfg, s, read, resolution, connectThrows);
    case DestConnectable(connected) => HandleConnectInv(s, connected);
    case DestReadable(read) => ReadFromDestinationInv(s, read);
    case ClientWritable(write) => WriteToClientInv(s, write);
    case DestWritable(write) => WriteToDestInv(s, write);
  }
}
