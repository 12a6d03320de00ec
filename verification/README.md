# Chat, presence and SOCKS5 proxy cores, modelled in Dafny

This project models the core logic of a set of networking labs and proves properties about it. The labs are:

- **A SOCKS5 proxy (lab7).**
  - The wire codec of RFC 1928: the method-selection greeting and its reply (section 3), the request (section 4), the address forms (section 5) and the reply (section 6).
  - The byte tables behind them.
  - The per-connection session machine driven by the selector handlers of `SocksProxy`. Each handler either returns the next session or fails with the exception that would escape the reactor loop and stop the proxy.
- **The chat server's `UserManager` in three revisions:**
  - the first REST server (registration and one session per user);
  - the REST server with online states and an inactivity sweep that keeps closed tokens;
  - the websocket server, whose close forgets the token and takes the state to set.
- **The REST chat server's `MessageManager`:** the numbered message log, lookup by id and paging.
- **The websocket chat client's `UsersCache`:** merging the server's user list and reporting the users whose status changed.
- **The tree chat node's `MessageCacher` (lab3):** the log of seen message UUIDs and the acknowledgement countdown.
- **The multicast presence program (lab1):**
  - the 18-byte keep-alive datagram, its parser and the receive path;
  - the equality that tells two copies of the program apart.

How things are modelled:

- Everything is modelled with immutable datatypes and pure functions.
- A Java exception is a `Failure` value, and a Java `null` is `None`.
- Java `int` arithmetic is wrapped explicitly: `JavaInt.Wrap32`, plus a 64-bit range for `long`.
- Time is integer milliseconds.
- Random UUIDs, DNS answers, socket reads and writes, and the outcome of a non-blocking connect are all parameters.

Each operation is paired with one of:

- an inverse: decode after encode, `getLong` after `putLong`;
- an invariant the operation keeps: `SessionInvariant.Inv`, `UserDirectory.Valid` and the per-revision `Valid` predicates;
- an independent reference definition with an all-inputs lemma:
  - `UsersCache.Merged` for the update loop;
  - `ChatUsers.AfterClosing` for the inactivity sweeps;
  - the corrected members of the findings below.

## Model

| member | source | states |
|---|---|---|
| SocksEnums.AuthMethodByValue | lab7/src/main/java/ru/nsu/fit/semenov/socksproxy/socksprotocolspecs/AuthMethod.java:11-23 | the lookup gives a method exactly when the byte is that method's value, and null for every other byte |
| SocksEnums.AddressTypeByValue | lab7/src/main/java/ru/nsu/fit/semenov/socksproxy/socksprotocolspecs/AddressType.java:11-22 | the lookup gives an address type exactly when the byte is its value, and null otherwise |
| SocksEnums.ConnReqCommandByValue | lab7/src/main/java/ru/nsu/fit/semenov/socksproxy/socksprotocolspecs/ConnReqCommand.java:9-20 | the lookup gives a command exactly when the byte is its value, and null otherwise |
| SocksEnums.ByValueRoundTrip | lab7/src/main/java/ru/nsu/fit/semenov/socksproxy/socksprotocolspecs/AuthMethod.java:18-23 | every constant is found again from its own byte |
| SocksEnums.ValuesDistinct | lab7/src/main/java/ru/nsu/fit/semenov/socksproxy/socksprotocolspecs/AddressType.java:17-18 | the byte values of each enum are pairwise distinct, which building the lookup map needs; this covers the reply codes too |
| SocksEnums.UnknownBytes | lab7/src/main/java/ru/nsu/fit/semenov/socksproxy/socksprotocolspecs/ConnReqCommand.java:15-20 | the bytes each table rejects are exactly those that are not listed constants |
| Wire.Signed8 | lab7/src/main/java/ru/nsu/fit/semenov/socksproxy/socksprotocolspecs/GreetingMessage.java:23-24 | Java's signed byte lies in -128..127, and it is non-negative exactly for bytes below 0x80 |
| Wire.Signed16 | lab7/src/main/java/ru/nsu/fit/semenov/socksproxy/socksprotocolspecs/ConnectionRequest.java:77 | `getShort` widened to int lies in the short range, equals the unsigned value or that value minus 65536, and is negative exactly when the high bit is set |
| Wire.ShortBytes | lab7/src/main/java/ru/nsu/fit/semenov/socksproxy/socksprotocolspecs/ConnectionResponse.java:86 | `putShort((short) x)` writes two bytes whose unsigned value is x's low 16 bits |
| Wire.ShortBytesSigned | lab7/src/main/java/ru/nsu/fit/semenov/socksproxy/socksprotocolspecs/ConnectionResponse.java:86 | reading back what `putShort` wrote gives x for values in the short range, and x - 65536 for 32768..65535 |
| Wire.ShortBytesOfSigned16 | lab7/src/main/java/ru/nsu/fit/semenov/socksproxy/socksprotocolspecs/ConnectionRequest.java:77 | every byte pair is what `putShort` writes for the value `getShort` reads from it |
| Addresses.AddressFromBytes | lab7/src/main/java/ru/nsu/fit/semenov/socksproxy/socksprotocolspecs/ConnectionRequest.java:49-62 | four bytes give an IPv4 address; sixteen give IPv6, except that an IPv4-mapped address comes back as IPv4 of its last four bytes |
| Addresses.AddressBytes | lab7/src/main/java/ru/nsu/fit/semenov/socksproxy/socksprotocolspecs/ConnectionResponse.java:72-84 | a literal address is written as its 4 or 16 bytes, and a name as its bytes with no length prefix |
| Addresses.TypeOf | lab7/src/main/java/ru/nsu/fit/semenov/socksproxy/socksprotocolspecs/ConnectionResponse.java:29-44 | the address type whose constructor check an address passes, and the only such type |
| GreetingCodec.KnownMethods | lab7/src/main/java/ru/nsu/fit/semenov/socksproxy/socksprotocolspecs/GreetingMessage.java:26-34 | a method is in the set exactly when its byte was offered; unknown bytes are dropped |
| GreetingCodec.Decode | lab7/src/main/java/ru/nsu/fit/semenov/socksproxy/socksprotocolspecs/GreetingMessage.java:17-38 | malformed exactly when NMETHODS has its high bit set; incomplete exactly when bytes are missing; parsed otherwise, consuming exactly VER NMETHODS METHODS, with the method set given by the offered bytes |
| GreetingCodec.Encode | lab7/src/main/java/ru/nsu/fit/semenov/socksproxy/socksprotocolspecs/GreetingMessage.java:17-38 | the layout the decoder reads: version, count, then the methods |
| GreetingCodec.DecodeEncode | lab7/src/main/java/ru/nsu/fit/semenov/socksproxy/socksprotocolspecs/GreetingMessage.java:17-38 | a greeting with fewer than 128 methods decodes from its encoding and leaves the following bytes untouched |
| GreetingCodec.DecodeEncodeLongList | lab7/src/main/java/ru/nsu/fit/semenov/socksproxy/socksprotocolspecs/GreetingMessage.java:23-24 | a greeting offering 128 to 255 methods is rejected, although RFC 1928 allows it |
| GreetingCodec.DecodedIsEncoded | lab7/src/main/java/ru/nsu/fit/semenov/socksproxy/socksprotocolspecs/GreetingMessage.java:17-38 | every successful decode read an encoded greeting followed by the leftover bytes |
| GreetingCodec.PrefixIncomplete | lab7/src/main/java/ru/nsu/fit/semenov/socksproxy/socksprotocolspecs/GreetingMessage.java:21-29 | every strict prefix of a greeting is incomplete, never malformed or a shorter message |
| GreetingCodec.DecodeMoreBytes | lab7/src/main/java/ru/nsu/fit/semenov/socksproxy/socksprotocolspecs/GreetingMessage.java:17-38 | bytes arriving later never change a parsed or malformed decision |
| GreetingCodec.EncodeResponse | lab7/src/main/java/ru/nsu/fit/semenov/socksproxy/socksprotocolspecs/GreetingResponse.java:20-25 | the reply is two bytes: the version, then the chosen method's byte |
| GreetingCodec.ResponseBytes | lab7/src/main/java/ru/nsu/fit/semenov/socksproxy/SocksProxy.java:273-282 | the proxy's two possible greeting replies are 05 00 and 05 FF, and distinct versions or methods always give distinct replies |
| RequestCodec.NewConnectionRequest | lab7/src/main/java/ru/nsu/fit/semenov/socksproxy/socksprotocolspecs/ConnectionRequest.java:83-112 | the constructor succeeds exactly when the address object agrees with the address type, and keeps every field |
| RequestCodec.Decode | lab7/src/main/java/ru/nsu/fit/semenov/socksproxy/socksprotocolspecs/ConnectionRequest.java:27-81 | an unknown command, a nonzero reserved byte or an unknown address type is malformed as soon as its byte arrives; a parse reads the fields in wire order, with a sign-extended port |
| RequestCodec.DecodeAddress | lab7/src/main/java/ru/nsu/fit/semenov/socksproxy/socksprotocolspecs/ConnectionRequest.java:46-75 | a parsed address part spans at least the eight header-and-port bytes, and the rest is a suffix |
| RequestCodec.DecodePort | lab7/src/main/java/ru/nsu/fit/semenov/socksproxy/socksprotocolspecs/ConnectionRequest.java:77-80 | the port is read signed from the two bytes after the address, and the constructor decides malformed or parsed |
| RequestCodec.Encode | lab7/src/main/java/ru/nsu/fit/semenov/socksproxy/socksprotocolspecs/ConnectionRequest.java:27-81 | the layout the decoder reads: VER CMD RSV ATYP, the address (a name with its length byte), then the port |
| RequestCodec.DecodeEncode | lab7/src/main/java/ru/nsu/fit/semenov/socksproxy/socksprotocolspecs/ConnectionRequest.java:27-81 | every request that can be on the wire decodes from its encoding, consuming exactly its bytes |
| RequestCodec.DecodedIsEncoded | lab7/src/main/java/ru/nsu/fit/semenov/socksproxy/socksprotocolspecs/ConnectionRequest.java:27-81 | whatever decodes can be on the wire, and the buffer is its encoding followed by the leftover bytes |
| RequestCodec.BadDomainLength | lab7/src/main/java/ru/nsu/fit/semenov/socksproxy/socksprotocolspecs/ConnectionRequest.java:63-66 | a name length byte of 0, or one with the high bit set, is rejected |
| RequestCodec.HighPortDecodesNegative | lab7/src/main/java/ru/nsu/fit/semenov/socksproxy/socksprotocolspecs/ConnectionRequest.java:77 | ports 32768..65535 decode to negative ints |
| RequestCodec.MappedIpv6Malformed | lab7/src/main/java/ru/nsu/fit/semenov/socksproxy/socksprotocolspecs/ConnectionRequest.java:56 | an IPv4-mapped IPv6 literal is read as IPv4, and the constructor then refuses it |
| RequestCodec.PrefixIncomplete | lab7/src/main/java/ru/nsu/fit/semenov/socksproxy/socksprotocolspecs/ConnectionRequest.java:27-81 | every strict prefix of an encoded request is incomplete |
| ResponseCodec.NewConnectionResponse | lab7/src/main/java/ru/nsu/fit/semenov/socksproxy/socksprotocolspecs/ConnectionResponse.java:19-48 | the constructor succeeds exactly when the address object agrees with the address type |
| ResponseCodec.ToByteArray | lab7/src/main/java/ru/nsu/fit/semenov/socksproxy/socksprotocolspecs/ConnectionResponse.java:50-88 | the reply is 10, 22 or 7+n bytes: the header, the address bytes, and the port's low 16 bits; a name reply ends in an unused zero byte |
| ResponseCodec.LiteralReplyReparses | lab7/src/main/java/ru/nsu/fit/semenov/socksproxy/socksprotocolspecs/ConnectionResponse.java:50-88 | a literal-address reply is laid out like a request: it re-parses to the same address, and to the same port below 32768 |
| ResponseCodec.DomainReplyLacksLengthPrefix | lab7/src/main/java/ru/nsu/fit/semenov/socksproxy/socksprotocolspecs/ConnectionResponse.java:59-61 | a name reply omits the length byte, so it does not re-parse (as written) |
| ResponseCodec.ToByteArrayPrefixed | lab7/src/main/java/ru/nsu/fit/semenov/socksproxy/socksprotocolspecs/ConnectionResponse.java:50-88 | the reply with the name's length byte fills exactly the allocated size |
| ResponseCodec.PrefixedReplyReparses | lab7/src/main/java/ru/nsu/fit/semenov/socksproxy/socksprotocolspecs/ConnectionResponse.java:50-88 | with the prefix, every reply re-parses to its address and port; literal replies are unchanged |
| SocksSession.NewSession | lab7/src/main/java/ru/nsu/fit/semenov/socksproxy/SocksClient.java:32-41 | a new session waits for the greeting with empty buffers, no destination, and the client registered for reading |
| SocksSession.OrFault | lab7/src/main/java/ru/nsu/fit/semenov/socksproxy/SocksProxy.java:311-326 | a null becomes the given exception, and any other value passes through |
| SocksSession.InterestOps | lab7/src/main/java/ru/nsu/fit/semenov/socksproxy/SocksProxy.java:195-206 | reading a key's interest set throws for a null key or a cancelled key |
| SocksSession.SetInterestOps | lab7/src/main/java/ru/nsu/fit/semenov/socksproxy/SocksProxy.java:433-442 | setting the interest set succeeds exactly on a valid key and replaces the set |
| SocksSession.AddInterest | lab7/src/main/java/ru/nsu/fit/semenov/socksproxy/SocksProxy.java:248-251 | OR-ing an operation in succeeds exactly on a valid key and adds just that operation |
| SocksSession.RemoveInterest | lab7/src/main/java/ru/nsu/fit/semenov/socksproxy/SocksProxy.java:243-245 | masking an operation out succeeds exactly on a valid key and removes just that operation |
| SocksSession.Put | lab7/src/main/java/ru/nsu/fit/semenov/socksproxy/SocksProxy.java:284 | a `put` succeeds exactly when the bytes fit, and it appends them; otherwise it overflows |
| SocksSession.CloseClientSide | lab7/src/main/java/ru/nsu/fit/semenov/socksproxy/SocksClient.java:105-112 | closing the client succeeds exactly on an open client, cancels it, closes the session and changes nothing else |
| SocksSession.CloseDestSide | lab7/src/main/java/ru/nsu/fit/semenov/socksproxy/SocksClient.java:114-122 | closing the destination succeeds exactly on an open destination, cancels it, closes the session and changes nothing else |
| SocksSession.ExtractClientGreeting | lab7/src/main/java/ru/nsu/fit/semenov/socksproxy/SocksClient.java:83-92 | a malformed greeting throws; an incomplete one leaves the buffer unchanged; a complete one is removed from the front |
| SocksSession.ExtractClientConnectionRequest | lab7/src/main/java/ru/nsu/fit/semenov/socksproxy/SocksClient.java:94-103 | the same three outcomes for a request; a parsed request agrees with its address type |
| SocksSession.TargetAddress | lab7/src/main/java/ru/nsu/fit/semenov/socksproxy/SocksProxy.java:311-326 | the destination is the literal address, or the first A record for a name; it is null exactly when the lookup of a name yields null, which happens only for a name dnsjava cannot parse |
| SocksSession.NewSocketAddress | lab7/src/main/java/ru/nsu/fit/semenov/socksproxy/SocksProxy.java:341-344 | `InetSocketAddress` accepts exactly ports 0..65535 |
| SessionInvariant.NewSessionInv | lab7/src/main/java/ru/nsu/fit/semenov/socksproxy/SocksClient.java:32-41 | a new session satisfies the per-phase invariant |
| SessionInvariant.ProcessGreetingInv | lab7/src/main/java/ru/nsu/fit/semenov/socksproxy/SocksProxy.java:254-288 | handling a greeting keeps the invariant |
| SessionInvariant.RefuseRequestInv | lab7/src/main/java/ru/nsu/fit/semenov/socksproxy/SocksProxy.java:351-363 | refusing a request leads to a reply phase that keeps the invariant and will close the client |
| SessionInvariant.ProcessConnectionRequestInv | lab7/src/main/java/ru/nsu/fit/semenov/socksproxy/SocksProxy.java:290-366 | handling a request keeps the invariant |
| SessionInvariant.HandleConnectInv | lab7/src/main/java/ru/nsu/fit/semenov/socksproxy/SocksProxy.java:111-142 | completing the connect keeps the invariant; the failed connect faults as written |
| SessionInvariant.ReadFromClientInv | lab7/src/main/java/ru/nsu/fit/semenov/socksproxy/SocksProxy.java:163-215 | a read from the client keeps the invariant |
| SessionInvariant.ReadFromDestinationInv | lab7/src/main/java/ru/nsu/fit/semenov/socksproxy/SocksProxy.java:217-252 | a read from the destination keeps the invariant |
| SessionInvariant.WriteToClientInv | lab7/src/main/java/ru/nsu/fit/semenov/socksproxy/SocksProxy.java:426-488 | a write to the client keeps the invariant |
| SessionInvariant.WriteToDestInv | lab7/src/main/java/ru/nsu/fit/semenov/socksproxy/SocksProxy.java:396-419 | a write to the destination keeps the invariant |
| SessionInvariant.StepInv | lab7/src/main/java/ru/nsu/fit/semenov/socksproxy/SocksProxy.java:56-79 | every event the selector can report keeps the invariant, unless its handler throws |
| SessionProperties.GreetingRejected | lab7/src/main/java/ru/nsu/fit/semenov/socksproxy/SocksProxy.java:254-271 | a malformed greeting, or one with another version, closes the client and queues no reply |
| SessionProperties.GreetingAnswered | lab7/src/main/java/ru/nsu/fit/semenov/socksproxy/SocksProxy.java:268-288 | a version-5 greeting is answered 05 00 when it offers "no authentication" and 05 FF otherwise; the client is closed after a 05 FF reply |
| SessionProperties.RepliesFlushedBeforeAdvance | lab7/src/main/java/ru/nsu/fit/semenov/socksproxy/SocksProxy.java:433-454 | nothing advances until a reply is fully written; then the client is closed, or the next phase begins reading |
| SessionProperties.UnsupportedCommandRefused | lab7/src/main/java/ru/nsu/fit/semenov/socksproxy/SocksProxy.java:351-363 | BIND and UDP ASSOCIATE get reply code 07 and a closed client, and no destination is opened |
| SessionProperties.ConnectRequestStartsConnect | lab7/src/main/java/ru/nsu/fit/semenov/socksproxy/SocksProxy.java:311-346 | a CONNECT to a usable address records the destination, stops reading the client and starts connecting; only `connect` throwing prevents it |
| SessionProperties.ConnectReply | lab7/src/main/java/ru/nsu/fit/semenov/socksproxy/SocksProxy.java:117-128 | the IPv4 reply is 10 bytes: version, code, reserved, type 1, then the destination address |
| SessionProperties.ConnectSucceeded | lab7/src/main/java/ru/nsu/fit/semenov/socksproxy/SocksProxy.java:117-129 | a completed connect queues "request granted" with the destination's address, then writes the client |
| SessionProperties.ClientReadBackpressure | lab7/src/main/java/ru/nsu/fit/semenov/socksproxy/SocksProxy.java:195-206 | while relaying, a full buffer stops reading the client, and a nonzero read makes the destination writable; nothing else changes |
| SessionProperties.DestReadBackpressure | lab7/src/main/java/ru/nsu/fit/semenov/socksproxy/SocksProxy.java:241-251 | the same rule for a read from the destination |
| SessionProperties.DestWriteBackpressure | lab7/src/main/java/ru/nsu/fit/semenov/socksproxy/SocksProxy.java:396-419 | a drained buffer stops writing the destination, and a nonzero write lets the client be read again |
| SessionProperties.ClientWriteBackpressure | lab7/src/main/java/ru/nsu/fit/semenov/socksproxy/SocksProxy.java:455-471 | the same rule for a write to the client |
| SessionProperties.ClientEof | lab7/src/main/java/ru/nsu/fit/semenov/socksproxy/SocksProxy.java:178-184 | end of stream from the client closes it and the session, and the destination stops being read |
| SessionProperties.DestEof | lab7/src/main/java/ru/nsu/fit/semenov/socksproxy/SocksProxy.java:235-240 | end of stream from the destination closes it and the session, and the client stops being read |
| SessionProperties.SurvivorClosedOnlyWhenDrained | lab7/src/main/java/ru/nsu/fit/semenov/socksproxy/SocksProxy.java:403-410 | after one side closes, the survivor is only written, and it is closed only once the buffer toward it is empty |
| SessionFixes.UnresolvedNameStillConnects | lab7/src/main/java/ru/nsu/fit/semenov/socksproxy/SocksProxy.java:328-346 | as written, a name the lookup yields no address for (one dnsjava cannot parse) queues the refusal and then still connects to the wildcard address |
| SessionFixes.ProcessConnectionRequestFixed | lab7/src/main/java/ru/nsu/fit/semenov/socksproxy/SocksProxy.java:290-366 | the corrected handler fails with an argument error only when the local host is not IPv4 |
| SessionFixes.FixedUnresolvedNameRefused | lab7/src/main/java/ru/nsu/fit/semenov/socksproxy/SocksProxy.java:328-339 | corrected: a name the lookup yields no address for is answered "host unreachable" and then closed, and no destination is opened |
| SessionFixes.Ipv6DestinationFaults | lab7/src/main/java/ru/nsu/fit/semenov/socksproxy/SocksProxy.java:117-141 | as written, completing a connect to an IPv6 destination makes the reply constructor throw |
| SessionFixes.HandleConnectFixed | lab7/src/main/java/ru/nsu/fit/semenov/socksproxy/SocksProxy.java:111-142 | the corrected handler never fails with an argument error |
| SessionFixes.FailedConnectFaults | lab7/src/main/java/ru/nsu/fit/semenov/socksproxy/SocksProxy.java:131-132 | as written, a failed connect asks the channel `finishConnect` closed for its address, so `ClosedChannelException` escapes before any reply; the corrected handler answers when the reply fits |
| SessionFixes.ConnectFailed | lab7/src/main/java/ru/nsu/fit/semenov/socksproxy/SocksProxy.java:131-141 | corrected: a failed connect queues "host unreachable" exactly when it fits, marks the client for closing, writes the client and drops the destination; an IPv4 destination gets the ten-byte reply |
| SessionFixes.FixedConnectReply | lab7/src/main/java/ru/nsu/fit/semenov/socksproxy/socksprotocolspecs/ConnectionResponse.java:19-88 | the corrected reply carries the right code and the destination's own address type |
| SessionFixes.FixedConnectAnswers | lab7/src/main/java/ru/nsu/fit/semenov/socksproxy/SocksProxy.java:111-142 | corrected: a finished connect to either address family is answered and keeps the invariant |
| SessionFixes.FixedConnectReplyReparses | lab7/src/main/java/ru/nsu/fit/semenov/socksproxy/socksprotocolspecs/ConnectionResponse.java:50-88 | the corrected reply re-parses to the destination's address and port |
| SessionFixes.HighPortFaults | lab7/src/main/java/ru/nsu/fit/semenov/socksproxy/socksprotocolspecs/ConnectionRequest.java:77 | as written, a CONNECT to a port of 32768 or more makes `InetSocketAddress` throw |
| SessionFixes.FixedPortIsUnsigned | lab7/src/main/java/ru/nsu/fit/semenov/socksproxy/SocksProxy.java:341-346 | corrected: the port is read unsigned, and every port of a literal address is connected to |
| SessionFixes.PartialWriteAfterClientEofFaults | lab7/src/main/java/ru/nsu/fit/semenov/socksproxy/SocksProxy.java:413-416 | as written, after the client's end of stream, a partial write to the destination touches the cancelled client key and throws |
| SessionFixes.WriteToDestFixed | lab7/src/main/java/ru/nsu/fit/semenov/socksproxy/SocksProxy.java:396-419 | the corrected write never touches the client once the session is closed |
| SessionFixes.FixedSurvivorWrite | lab7/src/main/java/ru/nsu/fit/semenov/socksproxy/SocksProxy.java:403-416 | corrected: a surviving destination is written until empty, then closed, and no write throws |
| SessionFixes.EofStrandsSurvivor | lab7/src/main/java/ru/nsu/fit/semenov/socksproxy/SocksProxy.java:178-183 | as written, end of stream with nothing pending leaves the other side registered for nothing, so no event ever closes it |
| SessionFixes.FixedEofSettlesSurvivor | lab7/src/main/java/ru/nsu/fit/semenov/socksproxy/SocksProxy.java:235-239 | corrected: after end of stream, the other side is closed at once or is written until drained |
| UserDirectory.EmptyValid | lab4/rest-chat-server/src/main/java/ru/nsu/fit/semenov/restchat/user/UserManager.java:15-29 | a new manager's directory is consistent |
| UserDirectory.Register | lab4/rest-chat-server/src/main/java/ru/nsu/fit/semenov/restchat/user/UserManager.java:31-46 | a taken name is refused; a full count is refused; otherwise the user gets the next id and is appended |
| UserDirectory.FindByName | lab4/rest-chat-server/src/main/java/ru/nsu/fit/semenov/restchat/user/UserManager.java:48-50 | finds a registered user of that name, and none exactly when no registered user has it |
| UserDirectory.FindById | lab4/rest-chat-server/src/main/java/ru/nsu/fit/semenov/restchat/user/UserManager.java:52-58 | finds a user exactly for ids 1 to the count, and that user has the id |
| UserDirectory.RegisteredFound | lab4/rest-chat-server/src/main/java/ru/nsu/fit/semenov/restchat/user/UserManager.java:39-58 | a registered user is found by name and by id |
| UserDirectory.RegisterThenFind | lab4/rest-chat-server/src/main/java/ru/nsu/fit/semenov/restchat/user/UserManager.java:31-58 | registration adds exactly the new user; every other lookup answers as before |
| UserDirectory.RegisterAll | lab4/rest-chat-server/src/main/java/ru/nsu/fit/semenov/restchat/user/UserManager.java:31-46 | successive registrations append the names in call order, with ids following on |
| UserDirectory.RegisterAllValid | lab4/rest-chat-server/src/main/java/ru/nsu/fit/semenov/restchat/user/UserManager.java:31-46 | successive registrations keep the directory consistent |
| UserDirectory.Numbered | lab4/rest-chat-server/src/main/java/ru/nsu/fit/semenov/restchat/user/UserManager.java:39 | the users a run of names becomes, one per name |
| UserDirectory.SequentialIds | lab4/rest-chat-server/src/main/java/ru/nsu/fit/semenov/restchat/user/UserManager.java:39 | ids are handed out 1, 2, 3, … in call order |
| SessionTable.EmptyLinked | lab4/rest-chat-server/src/main/java/ru/nsu/fit/semenov/restchat/user/UserManager.java:20-23 | the empty session maps are consistent |
| SessionTable.Link | lab4/rest-chat-server/src/main/java/ru/nsu/fit/semenov/restchat/user/UserManager.java:65-69 | opening a session adds the token and both user links, and keeps the maps inverse to each other |
| SessionTable.Unlink | lab4/rest-chat-server/src/main/java/ru/nsu/fit/semenov/restchat/user/UserManager.java:85-86 | closing a session removes both user links, keeps the token, and keeps the maps inverse |
| SessionTable.IdleSessions | lab4/rest-chat-server/src/main/java/ru/nsu/fit/semenov/restchat/user/UserManager.java:131-140 | the sweep collects exactly the linked sessions idle for longer than 5000 ms |
| SessionTable.SessionOfToken | lab4/rest-chat-server/src/main/java/ru/nsu/fit/semenov/restchat/user/UserManager.java:94-96 | gives the session of a known token, and null otherwise |
| SessionTable.SessionOfUser | lab4/rest-chat-server/src/main/java/ru/nsu/fit/semenov/restchat/user/UserManager.java:90-92 | gives the user's session exactly when they have one, and it leads back to them |
| SessionTable.UserOfToken | lab4/rest-chat-server/src/main/java/ru/nsu/fit/semenov/restchat/user/UserManager.java:110-116 | gives a user exactly for a token whose session is still linked, and none for a closed session |
| SessionTable.Touch | lab4/rest-chat-server/src/main/java/ru/nsu/fit/semenov/restchat/user/UserManager.java:118-123 | only the stamp of a known token moves; an unknown token changes nothing |
| SessionTable.LinkThenUnlink | lab5/src/main/java/ru/nsu/fit/semenov/restchatwebsocket/server/user/UserManager.java:64-93 | opening a session, closing it and forgetting its token restores the table |
| BasicUserManager.EmptyManagerValid | lab4/src/main/java/ru/nsu/fit/semenov/restchat/user/UserManager.java:12-24 | a new manager is consistent |
| BasicUserManager.RegisterUser | lab4/src/main/java/ru/nsu/fit/semenov/restchat/user/UserManager.java:26-40 | a taken name throws; a full count throws; otherwise the next id is found by name |
| BasicUserManager.OpenSession | lab4/src/main/java/ru/nsu/fit/semenov/restchat/user/UserManager.java:46-58 | a user with a session is refused; otherwise the fresh token leads to the user, and others keep their sessions |
| BasicUserManager.GetUserSession | lab4/src/main/java/ru/nsu/fit/semenov/restchat/user/UserManager.java:60-62 | gives a session exactly for a user who has one, and its token leads back to them |
| BasicUserManager.OpenThenGet | lab4/src/main/java/ru/nsu/fit/semenov/restchat/user/UserManager.java:46-62 | after an open, the user's session is the opened one, and a second open is refused |
| ChatUsers.EmptyManagerValid | lab4/rest-chat-server/src/main/java/ru/nsu/fit/semenov/restchat/user/UserManager.java:27-29 | a new manager is consistent |
| ChatUsers.RegisterUser | lab4/rest-chat-server/src/main/java/ru/nsu/fit/semenov/restchat/user/UserManager.java:31-46 | a new user is findable, OFFLINE and without a session; other users keep their states |
| ChatUsers.OpenSession | lab4/rest-chat-server/src/main/java/ru/nsu/fit/semenov/restchat/user/UserManager.java:60-74 | a user with a session is refused; otherwise the fresh token is valid, leads to the user, and the user is ONLINE |
| ChatUsers.LinkValid | lab4/rest-chat-server/src/main/java/ru/nsu/fit/semenov/restchat/user/UserManager.java:65-73 | linking a fresh session to a registered user without one, and setting them ONLINE, keeps the manager consistent |
| ChatUsers.TouchByToken | lab4/rest-chat-server/src/main/java/ru/nsu/fit/semenov/restchat/user/UserManager.java:118-123 | only that session's activity stamp moves; an unknown token changes nothing |
| ChatUsers.TouchByUser | lab5/src/main/java/ru/nsu/fit/semenov/restchatwebsocket/server/user/UserManager.java:130-135 | stamps the user's own session, and changes nothing for a user without one |
| ChatUsers.OpenThenLookup | lab4/rest-chat-server/src/main/java/ru/nsu/fit/semenov/restchat/user/UserManager.java:94-116 | after an open, the token is valid and leads back to the user and the session |
| ChatUsers.SecondOpenRefused | lab4/rest-chat-server/src/main/java/ru/nsu/fit/semenov/restchat/user/UserManager.java:61-63 | a user who has a session is refused a second one |
| ChatUsers.LostSessions | lab4/rest-chat-server/src/main/java/ru/nsu/fit/semenov/restchat/user/UserManager.java:131-140 | the users whose sessions are among those closed |
| ChatUsers.AfterClosingLinked | lab4/rest-chat-server/src/main/java/ru/nsu/fit/semenov/restchat/user/UserManager.java:85-86 | ending any set of sessions keeps the session maps inverse |
| ChatUsers.AfterClosingValid | lab4/rest-chat-server/src/main/java/ru/nsu/fit/semenov/restchat/user/UserManager.java:76-88 | ending any set of sessions keeps the manager consistent |
| ChatUsers.EndSessionValid | lab4/rest-chat-server/src/main/java/ru/nsu/fit/semenov/restchat/user/UserManager.java:76-88 | closing one session keeps the manager consistent, whatever state its user is left in |
| ChatUsers.NothingClosed | lab4/rest-chat-server/src/main/java/ru/nsu/fit/semenov/restchat/user/UserManager.java:128-129 | before a sweep ends anything, the manager is unchanged |
| ChatUsers.EndOneMoreStates | lab4/rest-chat-server/src/main/java/ru/nsu/fit/semenov/restchat/user/UserManager.java:76-88 | ending one more session updates the states as in the reference outcome |
| ChatUsers.EndOneMoreTable | lab5/src/main/java/ru/nsu/fit/semenov/restchatwebsocket/server/user/UserManager.java:80-93 | ending one more session updates the session maps as in the reference outcome |
| ChatUsers.EndOneMore | lab5/src/main/java/ru/nsu/fit/semenov/restchatwebsocket/server/user/UserManager.java:148-153 | ending one more session moves a sweep one step along its reference outcome |
| RestUserManager.EmptyManagerValid | lab4/rest-chat-server/src/main/java/ru/nsu/fit/semenov/restchat/user/UserManager.java:27-29 | a new manager satisfies this revision's invariant: every ONLINE user has a session |
| RestUserManager.RegisterAndOpenValid | lab4/rest-chat-server/src/main/java/ru/nsu/fit/semenov/restchat/user/UserManager.java:31-74 | registration, opening and activity stamps keep the invariant |
| RestUserManager.CloseSession | lab4/rest-chat-server/src/main/java/ru/nsu/fit/semenov/restchat/user/UserManager.java:76-88 | an unknown or already-closed token throws; otherwise the user is unlinked and OFFLINE, and the token stays valid |
| RestUserManager.CloseTwiceFails | lab4/rest-chat-server/src/main/java/ru/nsu/fit/semenov/restchat/user/UserManager.java:76-88 | a closed token stays valid but leads to no user, and closing it again throws |
| RestUserManager.MarkStep | lab4/rest-chat-server/src/main/java/ru/nsu/fit/semenov/restchat/user/UserManager.java:145-147 | marking one more user TIMED_OUT moves the second loop one step along its reference outcome |
| RestUserManager.Swept | lab4/rest-chat-server/src/main/java/ru/nsu/fit/semenov/restchat/user/UserManager.java:125-148 | the sweep's outcome keeps the invariant |
| RestUserManager.SweptClosesIdle | lab4/rest-chat-server/src/main/java/ru/nsu/fit/semenov/restchat/user/UserManager.java:125-148 | the sweep closes exactly the idle sessions, keeps every token, and sets exactly their users TIMED_OUT |
| RestUserManager.CloseOne | lab4/rest-chat-server/src/main/java/ru/nsu/fit/semenov/restchat/user/UserManager.java:142-144 | one pass of the closing loop ends that session as in the reference outcome |
| RestUserManager.CloseAll | lab4/rest-chat-server/src/main/java/ru/nsu/fit/semenov/restchat/user/UserManager.java:142-144 | the closing loop ends exactly the collected sessions, with their users OFFLINE |
| RestUserManager.MarkAll | lab4/rest-chat-server/src/main/java/ru/nsu/fit/semenov/restchat/user/UserManager.java:145-147 | the marking loop sets exactly the users who lost a session TIMED_OUT |
| RestUserManager.CheckSessionActivities | lab4/rest-chat-server/src/main/java/ru/nsu/fit/semenov/restchat/user/UserManager.java:125-148 | the whole sweep keeps the invariant and produces the reference outcome |
| WebsocketUserManager.EmptyManagerValid | lab5/src/main/java/ru/nsu/fit/semenov/restchatwebsocket/server/user/UserManager.java:31-33 | a new manager satisfies this revision's invariant: a token is known exactly while its session is linked |
| WebsocketUserManager.RegisterAndOpenValid | lab5/src/main/java/ru/nsu/fit/semenov/restchatwebsocket/server/user/UserManager.java:35-135 | registration, opening and both activity stamps keep the invariant |
| WebsocketUserManager.CloseSession | lab5/src/main/java/ru/nsu/fit/semenov/restchatwebsocket/server/user/UserManager.java:80-93 | an unknown token throws; otherwise the session, its token and its user link go, and the user takes the given state |
| WebsocketUserManager.CloseTwiceFails | lab5/src/main/java/ru/nsu/fit/semenov/restchatwebsocket/server/user/UserManager.java:80-93 | after a close the token is invalid, so a second close throws |
| WebsocketUserManager.OpenThenCloseRestores | lab5/src/main/java/ru/nsu/fit/semenov/restchatwebsocket/server/user/UserManager.java:64-93 | opening and then closing a session restores the session maps |
| WebsocketUserManager.LostOneMore | lab5/src/main/java/ru/nsu/fit/semenov/restchatwebsocket/server/user/UserManager.java:148-153 | each ended session adds exactly its own user to those who lost one |
| WebsocketUserManager.Swept | lab5/src/main/java/ru/nsu/fit/semenov/restchatwebsocket/server/user/UserManager.java:137-154 | the sweep's outcome keeps the shared invariant |
| WebsocketUserManager.SweptClosesIdle | lab5/src/main/java/ru/nsu/fit/semenov/restchatwebsocket/server/user/UserManager.java:137-154 | the sweep ends exactly the idle sessions and invalidates their tokens; their users become TIMED_OUT, and everything else is untouched |
| WebsocketUserManager.CloseOne | lab5/src/main/java/ru/nsu/fit/semenov/restchatwebsocket/server/user/UserManager.java:148-153 | one pass of the loop closes that session TIMED_OUT, as in the reference outcome |
| WebsocketUserManager.CheckSessionActivities | lab5/src/main/java/ru/nsu/fit/semenov/restchatwebsocket/server/user/UserManager.java:137-154 | the sweep produces the reference outcome |
| WebsocketUserManager.CloseAll | lab5/src/main/java/ru/nsu/fit/semenov/restchatwebsocket/server/user/UserManager.java:148-153 | the loop ends exactly the collected sessions, with their users TIMED_OUT |
| JavaInt.Wrap32 | lab4/rest-chat-server/src/main/java/ru/nsu/fit/semenov/restchat/message/MessageManager.java:44 | Java int arithmetic: the result equals x when x fits, is x - 2^32 just past the maximum and x + 2^32 just below the minimum |
| JavaInt.Wrap32Congruent | lab4/rest-chat-server/src/main/java/ru/nsu/fit/semenov/restchat/message/MessageManager.java:44 | the wrapped result keeps x's low 32 bits, and is the only int that does |
| MessageLog.EmptyLogValid | lab4/rest-chat-server/src/main/java/ru/nsu/fit/semenov/restchat/message/MessageManager.java:15-16 | a new log is consistent |
| MessageLog.SendMessage | lab4/rest-chat-server/src/main/java/ru/nsu/fit/semenov/restchat/message/MessageManager.java:43-47 | the k-th message sent gets id k and is appended; once the counter is at the int maximum, the send throws and adds nothing, and the counter has wrapped |
| MessageLog.GetMessageById | lab4/rest-chat-server/src/main/java/ru/nsu/fit/semenov/restchat/message/MessageManager.java:18-24 | finds a message exactly for ids 1 to the count, and that message has the id |
| MessageLog.SubList | lab4/rest-chat-server/src/main/java/ru/nsu/fit/semenov/restchat/message/MessageManager.java:36-39 | `subList` succeeds exactly for ordered in-range bounds, and gives the elements between them |
| MessageLog.GetMessagesAsWritten | lab4/rest-chat-server/src/main/java/ru/nsu/fit/semenov/restchat/message/MessageManager.java:26-41 | as written: negative arguments throw, and an offset past the end gives an empty page |
| MessageLog.GetMessages | lab4/rest-chat-server/src/main/java/ru/nsu/fit/semenov/restchat/message/MessageManager.java:26-41 | corrected: throws exactly for a negative argument; otherwise the page is the next min(count, remaining) messages from the offset |
| MessageLog.PageIds | lab4/rest-chat-server/src/main/java/ru/nsu/fit/semenov/restchat/message/MessageManager.java:26-41 | a page is a run of consecutive ids starting at offset + 1 |
| MessageLog.AsWrittenAgrees | lab4/rest-chat-server/src/main/java/ru/nsu/fit/semenov/restchat/message/MessageManager.java:34-39 | when offset + count fits an int, the code as written returns the correct page |
| MessageLog.AsWrittenOverflows | lab4/rest-chat-server/src/main/java/ru/nsu/fit/semenov/restchat/message/MessageManager.java:34-39 | when offset + count passes the int maximum, the code as written throws where the remaining messages are due |
| MessageLog.OverflowExample | lab4/rest-chat-server/src/main/java/ru/nsu/fit/semenov/restchat/message/MessageManager.java:34-39 | with two messages, offset 1 and count 2147483647, the code as written throws, and the correct page is the second message |
| MessageLog.PagesConcatenate | lab4/rest-chat-server/src/main/java/ru/nsu/fit/semenov/restchat/message/MessageManager.java:26-41 | two adjacent pages together are the page of their combined length |
| MessageLog.SendThenRead | lab4/rest-chat-server/src/main/java/ru/nsu/fit/semenov/restchat/message/MessageManager.java:18-47 | a sent message is found by its id; earlier ids and pages inside the old log are unchanged |
| MessageLog.SendAll | lab4/rest-chat-server/src/main/java/ru/nsu/fit/semenov/restchat/message/MessageManager.java:43-47 | successive sends succeed exactly while they fit, and number the messages consecutively in call order |
| UsersCache.Merge | lab5/src/main/java/ru/nsu/fit/semenov/restchatwebsocket/client/UsersCache.java:20-35 | one response updates a known user's status, or adds a new user; it reports exactly a changed status, or a new user whose status is "true" |
| UsersCache.MergeAll | lab5/src/main/java/ru/nsu/fit/semenov/restchatwebsocket/client/UsersCache.java:17-38 | the merged cache holds the old users plus every mentioned id, and each reported id is in it |
| UsersCache.Update | lab5/src/main/java/ru/nsu/fit/semenov/restchatwebsocket/client/UsersCache.java:17-38 | each reported user is the cached object as the whole merge left it |
| UsersCache.GetNameById | lab5/src/main/java/ru/nsu/fit/semenov/restchatwebsocket/client/UsersCache.java:40-46 | an id below 1 throws; otherwise gives a name exactly when the id is cached, and it is that cached user's name |
| UsersCache.Ids | lab5/src/main/java/ru/nsu/fit/semenov/restchatwebsocket/client/UsersCache.java:20 | the ids a response list mentions, and only those |
| UsersCache.LastWith | lab5/src/main/java/ru/nsu/fit/semenov/restchatwebsocket/client/UsersCache.java:20-26 | the last response about an id, present exactly when the id is mentioned |
| UsersCache.FirstWith | lab5/src/main/java/ru/nsu/fit/semenov/restchatwebsocket/client/UsersCache.java:28-29 | the first response about an id, present exactly when the id is mentioned |
| UsersCache.Merged | lab5/src/main/java/ru/nsu/fit/semenov/restchatwebsocket/client/UsersCache.java:17-38 | the reference cache covers the old ids plus every mentioned id |
| UsersCache.EntryStep | lab5/src/main/java/ru/nsu/fit/semenov/restchatwebsocket/client/UsersCache.java:20-35 | merging one response and then the rest leaves under each id what merging them all does |
| UsersCache.MergedStep | lab5/src/main/java/ru/nsu/fit/semenov/restchatwebsocket/client/UsersCache.java:20-35 | merging one response and then the rest is merging them all |
| UsersCache.MergeAllMerged | lab5/src/main/java/ru/nsu/fit/semenov/restchatwebsocket/client/UsersCache.java:17-38 | the update loop computes the reference merge |
| UsersCache.UpdateKeepsNames | lab5/src/main/java/ru/nsu/fit/semenov/restchatwebsocket/client/UsersCache.java:21-26 | a cached user keeps its name; an unmentioned user is untouched; a mentioned one ends with its last status |
| UsersCache.UpdateAddsNew | lab5/src/main/java/ru/nsu/fit/semenov/restchatwebsocket/client/UsersCache.java:28-29 | a new user enters with the name of its first response and the status of its last |
| UsersCache.Reported | lab5/src/main/java/ru/nsu/fit/semenov/restchatwebsocket/client/UsersCache.java:22-33 | each response that changes a status, or adds a user whose status is "true", is reported |
| UsersCache.ReportedFrame | lab5/src/main/java/ru/nsu/fit/semenov/restchatwebsocket/client/UsersCache.java:21-22 | whether a response is reported depends only on the entries of mentioned ids |
| UsersCache.DistinctReported | lab5/src/main/java/ru/nsu/fit/semenov/restchatwebsocket/client/UsersCache.java:17-38 | with no repeated id, the update reports exactly the changed or new-and-online users, in list order |
| UsersCache.NoneReported | lab5/src/main/java/ru/nsu/fit/semenov/restchatwebsocket/client/UsersCache.java:22 | a list that matches the cache's statuses reports nobody |
| UsersCache.MergedLast | lab5/src/main/java/ru/nsu/fit/semenov/restchatwebsocket/client/UsersCache.java:23 | every mentioned user ends with the status of the last response about it |
| UsersCache.MergedFixed | lab5/src/main/java/ru/nsu/fit/semenov/restchatwebsocket/client/UsersCache.java:21-26 | a cache that already agrees with the list's final statuses is left as it is |
| UsersCache.UpdateTwiceQuiet | lab5/src/main/java/ru/nsu/fit/semenov/restchatwebsocket/client/UsersCache.java:17-38 | with no repeated id, a second update with the same list changes nothing and reports nobody |
| MessageCacher.EmptyCacherValid | lab3/src/ru/nsu/semenov/nsulabs/lab3/MessageCacher.java:51-52 | a new cacher is consistent |
| MessageCacher.CacheMessage | lab3/src/ru/nsu/semenov/nsulabs/lab3/MessageCacher.java:15-18 | caching logs the UUID and stores the packet with its count, replacing any entry under that UUID |
| MessageCacher.GetFromCache | lab3/src/ru/nsu/semenov/nsulabs/lab3/MessageCacher.java:20-25 | throws exactly for an uncached UUID; otherwise gives the packet of that UUID, which is logged |
| MessageCacher.DecreaseReceiversCount | lab3/src/ru/nsu/semenov/nsulabs/lab3/MessageCacher.java:27-35 | an uncached UUID throws; otherwise the count drops by one as a Java int, and the entry is evicted exactly when the count reaches zero; the log never shrinks |
| MessageCacher.DecreaseTimes | lab3/src/ru/nsu/semenov/nsulabs/lab3/MessageCacher.java:27-35 | repeated acknowledgements keep the log and leave other messages untouched |
| MessageCacher.CountsDown | lab3/src/ru/nsu/semenov/nsulabs/lab3/MessageCacher.java:27-35 | before the count's worth of acknowledgements arrive, the message stays cached, one lower per acknowledgement |
| MessageCacher.DecreaseOneMore | lab3/src/ru/nsu/semenov/nsulabs/lab3/MessageCacher.java:27-35 | k + 1 acknowledgements are k followed by one more |
| MessageCacher.EvictedAtZero | lab3/src/ru/nsu/semenov/nsulabs/lab3/MessageCacher.java:29-32 | a message cached for n ≥ 1 receivers is evicted by exactly the n-th acknowledgement |
| MessageCacher.AckAfterEvictionThrows | lab3/src/ru/nsu/semenov/nsulabs/lab3/MessageCacher.java:28-34 | one acknowledgement beyond the count throws |
| MessageCacher.LoggedForever | lab3/src/ru/nsu/semenov/nsulabs/lab3/MessageCacher.java:16 | a message once logged stays logged through later caching and acknowledgements |
| MessageCacher.RecacheReplaces | lab3/src/ru/nsu/semenov/nsulabs/lab3/MessageCacher.java:17 | caching the same UUID again replaces the packet and resets the count |
| KeepAlive.UnsignedRoundTrip | lab1/src/Main.java:168 | writing n big-endian bytes of u and reading them back gives u |
| KeepAlive.BytesRoundTrip | lab1/src/Main.java:156 | reading bytes as a number and writing it back gives the same bytes |
| KeepAlive.PutLong | lab1/src/Main.java:168 | `putLong` writes eight bytes |
| KeepAlive.LongRoundTrip | lab1/src/Main.java:155-156 | `getLong` reads back what `putLong` wrote, and the reverse |
| KeepAlive.Frame | lab1/src/Main.java:166-171 | the keep-alive datagram is 18 bytes: the id, then "keep_alive" |
| KeepAlive.ParseGroupInput | lab1/src/Main.java:151-163 | short input gives -1; an accepted input has "keep_alive" after an id's bytes; a valid tail gives that id |
| KeepAlive.FrameRoundTrip | lab1/src/Main.java:151-171 | parsing a copy's frame gives back its id, whatever follows it |
| KeepAlive.AcceptedIsFrame | lab1/src/Main.java:151-171 | an 18-byte datagram is accepted exactly when it is a frame of some id other than -1 |
| KeepAlive.SuffixIgnored | lab1/src/Main.java:155 | only the first 18 bytes matter |
| KeepAlive.MinusOneIsRejection | lab1/src/Main.java:150-162 | the frame of id -1 is read as "not a keep-alive" |
| KeepAlive.Receive | lab1/src/Main.java:104-109 | a received datagram overwrites the front of the buffer; the rest keeps older bytes |
| KeepAlive.ReceivedIdAsWritten | lab1/src/Main.java:116 | as written, acceptance rests on "keep_alive" being in the buffer, not necessarily in the datagram |
| KeepAlive.ReceivedId | lab1/src/Main.java:116 | corrected: only the bytes received are parsed, so a short datagram is rejected |
| KeepAlive.ReceivePathsAgreeOnFrames | lab1/src/Main.java:103-128 | a genuine keep-alive is read the same way by both receive paths |
| KeepAlive.StaleBufferAccepted | lab1/src/Main.java:104-116 | as written, a datagram of up to eight bytes received after a keep-alive is taken for a keep-alive |
| KeepAlive.StaleBufferExample | lab1/src/Main.java:104-116 | after id 7's keep-alive, the one-byte datagram 00 is read as id 7 again as written, and rejected when corrected |
| KeepAlive.InstanceEqualsIsEquality | lab1/src/Main.java:203-213 | two instances are equal exactly when their addresses (both null or equal) and ids are equal, and equality is symmetric |

## Left out

- Socket I/O, the selector loop and `handleAccept` are left out, and so is the readiness of several keys in one selector round. Reads, writes, connect outcomes and DNS answers are event parameters. The dnsjava lookup is the `resolution` argument.
- SocksSession.TargetAddress: a name that parses but has no A record makes `Lookup.run()` return null, so `result.length` (lab7/src/main/java/ru/nsu/fit/semenov/socksproxy/SocksProxy.java:374) throws a `NullPointerException` that escapes the reactor loop. DNS is a parameter here, so that path is not modelled; `None` stands only for the unparsable name, for which `resolveDomainName` returns null (lab7/src/main/java/ru/nsu/fit/semenov/socksproxy/SocksProxy.java:380-382).
- `extractClientGreeting` and `extractClientConnectionRequest` use mark, flip and reset. On an incomplete message, `flip` discards the mark and `reset` would throw `InvalidMarkException`. The model keeps the buffer unchanged, which the surrounding code evidently expects.
- Domain names and chat texts are byte or character sequences. The UTF-8 decoding and encoding is treated as the identity, which holds for ASCII names.
- Logging, the websocket logout broadcast, and the REST and websocket transports are left out: they are output only.
- ChatUsers.OpenSession: the user must be registered. The source dereferences an unregistered user's state and throws a `NullPointerException`; that path is not modelled.
- BasicUserManager.OpenSession, ChatUsers.OpenSession: the fresh token must be unused, which stands for random UUIDs never colliding.
- BasicUserManager.OpenSession: the first revision compares users and sessions by identity. The model compares them by value, which agrees because each user and each session is a single object.
- The `UserState` flag added in the websocket revision is never read by the manager, so it is left out.
- Instants are integer milliseconds, and `Duration.compareTo` is integer comparison.
- ChatUsers, RestUserManager, WebsocketUserManager: every manager call is modelled as atomic, one after another. In both servers `checkSessionActivities` runs on its own `keepAliveChecker` thread (lab4/rest-chat-server/src/main/java/ru/nsu/fit/semenov/restchat/RestChatServer.java:42 and :73, lab5/src/main/java/ru/nsu/fit/semenov/restchatwebsocket/server/RestChatServer.java:45 and :71), while request handlers open and close sessions on other threads, and the maps are unsynchronised `HashMap`s. The `ConcurrentModificationException` this can raise in the sweep's `keySet()` loop, which would end the sweep thread, and lost updates are not followed.
- MessageLog.SendMessage: the first failed send leaves the counter wrapped to the int minimum. Later sends, and the eventual reuse of id 1 after 2^32 more calls, are not followed.
- MessageCacher.CountsDown: a count of zero or below never reaches zero without wrapping around. The lemma covers counts down to the int minimum only. The node caches with `size() - 1` receivers (lab3/src/ru/nsu/semenov/nsulabs/lab3/Node.java:211), which can be zero.
- UsersCache.GetNameById: the error is a message string rather than a Java exception type.
- From lab1, the `checkKeepAlive` thread, the instance map, the console loop and `hashCode` are left out. They depend on threads and the clock.
- From lab3, everything other than `MessageCacher` is left out: the tree node, the parser, the packet classes and retransmission.
- The other labs are left out.
- `InstanceInfo.equals` with a null argument, or an argument of another class, is not modelled. The model's arguments are always instances.

## Findings

| source | as written | input that shows it | evidently intended | confidence | as-written member | corrected member |
|---|---|---|---|---|---|---|
| lab7/src/main/java/ru/nsu/fit/semenov/socksproxy/SocksProxy.java:328-346 | a name the lookup yields null for queues "host unreachable" but falls through and connects to the wildcard address | a CONNECT to the name "a..b", whose empty label dnsjava refuses with a `TextParseException` | refuse and close without connecting | high, not executed | SessionFixes.UnresolvedNameStillConnects | SessionFixes.FixedUnresolvedNameRefused |
| lab7/src/main/java/ru/nsu/fit/semenov/socksproxy/SocksProxy.java:117-141 | the connect reply is always built with the IPv4 address type, so an IPv6 destination makes the constructor throw and stops the reactor | a CONNECT to an IPv6 literal | a reply of the destination's own address type | high, not executed | SessionFixes.Ipv6DestinationFaults | SessionFixes.FixedConnectAnswers |
| lab7/src/main/java/ru/nsu/fit/semenov/socksproxy/SocksProxy.java:131-132 | the failure branch first asks the destination channel for its remote address, but the failed `finishConnect` has closed it, so `ClosedChannelException` escapes the handler and stops the reactor | a CONNECT to a port where nothing listens | log the recorded destination address, queue "host unreachable" and close the client after it | high, not executed | SessionFixes.FailedConnectFaults | SessionFixes.ConnectFailed |
| lab7/src/main/java/ru/nsu/fit/semenov/socksproxy/socksprotocolspecs/ConnectionRequest.java:77 | the port is read as a signed short, so ports of 32768 or more make `InetSocketAddress` throw and stop the reactor | a CONNECT to port 443 works; a CONNECT to port 50000 (bytes C3 50) fails | an unsigned 16-bit port | high, not executed | SessionFixes.HighPortFaults | SessionFixes.FixedPortIsUnsigned |
| lab7/src/main/java/ru/nsu/fit/semenov/socksproxy/SocksProxy.java:413-416 | after the client's end of stream, a partial write to the destination re-enables reading on the cancelled client key | client EOF while 2 bytes wait for the destination, then a write of 1 byte | leave the closed client alone | medium, not executed | SessionFixes.PartialWriteAfterClientEofFaults | SessionFixes.FixedSurvivorWrite |
| lab7/src/main/java/ru/nsu/fit/semenov/socksproxy/SocksProxy.java:178-183 | end of stream with nothing pending toward the other side leaves that side registered for nothing, so it is never closed | client EOF while relaying, with an empty buffer toward the destination | close the other side at once | medium, not executed | SessionFixes.EofStrandsSurvivor | SessionFixes.FixedEofSettlesSurvivor |
| lab7/src/main/java/ru/nsu/fit/semenov/socksproxy/socksprotocolspecs/ConnectionResponse.java:60-81 | a name reply allocates room for a length byte but writes the name without it | reply for the name "ab" on port 80 is 05 00 00 03 61 62 00 50 00 | the length byte before the name, as in section 5 of RFC 1928 | high, not executed | ResponseCodec.DomainReplyLacksLengthPrefix | ResponseCodec.PrefixedReplyReparses |
| lab4/rest-chat-server/src/main/java/ru/nsu/fit/semenov/restchat/message/MessageManager.java:34-39 | `offset + count` is an int sum that wraps negative, so `subList` gets reversed bounds and throws | two messages, offset 1, count 2147483647 | return the remaining messages | high, not executed | MessageLog.OverflowExample | MessageLog.GetMessages |
| lab1/src/Main.java:116 | the whole 100-byte buffer is parsed, whatever the datagram's length, so bytes of an earlier keep-alive are parsed again | the keep-alive of id 7, then the one-byte datagram 00 | parse only the received bytes | high, not executed | KeepAlive.StaleBufferExample | KeepAlive.ReceivedId |
