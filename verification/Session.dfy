/** Whole sessions of a client and a server: opening, talking both ways, renewing and closing the channel. */
module Session {
  import opened Wrappers
  import opened Bytes
  import opened Crypto
  import opened Lawful
  import opened Chunk
  import opened Channel
  import opened Delivery
  import opened Conversation
  import opened Framing
  import opened StreamDelivery

  /** The client's connection and what it received; the server's end of the stream. */
  datatype Session = Session(client: Connection, clientDraw: nat, received: seq<Received>, server: Protocol<Endpoint>)

  /**
   Requests and responses are messages of one side, as many as it likes; the client's bytes travel in
   any segments. An opening is one exchange, and the client waits for its answer.
   */
  datatype Round =
    | Requests(messages: seq<Outgoing>, segments: seq<Bytes>)
    | Responses(messages: seq<Outgoing>)
    | Opening(request: OpenRequest, requestId: u32, segments: seq<Bytes>)

  predicate AllOrdinary(messages: seq<Outgoing>) {
    forall m | m in messages :: m.messageType == SECURE_MESSAGE
  }

  // ----- Playing a session -----

  function Ask(s: Session, messages: seq<Outgoing>, segments: seq<Bytes>): Option<Session>
    requires s.client.Valid() && AllOrdinary(messages)
  {
    var (client, packets) := SendAll(s.server.processor.lib, s.client, s.clientDraw, messages);
    if packets.Err? || Join(segments) != Join(packets.value) then None
    else
      Some(s.(client := client, clientDraw := s.clientDraw + |messages|, server := FeedAll(Serve, s.server, segments)))
  }

  function Answer(s: Session, messages: seq<Outgoing>): Option<Session>
    requires s.client.Valid() && s.server.processor.conn.Valid() && AllOrdinary(messages)
  {
    var e := s.server.processor;
    var (conn, packets) := SendAll(e.lib, e.conn, e.draw, messages);
    if packets.Err? then None
    else
      var (client, results) := ReceivePackets(e.lib, s.client, packets.value);
      Some(s.(client := client, received := s.received + results,
              server := s.server.(processor := e.(conn := conn, draw := e.draw + |messages|,
                                                  sent := e.sent + packets.value))))
  }

  /** The client's half of an opening: it follows the answer it can read in what the server has written since. */
  function Conclude(s: Session, client: Connection, nonce: Bytes, server: Protocol<Endpoint>): Option<Session>
    requires client.Valid()
  {
    var e := s.server.processor;
    var written := server.processor.sent[if |e.sent| <= |server.processor.sent| then |e.sent| else 0..];
    var (answered, results) := ReceivePackets(e.lib, client, written);
    if results == [] || !results[|results| - 1].Delivered? then None
    else
      var reply := e.services.readReply(results[|results| - 1].message.Body());
      if reply.None? then None
      else Some(Session(Follow(e.lib, answered, nonce, reply.value), s.clientDraw + 1, s.received + results, server))
  }

  /** The client writes and sends its request, and makes its keys from the nonce it put into it. */
  function OpenRound(s: Session, request: OpenRequest, requestId: u32, segments: seq<Bytes>): Option<Session>
    requires s.client.Valid()
  {
    var e := s.server.processor;
    var body := e.services.writeRequest(request);
    var (client, packets) := Send(e.lib, s.client, s.clientDraw, body, SECURE_OPEN, requestId, s.client.tokenId);
    if packets.Err? || Join(segments) != Join(packets.value) then None
    else
      SendKeeps(e.lib, s.client, s.clientDraw, Outgoing(body, SECURE_OPEN, requestId, s.client.tokenId));
      Conclude(s, client, request.nonce, FeedAll(Serve, s.server, segments))
  }

  /**
   None where a sender raises, an opening is not answered, or the segments are not the bytes sent.
   Without an open channel there are no keys, and only an opening is possible.
   */
  function Play(s: Session, r: Round): Option<Session> {
    if !s.client.Valid() || !s.server.processor.conn.Valid() then None
    else
      match r
      case Requests(messages, segments) =>
        if s.server.processor.conn.isOpen && AllOrdinary(messages) then Ask(s, messages, segments) else None
      case Responses(messages) =>
        if s.server.processor.conn.isOpen && AllOrdinary(messages) then Answer(s, messages) else None
      case Opening(request, requestId, segments) => OpenRound(s, request, requestId, segments)
  }

  function PlayAll(s: Session, rounds: seq<Round>): Option<Session>
    decreases |rounds|
  {
    if rounds == [] then Some(s)
    else
      var next := Play(s, rounds[0]);
      if next.None? then None else PlayAll(next.value, rounds[1..])
  }

  // ----- What both sides agree on -----

  /** Each side can read the other's open messages and knows its last number; without derived keys all messages. */
  predicate Acquainted(client: Connection, server: Connection) {
    && PairedFor(client.policy, server.policy, SECURE_OPEN) && PairedFor(server.policy, client.policy, SECURE_OPEN)
    && client.Valid() && server.Valid()
    && client.policy.uri == server.policy.uri && client.policy.mode == server.policy.mode
    && client.policy.keys == server.policy.keys
    && (client.policy.keys.None? ==>
          PairedFor(client.policy, server.policy, SECURE_MESSAGE)
            && PairedFor(server.policy, client.policy, SECURE_MESSAGE))
    && Knows(client, server) && Knows(server, client)
  }

  predicate Knows(tx: Connection, rx: Connection) {
    && rx.incomingParts == []
    && (rx.peerSequenceNumber.Some? ==> rx.peerSequenceNumber.value == tx.sequenceNumber)
  }

  /** Both sides are on one channel, with one token and each other's keys. */
  predicate OnChannel(client: Connection, server: Connection) {
    && Acquainted(client, server)
    && PairedFor(client.policy, server.policy, SECURE_MESSAGE)
       && PairedFor(server.policy, client.policy, SECURE_MESSAGE)
    && client.channelId == server.channelId && client.tokenId == server.tokenId
  }

  predicate Live(s: Session) {
    && s.server.data == [] && !s.server.closed
    && Acquainted(s.client, s.server.processor.conn)
    && (s.server.processor.conn.isOpen ==> OnChannel(s.client, s.server.processor.conn))
  }

  // ----- What the rounds should deliver -----

  datatype Mail = Mail(toServer: seq<Envelope>, toClient: seq<Envelope>) {
    function Plus(other: Mail): Mail {
      Mail(toServer + other.toServer, toClient + other.toClient)
    }
  }

  function MailOf(s: Session, r: Round, next: Session): Mail
    requires s.client.Valid() && s.server.processor.conn.Valid()
  {
    match r
    case Requests(messages, _) => Mail(Carried(s.client, messages), [])
    case Responses(messages) => Mail([], Carried(s.server.processor.conn, messages))
    case Opening(request, requestId, _) =>
      var e := s.server.processor;
      var reply := OpenReply(next.server.processor.conn.channelId, next.server.processor.conn.tokenId,
                             e.services.nonce(e.opens));
      Mail([Envelope(SECURE_OPEN, requestId, e.services.writeRequest(request))],
           [Envelope(SECURE_OPEN, requestId, e.services.writeReply(reply))])
  }

  function AllMail(s: Session, rounds: seq<Round>): Mail
    decreases |rounds|
  {
    if rounds == [] then Mail([], [])
    else
      var next := Play(s, rounds[0]);
      if next.None? then Mail([], [])
      else MailOf(s, rounds[0], next.value).Plus(AllMail(next.value, rounds[1..]))
  }

  /** From s to next exactly this mail was received on both sides, and nothing raised. */
  ghost predicate Gets(s: Session, next: Session, mail: Mail) {
    && next.server.processor.lib == s.server.processor.lib
       && next.server.processor.services == s.server.processor.services
    && s.server.processor.results <= next.server.processor.results && s.received <= next.received
    && var atServer := next.server.processor.results[|s.server.processor.results|..];
    && var atClient := next.received[|s.received|..];
    && Inbox(atServer) == mail.toServer && Inbox(atClient) == mail.toClient
    && (forall r | r in atServer :: NoException(r)) && (forall r | r in atClient :: NoException(r))
  }

  /** Two new connections of one policy are such a start; the channel is not open yet. */
  lemma NewConnectionsAreLive(lib: LawfulLibrary, services: Services, client: SecurityPolicy, server: SecurityPolicy)
    requires PairedFor(client, server, SECURE_OPEN) && PairedFor(server, client, SECURE_OPEN)
    requires client.uri == server.uri && client.mode == server.mode && client.keys == server.keys
    requires client.keys.None? ==>
             PairedFor(client, server, SECURE_MESSAGE) && PairedFor(server, client, SECURE_MESSAGE)
    ensures var e := Endpoint(lib, services, Connection(server, 0, None, [], 0, 0, [], 65536, false), [], 0, 0, []);
            Live(Session(Connection(client, 0, None, [], 0, 0, [], 65536, false), 0, [], Protocol([], e, false)))
  {
    hide Paired;
  }

  lemma GetsNothing(s: Session)
    ensures Gets(s, s, Mail([], []))
  {
  }

  lemma GetsBoth(s: Session, middle: Session, next: Session, first: Mail, second: Mail)
    requires Gets(s, middle, first) && Gets(middle, next, second)
    ensures Gets(s, next, first.Plus(second))
  {
    GetsMore(s.server.processor.results, middle.server.processor.results, next.server.processor.results);
    GetsMore(s.received, middle.received, next.received);
  }

  lemma GetsMore(a: seq<Received>, b: seq<Received>, c: seq<Received>)
    requires a <= b <= c
    ensures a <= c && c[|a|..] == b[|a|..] + c[|b|..]
    ensures Inbox(c[|a|..]) == Inbox(b[|a|..]) + Inbox(c[|b|..])
  {
    assert c[|a|..] == b[|a|..] + c[|b|..];
    InboxAppend(b[|a|..], c[|b|..]);
  }

  // ----- Talking -----

  lemma {:induction false} SendAllKeeps(lib: Library, tx: Connection, draw: nat, messages: seq<Outgoing>)
    requires lib.Lawful() && tx.Valid() && forall m | m in messages :: m.Valid()
    ensures var (sent, _) := SendAll(lib, tx, draw, messages);
            sent == tx.(sequenceNumber := sent.sequenceNumber)
    decreases |messages|
  {
    hide Library.Lawful;
    if messages != [] {
      var (next, first) := SendOne(lib, tx, draw, messages[0]);
      SendKeeps(lib, tx, draw, messages[0]);
      hide SendOne;
      if first.Ok? {
        SendAllKeeps(lib, next, draw + 1, messages[1..]);
      }
    }
  }

  lemma SendKeeps(lib: Library, tx: Connection, draw: nat, m: Outgoing)
    requires lib.Lawful() && tx.Valid() && m.Valid()
    ensures var (sent, _) := SendOne(lib, tx, draw, m);
            sent == tx.(sequenceNumber := sent.sequenceNumber) && sent.Valid()
  {
    hide Library.Lawful, MessageToChunks, EncodeAll, Number;
  }

  lemma ChannelInSync(tx: Connection, rx: Connection)
    requires OnChannel(tx, rx) || OnChannel(rx, tx)
    ensures InSync(tx, rx)
  {
    hide Paired;
  }

  /** After one side has sent and the other received, they are still on the channel. */
  lemma StillOnChannel(tx: Connection, rx: Connection, sent: Connection, after: Connection)
    requires OnChannel(tx, rx) || OnChannel(rx, tx)
    requires sent == tx.(sequenceNumber := sent.sequenceNumber) && SameSetup(after, rx)
    requires InSync(sent, after)
    ensures OnChannel(tx, rx) ==> OnChannel(sent, after)
    ensures OnChannel(rx, tx) ==> OnChannel(after, sent)
  {
    hide Paired;
  }

  /** Talking changes numbers, and what is known of the peer's; the rest of both connections stays. */
  predicate OnlyTalked(s: Session, next: Session) {
    var (e, after) := (s.server.processor, next.server.processor);
    && after.opens == e.opens
    && StaysSetUp(s.client, next.client) && StaysSetUp(e.conn, after.conn)
  }

  predicate StaysSetUp(conn: Connection, after: Connection) {
    SameSetup(after, conn.(sequenceNumber := after.sequenceNumber))
  }

  lemma RequestsArrive(s: Session, messages: seq<Outgoing>, segments: seq<Bytes>)
    requires Live(s) && s.server.processor.conn.isOpen && AllOrdinary(messages)
    requires Ask(s, messages, segments).Some?
    ensures var next := Ask(s, messages, segments).value;
            Live(next) && Gets(s, next, MailOf(s, Requests(messages, segments), next))
              && next.server.processor.conn.isOpen && OnlyTalked(s, next)
  {
    var e := s.server.processor;
    ChannelInSync(s.client, e.conn);
    hide PairedFor, Serve, FeedAll, SendAll, ReceivePackets, Carried, Paired, Inbox, NoException, Acquainted;
    StreamDelivers(e, s.client, s.clientDraw, messages, segments);
    SendAllKeeps(e.lib, s.client, s.clientDraw, messages);
    var (sent, packets) := SendAll(e.lib, s.client, s.clientDraw, messages);
    var (conn, results) := ReceivePackets(e.lib, e.conn, packets.value);
    var next := Ask(s, messages, segments).value;
    assert s.server == Protocol([], e, false);
    assert next.server == Protocol([], e.(conn := conn, results := e.results + results), false);
    StillOnChannel(s.client, e.conn, sent, conn);
    assert Acquainted(sent, conn);
    Extended(e.results, results);
    NothingMore(s.received);
  }

  lemma Extended(before: seq<Received>, more: seq<Received>)
    ensures before <= before + more && (before + more)[|before|..] == more
  {
  }

  lemma NothingMore(before: seq<Received>)
    ensures before <= before && Inbox(before[|before|..]) == [] && before[|before|..] == []
  {
  }

  lemma ResponsesArrive(s: Session, messages: seq<Outgoing>)
    requires Live(s) && s.server.processor.conn.isOpen && AllOrdinary(messages)
    requires Answer(s, messages).Some?
    ensures var next := Answer(s, messages).value;
            Live(next) && Gets(s, next, MailOf(s, Responses(messages), next)) && next.server.processor.conn.isOpen
              && OnlyTalked(s, next)
  {
    var e := s.server.processor;
    ChannelInSync(e.conn, s.client);
    hide PairedFor, Serve, FeedAll, SendAll, ReceivePackets, Carried, Paired, Inbox, NoException, Acquainted;
    EndToEndDelivery(e.lib, e.conn, s.client, e.draw, messages);
    SendAllKeeps(e.lib, e.conn, e.draw, messages);
    var (sent, packets) := SendAll(e.lib, e.conn, e.draw, messages);
    var (client, results) := ReceivePackets(e.lib, s.client, packets.value);
    StillOnChannel(e.conn, s.client, sent, client);
    assert Acquainted(client, sent);
    Extended(s.received, results);
    NothingMore(e.results);
  }

  // ----- Opening -----

  /** An open message is one packet, which the peer delivers whatever channel it is on. */
  lemma OpenDelivery(lib: Library, tx: Connection, rx: Connection, draw: nat, body: Bytes, requestId: u32, token: u32)
    requires lib.Lawful() && tx.Valid() && rx.Valid()
    requires PairedFor(tx.policy, rx.policy, SECURE_OPEN) && tx.policy.uri == rx.policy.uri && Knows(tx, rx)
    requires Send(lib, tx, draw, body, SECURE_OPEN, requestId, token).1.Ok?
    ensures var (sent, packets) := Send(lib, tx, draw, body, SECURE_OPEN, requestId, token);
            && sent == tx.(sequenceNumber := NextNumber(tx.sequenceNumber))
            && |packets.value| == 1
            && var (after, result) := ReceivePacket(lib, rx, packets.value[0]);
            && after == rx.(peerSequenceNumber := Some(sent.sequenceNumber))
            && result.Delivered? && result.message.chunks != []
            && result.message.Sealed() == Envelope(SECURE_OPEN, requestId, body)
  {
    hide Library.Lawful, ToBinary, ReceivePacket, Paired;
    var number := NextNumber(tx.sequenceNumber);
    var plain := OpenChunk(lib, tx.policy, tx.channelId, requestId, body);
    var c := plain.(sequence := plain.sequence.(sequenceNumber := number));
    NumberOne(plain, tx.sequenceNumber);
    EncodeOne(lib, tx.policy, draw, c);
    var (declared, packet) := ToBinary(lib, tx.policy.asymmetric, draw, c).value;
    assert Send(lib, tx, draw, body, SECURE_OPEN, requestId, token) == (tx.(sequenceNumber := number), Ok([packet]));
    PacketIsChunk(lib, tx.policy, rx, draw, c);
    hide Send, OpenChunk;
    ReceiveOpen(rx, declared, body, requestId, tx.sequenceNumber);
  }

  lemma NumberOne(c: MessageChunk, n: nat)
    requires n < U32_LIMIT
    ensures Number([c], n) == [c.(sequence := c.sequence.(sequenceNumber := NextNumber(n)))]
            && LastNumber(1, n) == NextNumber(n)
  {
    assert Number([], NextNumber(n)) == [] && [c][1..] == [];
  }

  lemma EncodeOne(lib: Library, policy: SecurityPolicy, draw: nat, c: MessageChunk)
    requires policy.Valid()
    ensures var b := ToBinary(lib, policy.CryptoFor(c.header.messageType), draw, c);
            EncodeAll(lib, policy, draw, [c]) == if b.Err? then Err(b.error) else Ok([b.value.1])
  {
    hide ToBinary;
    assert [c][1..] == [];
    assert EncodeAll(lib, policy, draw + 1, []) == Ok([]);
    var b := ToBinary(lib, policy.CryptoFor(c.header.messageType), draw, c);
    assert b.Ok? ==> [b.value.1] + [] == [b.value.1];
  }

  lemma ReceiveOpen(rx: Connection, c: MessageChunk, body: Bytes, requestId: u32, n: nat)
    requires n < U32_LIMIT && rx.incomingParts == []
    requires rx.peerSequenceNumber.Some? ==> rx.peerSequenceNumber.value == n
    requires c.header.messageType == SECURE_OPEN && c.header.chunkType == SINGLE && c.security.Asymmetric?
             && c.body == body
    requires c.sequence == SequenceHeader(NextNumber(n), requestId)
    ensures Receive(rx, c) == (rx.(peerSequenceNumber := Some(NextNumber(n))), Delivered(Message([c])))
    ensures Message([c]).Sealed() == Envelope(SECURE_OPEN, requestId, body)
  {
    assert [] + [c] == [c];
    assert Bodies([c]) == [body] by { assert Bodies([c][1..]) == []; }
    assert Join([body]) == body by { assert body + [] == body; }
  }

  /** What an opening needs besides a request that can be sent: the server reads it, and can answer. */
  predicate CanOpen(e: Endpoint, conn: Connection, body: Bytes, requestId: u32)
    requires conn.Valid()
  {
    var request := e.services.readRequest(body);
    request.Some? && request.value.mode == conn.policy.mode &&
    var after := Open(e.lib, conn, request.value, e.services.channelId(e.opens), e.services.nonce(e.opens));
    after.Some? && after.value.Valid() &&
    var reply := OpenReply(after.value.channelId, after.value.tokenId, e.services.nonce(e.opens));
    Send(e.lib, after.value, e.draw, e.services.writeReply(reply), SECURE_OPEN, requestId, after.value.tokenId).1.Ok?
  }

  /** The server after it has received the open message on conn, and answered. */
  function Answered(e: Endpoint, conn: Connection, body: Bytes, requestId: u32): Endpoint
    requires conn.Valid() && CanOpen(e, conn, body, requestId)
  {
    var nonce := e.services.nonce(e.opens);
    var after := Open(e.lib, conn, e.services.readRequest(body).value, e.services.channelId(e.opens), nonce).value;
    var reply := OpenReply(after.channelId, after.tokenId, nonce);
    var (last, packets) := Send(e.lib, after, e.draw, e.services.writeReply(reply), SECURE_OPEN, requestId,
                                after.tokenId);
    e.(conn := last, opens := e.opens + 1, draw := e.draw + 1, sent := e.sent + packets.value)
  }

  lemma ServeOpenIs(e: Endpoint, message: Message, body: Bytes, requestId: u32)
    requires e.conn.Valid() && message.chunks != [] && message.Sealed() == Envelope(SECURE_OPEN, requestId, body)
    ensures (ServeOpen(e, message).outcome == Continue) == CanOpen(e, e.conn, body, requestId)
    ensures CanOpen(e, e.conn, body, requestId) ==>
            ServeOpen(e, message) == Step(Answered(e, e.conn, body, requestId), Continue)
    ensures !CanOpen(e, e.conn, body, requestId) ==> ServeOpen(e, message).outcome == Raise
    ensures !CanOpen(e, e.conn, body, requestId) ==> ServeOpen(e, message).next.sent == e.sent
  {
    hide Send, Open;
  }

  /** Serving the packet of an open message is receiving it and then answering. */
  lemma ServeOpenPacket(e: Endpoint, packet: Bytes, conn: Connection, message: Message)
    requires e.conn.Valid() && ReceivePacket(e.lib, e.conn, packet) == (conn, Delivered(message))
    requires message.chunks != [] && message.MessageType() == SECURE_OPEN
    ensures IsPacket(packet)
    ensures ProcessPacket(Serve, e, packet) ==
            ServeOpen(e.(conn := conn, results := e.results + [Delivered(message)]), message)
  {
    hide HeaderFromBinary, ReceiveBody, ServeOpen;
    var h := HeaderFromBinary(packet);
    CompletedBy(e.lib, e.conn, h.value.value, h.value.rest);
  }

  /** The server's end of the stream after an open message, in any segments. */
  lemma ServerOpens(e: Endpoint, packet: Bytes, conn: Connection, message: Message, body: Bytes, requestId: u32,
                    segments: seq<Bytes>)
    requires e.conn.Valid() && conn.Valid() && ReceivePacket(e.lib, e.conn, packet) == (conn, Delivered(message))
    requires message.chunks != [] && message.Sealed() == Envelope(SECURE_OPEN, requestId, body)
    requires Join(segments) == packet
    ensures var received := e.(conn := conn, results := e.results + [Delivered(message)]);
            var end := FeedAll(Serve, Protocol([], e, false), segments);
            if CanOpen(received, conn, body, requestId)
            then end == Protocol([], Answered(received, conn, body, requestId), false)
            else end.processor.sent == e.sent
  {
    var received := e.(conn := conn, results := e.results + [Delivered(message)]);
    hide ServeOpen, CanOpen, Answered, ReceivePacket, FeedAll, Serve;
    assert message.MessageType() == SECURE_OPEN;
    ServeOpenPacket(e, packet, conn, message);
    ServeOpenIs(received, message, body, requestId);
    hide Message.Sealed, Message.MessageType;
    ServedPacket(e, packet, segments);
  }

  /** A packet on which the server goes on, or raises, in any segments. */
  lemma ServedPacket(e: Endpoint, packet: Bytes, segments: seq<Bytes>)
    requires IsPacket(packet) && Join(segments) == packet
    ensures var step := ProcessPacket(Serve, e, packet);
            && (step.outcome == Continue ==>
                FeedAll(Serve, Protocol([], e, false), segments) == Protocol([], step.next, false))
            && (step.outcome == Raise ==>
                FeedAll(Serve, Protocol([], e, false), segments) == Protocol([], step.next, false))
  {
    var step := ProcessPacket(Serve, e, packet);
    hide Serve, FeedAll, ProcessPacket;
    assert packet != [] by { assert IsPacket(packet); }
    hide IsPacket;
    assert [] + packet == packet;
    if step.outcome == Continue {
      assert Join([packet]) + [] == packet by { assert packet + [] == packet && [packet][1..] == []; }
      assert Incomplete([]);
      OneProcessed(e, packet);
      StreamOfPackets(Serve, e, [packet], [], segments);
    } else if step.outcome == Raise {
      RaisingPacket(Serve, e, [], segments);
    }
  }

  lemma OneProcessed(e: Endpoint, packet: Bytes)
    requires IsPacket(packet) && ProcessPacket(Serve, e, packet).outcome == Continue
    ensures ProcessAll(Serve, e, [packet]) == Some(ProcessPacket(Serve, e, packet).next)
  {
    assert [packet][1..] == [];
  }

  /** Both sides with the keys of one exchange. */
  lemma NewKeys(lib: Library, client: SecurityPolicy, server: SecurityPolicy, clientNonce: Bytes, serverNonce: Bytes)
    requires lib.Lawful() && client.mode == server.mode && client.keys == server.keys
    requires PairedFor(client, server, SECURE_OPEN) && PairedFor(server, client, SECURE_OPEN)
    requires client.keys.None? ==>
             PairedFor(client, server, SECURE_MESSAGE) && PairedFor(server, client, SECURE_MESSAGE)
    ensures var (c, s) := (client.Rekeyed(lib, clientNonce, serverNonce),
                           server.Rekeyed(lib, serverNonce, clientNonce));
            && PairedFor(c, s, SECURE_OPEN) && PairedFor(s, c, SECURE_OPEN)
            && PairedFor(c, s, SECURE_MESSAGE) && PairedFor(s, c, SECURE_MESSAGE)
  {
    hide Library.Lawful, SymmetricKeys;
    if client.keys.Some? {
      KeyAgreement(lib, client.keys.value, client.mode == SignAndEncrypt, clientNonce, serverNonce);
    }
  }

  /** The request as it stands once it is sent and received: the client, and the server before it answers. */
  ghost predicate Requested(s: Session, body: Bytes, requestId: u32, client: Connection, packet: Bytes,
                            conn: Connection, message: Message)
    requires s.client.Valid() && s.server.processor.conn.Valid()
  {
    var e := s.server.processor;
    && Send(e.lib, s.client, s.clientDraw, body, SECURE_OPEN, requestId, s.client.tokenId) == (client, Ok([packet]))
    && client == s.client.(sequenceNumber := client.sequenceNumber) && client.Valid()
    && ReceivePacket(e.lib, e.conn, packet) == (conn, Delivered(message))
    && conn == e.conn.(peerSequenceNumber := Some(client.sequenceNumber))
    && message.chunks != [] && message.Sealed() == Envelope(SECURE_OPEN, requestId, body)
  }

  lemma RequestArrives(s: Session, body: Bytes, requestId: u32)
    returns (client: Connection, packet: Bytes, conn: Connection, message: Message)
    requires Live(s)
    requires Send(s.server.processor.lib, s.client, s.clientDraw, body, SECURE_OPEN, requestId, s.client.tokenId).1.Ok?
    ensures Requested(s, body, requestId, client, packet, conn, message)
  {
    var e := s.server.processor;
    hide PairedFor, ReceivePacket, Send;
    OpenDelivery(e.lib, s.client, e.conn, s.clientDraw, body, requestId, s.client.tokenId);
    var sending := Send(e.lib, s.client, s.clientDraw, body, SECURE_OPEN, requestId, s.client.tokenId);
    client, packet := sending.0, sending.1.value[0];
    assert sending.1.value == [packet];
    var receiving := ReceivePacket(e.lib, e.conn, packet);
    conn, message := receiving.0, receiving.1.message;
  }

  /** The server has received the client's open message and not answered it. */
  predicate Heard(client: Connection, conn: Connection) {
    && client.Valid() && conn.Valid()
    && PairedFor(client.policy, conn.policy, SECURE_OPEN) && PairedFor(conn.policy, client.policy, SECURE_OPEN)
    && client.policy.uri == conn.policy.uri && client.policy.mode == conn.policy.mode
       && client.policy.keys == conn.policy.keys
    && (client.policy.keys.None? ==>
          PairedFor(client.policy, conn.policy, SECURE_MESSAGE)
            && PairedFor(conn.policy, client.policy, SECURE_MESSAGE))
    && client.incomingParts == [] && conn.incomingParts == [] && conn.peerSequenceNumber == Some(client.sequenceNumber)
    && Knows(conn, client)
  }

  lemma RequestIsHeard(s: Session, body: Bytes, requestId: u32, client: Connection, packet: Bytes, conn: Connection,
                       message: Message)
    requires Live(s) && Requested(s, body, requestId, client, packet, conn, message)
    ensures Heard(client, conn)
  {
    hide PairedFor, Send, ReceivePacket, OnChannel;
  }

  /** What the client gets, and where both are once it follows. */
  ghost predicate AnswerIs(e: Endpoint, client: Connection, conn: Connection, body: Bytes, requestId: u32,
                           reply: OpenReply, answered: Connection, answer: Message)
    requires client.Valid() && conn.Valid() && CanOpen(e, conn, body, requestId) && e.services.readRequest(body).Some?
  {
    var after := Answered(e, conn, body, requestId);
    && |after.sent| == |e.sent| + 1 && e.sent <= after.sent
    && reply == OpenReply(after.conn.channelId, after.conn.tokenId, e.services.nonce(e.opens))
    && ReceivePackets(e.lib, client, after.sent[|e.sent|..]) == (answered, [Delivered(answer)])
    && answer.chunks != [] && answer.Sealed() == Envelope(SECURE_OPEN, requestId, e.services.writeReply(reply))
    && OnChannel(Follow(e.lib, answered, e.services.readRequest(body).value.nonce, reply), after.conn)
       && after.conn.isOpen
  }

  /** The answer to an opening reaches the client, and both are on the channel with the new keys. */
  lemma AnswerArrives(e: Endpoint, client: Connection, conn: Connection, body: Bytes, requestId: u32)
    returns (reply: OpenReply, answered: Connection, answer: Message)
    requires Heard(client, conn) && CanOpen(e, conn, body, requestId)
    ensures e.services.readRequest(body).Some? && AnswerIs(e, client, conn, body, requestId, reply, answered, answer)
  {
    var open := CanOpenGives(e, conn, body, requestId);
    var request, serverNonce := e.services.readRequest(body).value, e.services.nonce(e.opens);
    hide CanOpen, Answered;
    reply := OpenReply(open.channelId, open.tokenId, serverNonce);
    OpenedSame(e.lib, conn, request, e.services.channelId(e.opens), serverNonce);
    hide Open, PairedFor, ReceivePacket, ReceivePackets, Send, Library.Lawful, Message.Sealed, OnChannel;
    SameAsymmetric(client.policy, conn.policy, open.policy);
    var sending := Send(e.lib, open, e.draw, e.services.writeReply(reply), SECURE_OPEN, requestId, open.tokenId);
    OpenDelivery(e.lib, open, client, e.draw, e.services.writeReply(reply), requestId, open.tokenId);
    var last, packet2 := sending.0, sending.1.value[0];
    var receiving := ReceivePacket(e.lib, client, packet2);
    answered, answer := receiving.0, receiving.1.message;
    assert sending.1.value == [packet2];
    OneReceived(e.lib, client, packet2);
    AnsweredIs(e, conn, body, requestId, open, last, packet2);
    Joined(e.lib, client, conn, open, last, answered, request.nonce, reply);
  }

  lemma CanOpenGives(e: Endpoint, conn: Connection, body: Bytes, requestId: u32) returns (open: Connection)
    requires conn.Valid() && CanOpen(e, conn, body, requestId)
    ensures e.services.readRequest(body).Some?
    ensures Open(e.lib, conn, e.services.readRequest(body).value, e.services.channelId(e.opens),
                 e.services.nonce(e.opens)) == Some(open)
    ensures open.Valid() && open.isOpen
    ensures var reply := OpenReply(open.channelId, open.tokenId, e.services.nonce(e.opens));
            Send(e.lib, open, e.draw, e.services.writeReply(reply), SECURE_OPEN, requestId, open.tokenId).1.Ok?
  {
    open := Open(e.lib, conn, e.services.readRequest(body).value, e.services.channelId(e.opens),
                 e.services.nonce(e.opens)).value;
    hide Send;
  }

  lemma AnsweredIs(e: Endpoint, conn: Connection, body: Bytes, requestId: u32, open: Connection, last: Connection,
                   packet: Bytes)
    requires conn.Valid() && CanOpen(e, conn, body, requestId)
    requires Open(e.lib, conn, e.services.readRequest(body).value, e.services.channelId(e.opens),
                  e.services.nonce(e.opens)) == Some(open)
    requires var reply := OpenReply(open.channelId, open.tokenId, e.services.nonce(e.opens));
             Send(e.lib, open, e.draw, e.services.writeReply(reply), SECURE_OPEN, requestId, open.tokenId) ==
               (last, Ok([packet]))
    ensures var after := Answered(e, conn, body, requestId);
            && after.conn == last && after.sent == e.sent + [packet] && after.sent[|e.sent|..] == [packet]
  {
    hide Open, Send;
  }

  /** With the new keys and the channel taken over, the two sides are on it. */
  lemma Joined(lib: Library, client: Connection, conn: Connection, open: Connection, last: Connection,
               answered: Connection,
               clientNonce: Bytes, reply: OpenReply)
    requires lib.Lawful() && client.Valid() && last.Valid()
    requires PairedFor(client.policy, conn.policy, SECURE_OPEN) && PairedFor(conn.policy, client.policy, SECURE_OPEN)
    requires client.policy.uri == conn.policy.uri && client.policy.mode == conn.policy.mode
             && client.policy.keys == conn.policy.keys
    requires client.policy.keys.None? ==>
               PairedFor(client.policy, conn.policy, SECURE_MESSAGE)
                 && PairedFor(conn.policy, client.policy, SECURE_MESSAGE)
    requires client.incomingParts == [] && conn.incomingParts == []
             && conn.peerSequenceNumber == Some(client.sequenceNumber)
    requires open == conn.(isOpen := true, channelId := open.channelId, tokenId := open.tokenId,
                           oldTokens := open.oldTokens,
                           policy := conn.policy.Rekeyed(lib, reply.nonce, clientNonce))
    requires last == open.(sequenceNumber := last.sequenceNumber) && last.sequenceNumber < U32_LIMIT
    requires answered == client.(peerSequenceNumber := Some(last.sequenceNumber))
    requires reply.channelId == open.channelId && reply.tokenId == open.tokenId
    ensures OnChannel(Follow(lib, answered, clientNonce, reply), last)
  {
    NewKeys(lib, client.policy, conn.policy, clientNonce, reply.nonce);
    RekeyedSame(lib, client.policy, clientNonce, reply.nonce);
    RekeyedSame(lib, conn.policy, reply.nonce, clientNonce);
    hide PairedFor, SecurityPolicy.Rekeyed, Library.Lawful;
  }

  lemma RekeyedSame(lib: Library, policy: SecurityPolicy, nonce1: Bytes, nonce2: Bytes)
    requires lib.Lawful() && policy.Valid()
    ensures var rekeyed := policy.Rekeyed(lib, nonce1, nonce2);
            rekeyed == policy.(symmetric := rekeyed.symmetric) && rekeyed.Valid()
  {
    hide Library.Lawful;
  }

  lemma OneReceived(lib: Library, conn: Connection, packet: Bytes)
    requires conn.Valid()
    ensures var (after, result) := ReceivePacket(lib, conn, packet);
            ReceivePackets(lib, conn, [packet]) == (after, [result])
  {
    var (after, result) := ReceivePacket(lib, conn, packet);
    hide ReceivePacket;
    assert [packet][1..] == [] && ReceivePackets(lib, after, []) == (after, []);
    assert [result] + [] == [result];
  }

  lemma OpenedSame(lib: Library, conn: Connection, request: OpenRequest, newChannelId: u32, nonce: Bytes)
    requires lib.Lawful() && Open(lib, conn, request, newChannelId, nonce).Some?
    ensures var open := Open(lib, conn, request, newChannelId, nonce).value;
            && open == conn.(isOpen := true, channelId := open.channelId, tokenId := open.tokenId,
                             oldTokens := open.oldTokens,
                             policy := conn.policy.Rekeyed(lib, nonce, request.nonce))
            && open.policy == conn.policy.(symmetric := open.policy.symmetric)
  {
    hide Library.Lawful, SymmetricKeys;
  }

  lemma SameAsymmetric(client: SecurityPolicy, server: SecurityPolicy, rekeyed: SecurityPolicy)
    requires PairedFor(client, server, SECURE_OPEN) && PairedFor(server, client, SECURE_OPEN)
    requires rekeyed == server.(symmetric := rekeyed.symmetric) && rekeyed.Valid()
    ensures PairedFor(rekeyed, client, SECURE_OPEN) && PairedFor(client, rekeyed, SECURE_OPEN)
  {
    hide Paired;
  }

  /** What the server has received from the client does not matter for that. */
  lemma CanOpenSame(e: Endpoint, received: Endpoint, conn: Connection, body: Bytes, requestId: u32)
    requires e.conn.Valid() && conn == e.conn.(peerSequenceNumber := conn.peerSequenceNumber)
    requires received == e.(conn := conn, results := received.results)
    ensures CanOpen(received, conn, body, requestId) == CanOpen(e, e.conn, body, requestId)
    ensures CanOpen(received, conn, body, requestId) == CanOpen(e, conn, body, requestId)
    ensures CanOpen(received, conn, body, requestId) ==>
              Answered(received, conn, body, requestId) ==
                Answered(e, conn, body, requestId).(results := received.results)
  {
    hide Library.Lawful, MessageToChunks, EncodeAll, Number;
  }

  lemma ConcludeNothing(s: Session, client: Connection, nonce: Bytes, server: Protocol<Endpoint>)
    requires client.Valid() && server.processor.sent == s.server.processor.sent
    ensures Conclude(s, client, nonce, server) == None
  {
    hide ReceivePacket;
    var sent := s.server.processor.sent;
    assert sent[|sent|..] == [];
  }

  /** The case where the server answers. */
  lemma OpeningSucceeds(s: Session, body: Bytes, requestId: u32, client: Connection, packet: Bytes, conn: Connection,
                        message: Message)
    returns (answer: Message, next: Session)
    requires Live(s) && Requested(s, body, requestId, client, packet, conn, message)
    requires s.server.processor.services.Lawful() && CanOpen(s.server.processor, conn, body, requestId)
    ensures var e := s.server.processor;
            var after := Answered(e, conn, body, requestId).(results := e.results + [Delivered(message)]);
            && Conclude(s, client, e.services.readRequest(body).value.nonce, Protocol([], after, false)) == Some(next)
            && OnChannel(next.client, after.conn) && after.conn.isOpen
            && next.server == Protocol([], after, false)
            && next.received == s.received + [Delivered(answer)]
            && answer.chunks != []
            && answer.Sealed() == Envelope(SECURE_OPEN, requestId, e.services.writeReply(
                 OpenReply(after.conn.channelId, after.conn.tokenId, e.services.nonce(e.opens))))
  {
    var e := s.server.processor;
    var nonce := e.services.readRequest(body).value.nonce;
    hide Requested, CanOpen, Answered, OnChannel, Acquainted, Library.Lawful, ReceivePackets, Message.Sealed, Follow;
    var reply, answered;
    RequestIsHeard(s, body, requestId, client, packet, conn, message);
    reply, answered, answer := AnswerArrives(e, client, conn, body, requestId);
    var after := Answered(e, conn, body, requestId).(results := e.results + [Delivered(message)]);
    SealedBody(answer);
    hide Live, Message.Body, Conclude;
    ConcludeOne(s, client, nonce, Protocol([], after, false), answered, answer, reply);
    next := Session(Follow(e.lib, answered, nonce, reply), s.clientDraw + 1, s.received + [Delivered(answer)],
                    Protocol([], after, false));
  }

  lemma ConcludeOne(s: Session, client: Connection, nonce: Bytes, server: Protocol<Endpoint>,
                    answered: Connection, answer: Message, reply: OpenReply)
    requires client.Valid() && s.server.processor.sent <= server.processor.sent
    requires ReceivePackets(s.server.processor.lib, client, server.processor.sent[|s.server.processor.sent|..]) ==
             (answered, [Delivered(answer)])
    requires s.server.processor.services.readReply(answer.Body()) == Some(reply)
    ensures Conclude(s, client, nonce, server) ==
            Some(Session(Follow(s.server.processor.lib, answered, nonce, reply), s.clientDraw + 1,
                         s.received + [Delivered(answer)], server))
  {
    hide ReceivePackets, Follow, Message.Body;
  }

  lemma SealedBody(m: Message)
    requires m.chunks != []
    ensures m.Body() == m.Sealed().body
  {
  }

  lemma GetsOpening(s: Session, next: Session, request: OpenRequest, requestId: u32, segments: seq<Bytes>,
                    message: Message, answer: Message)
    requires s.client.Valid() && s.server.processor.conn.Valid()
    requires var (e, after) := (s.server.processor, next.server.processor);
             && after.lib == e.lib && after.services == e.services
             && after.results == e.results + [Delivered(message)]
             && next.received == s.received + [Delivered(answer)]
             && message.chunks != [] && answer.chunks != []
             && message.Sealed() == Envelope(SECURE_OPEN, requestId, e.services.writeRequest(request))
             && answer.Sealed() == Envelope(SECURE_OPEN, requestId, e.services.writeReply(
                  OpenReply(after.conn.channelId, after.conn.tokenId, e.services.nonce(e.opens))))
    ensures Gets(s, next, MailOf(s, Opening(request, requestId, segments), next))
  {
    Extended(s.server.processor.results, [Delivered(message)]);
    Extended(s.received, [Delivered(answer)]);
    InboxSingle(message);
    InboxSingle(answer);
  }

  lemma InboxSingle(m: Message)
    requires m.chunks != []
    ensures Inbox([Delivered(m)]) == [m.Sealed()]
  {
    assert [Delivered(m)][1..] == [] && Inbox([]) == [];
    assert [m.Sealed()] + [] == [m.Sealed()];
  }

  /**
   An opening completes exactly when the request can be sent, the segments are its bytes, and the server
   agrees with its mode and can answer; then both sides are on the channel of the answer, with one token
   and each other's new keys.
   */
  lemma OpeningCompletes(s: Session, request: OpenRequest, requestId: u32, segments: seq<Bytes>)
    requires Live(s) && s.server.processor.services.Lawful()
    ensures var next := OpenRound(s, request, requestId, segments);
            var e := s.server.processor;
            var body := e.services.writeRequest(request);
            var sent := Send(e.lib, s.client, s.clientDraw, body, SECURE_OPEN, requestId, s.client.tokenId).1;
            && (next.Some? <==> sent.Ok? && Join(segments) == Join(sent.value) && CanOpen(e, e.conn, body, requestId))
            && (next.Some? ==>
                  && Live(next.value) && next.value.server.processor.conn.isOpen
                  && Gets(s, next.value, MailOf(s, Opening(request, requestId, segments), next.value)))
  {
    var e := s.server.processor;
    var sent := Send(e.lib, s.client, s.clientDraw, e.services.writeRequest(request), SECURE_OPEN, requestId,
                     s.client.tokenId).1;
    hide Send, Conclude, FeedAll, CanOpen, Gets, Live, Library.Lawful;
    if sent.Ok? && Join(segments) == Join(sent.value) {
      SentOpeningCompletes(s, request, requestId, segments);
    }
  }

  lemma SentOpeningCompletes(s: Session, request: OpenRequest, requestId: u32, segments: seq<Bytes>)
    requires Live(s) && s.server.processor.services.Lawful()
    requires var e := s.server.processor;
             var body := e.services.writeRequest(request);
             var sent := Send(e.lib, s.client, s.clientDraw, body, SECURE_OPEN, requestId, s.client.tokenId).1;
             sent.Ok? && Join(segments) == Join(sent.value)
    ensures var next := OpenRound(s, request, requestId, segments);
            var e := s.server.processor;
            && (next.Some? <==> CanOpen(e, e.conn, e.services.writeRequest(request), requestId))
            && (next.Some? ==>
                  && Live(next.value) && next.value.server.processor.conn.isOpen
                  && Gets(s, next.value, MailOf(s, Opening(request, requestId, segments), next.value)))
  {
    var e := s.server.processor;
    var body := e.services.writeRequest(request);
    var client, packet, conn, message := RequestArrives(s, body, requestId);
    var received := e.(conn := conn, results := e.results + [Delivered(message)]);
    assert Join([packet]) == packet by { assert packet + [] == packet && [packet][1..] == []; }
    CanOpenSame(e, received, conn, body, requestId);
    assert conn.Valid();
    hide Send, ReceivePacket, ReceivePackets, FeedAll, Serve, Library.Lawful, OnChannel, Message.Sealed, Conclude,
         Answered;
    hide CanOpen, Gets, Acquainted;
    ServerOpens(e, packet, conn, message, body, requestId, segments);
    assert s.server == Protocol([], e, false);
    var server := FeedAll(Serve, s.server, segments);
    assert OpenRound(s, request, requestId, segments) == Conclude(s, client, request.nonce, server);
    if CanOpen(e, conn, body, requestId) {
      var answer, next := OpeningSucceeds(s, body, requestId, client, packet, conn, message);
      assert server == next.server;
      AnsweredKeeps(e, conn, body, requestId);
      GetsOpening(s, next, request, requestId, segments, message, answer);
      ChannelAcquainted(next.client, next.server.processor.conn);
    } else {
      ConcludeNothing(s, client, request.nonce, server);
    }
  }

  lemma ChannelAcquainted(client: Connection, server: Connection)
    requires OnChannel(client, server)
    ensures Acquainted(client, server)
  {
  }

  lemma AnsweredKeeps(e: Endpoint, conn: Connection, body: Bytes, requestId: u32)
    requires conn.Valid() && CanOpen(e, conn, body, requestId)
    ensures var after := Answered(e, conn, body, requestId);
            after.lib == e.lib && after.services == e.services
  {
  }

  // ----- Whole sessions -----

  lemma RoundDelivers(s: Session, r: Round)
    requires Live(s) && s.server.processor.services.Lawful() && Play(s, r).Some?
    ensures var next := Play(s, r).value;
            Live(next) && next.server.processor.conn.isOpen && Gets(s, next, MailOf(s, r, next))
  {
    hide Live, Ask, Answer, OpenRound, Gets, Library.Lawful;
    match r
    case Requests(messages, segments) => RequestsArrive(s, messages, segments);
    case Responses(messages) => ResponsesArrive(s, messages);
    case Opening(request, requestId, segments) => OpeningCompletes(s, request, requestId, segments);
  }

  /**
   Every session that can be played, from the first opening on or from any channel that is open, with
   renewals and new channels in between and the bytes cut anywhere: each side receives exactly the
   other's messages, once and in order, nothing raises, no byte waits, and both sides agree at the end.
   */
  lemma {:induction false} SessionDelivers(s: Session, rounds: seq<Round>)
    requires Live(s) && s.server.processor.services.Lawful() && PlayAll(s, rounds).Some?
    ensures var end := PlayAll(s, rounds).value;
            Live(end) && Gets(s, end, AllMail(s, rounds))
    ensures rounds != [] ==> PlayAll(s, rounds).value.server.processor.conn.isOpen
    decreases |rounds|
  {
    assert s.client.Valid() && s.server.processor.conn.Valid();
    hide Live, Play, Gets, MailOf;
    if rounds == [] {
      GetsNothing(s);
    } else {
      RoundDelivers(s, rounds[0]);
      var next := Play(s, rounds[0]).value;
      GetsKeeps(s, next, MailOf(s, rounds[0], next));
      SessionDelivers(next, rounds[1..]);
      var end := PlayAll(next, rounds[1..]).value;
      GetsBoth(s, next, end, MailOf(s, rounds[0], next), AllMail(next, rounds[1..]));
    }
  }

  lemma GetsKeeps(s: Session, next: Session, mail: Mail)
    requires Gets(s, next, mail)
    ensures next.server.processor.services == s.server.processor.services
            && next.server.processor.lib == s.server.processor.lib
  {
  }

  // ----- Closing -----

  /** The packets of a close message: the server goes on up to the last, and closes on it. */
  lemma CloseArrives(e: Endpoint, packets: seq<Bytes>, envelope: Envelope)
      returns (front: seq<Bytes>, last: Bytes, before: Endpoint)
    requires e.conn.Valid() && envelope.messageType == SECURE_CLOSE
    requires DeliversLast(ReceivePackets(e.lib, e.conn, packets).1, |packets|, envelope)
    ensures packets == front + [last] && (forall p | p in front :: IsPacket(p)) && IsPacket(last)
    ensures ProcessAll(Serve, e, front) == Some(before)
    ensures var (conn, results) := ReceivePackets(e.lib, e.conn, packets);
            ProcessPacket(Serve, before, last) ==
            Step(e.(conn := conn.(isOpen := false), results := e.results + results), Close)
  {
    var n := |packets| - 1;
    front, last := packets[..n], packets[n];
    assert packets == front + [last];
    ReceiveAppend(e.lib, e.conn, front, [last]);
    var (middle, first) := ReceivePackets(e.lib, e.conn, front);
    OneReceived(e.lib, middle, last);
    var (conn, result) := ReceivePacket(e.lib, middle, last);
    var results := ReceivePackets(e.lib, e.conn, packets).1;
    assert results == first + [result];
    hide ReceivePacket, ReceivePackets, Serve, IsPacket, Message.Sealed, ProcessAll;
    assert forall i | 0 <= i < |first| :: first[i] == results[i];
    ServePackets(e, front);
    before := e.(conn := middle, results := e.results + first);
    assert result == results[n];
    ServeClosePacket(before, last, conn, result);
    assert e.results + first + [result] == e.results + results;
  }

  lemma ServeClosePacket(e: Endpoint, packet: Bytes, conn: Connection, result: Received)
    requires e.conn.Valid() && ReceivePacket(e.lib, e.conn, packet) == (conn, result)
    requires result.Delivered? && result.message.chunks != [] && result.message.Sealed().messageType == SECURE_CLOSE
    ensures IsPacket(packet)
    ensures ProcessPacket(Serve, e, packet) ==
            Step(e.(conn := conn.(isOpen := false), results := e.results + [result]), Close)
  {
    hide HeaderFromBinary, ReceiveBody;
    var h := HeaderFromBinary(packet);
    CompletedBy(e.lib, e.conn, h.value.value, h.value.rest);
  }

  lemma JoinedBytes(packets: seq<Bytes>, front: seq<Bytes>, last: Bytes, tail: Bytes)
    ensures Join(packets) + Join(front + [last]) + tail == Join(packets + front) + last + tail
  {
    JoinAppend(front, [last]);
    JoinAppend(packets, front);
    assert Join([last]) == last by { assert last + [] == last && [last][1..] == []; }
    hide Join;
    Regrouped(Join(packets), Join(front), last, tail);
  }

  lemma Regrouped(a: Bytes, b: Bytes, c: Bytes, d: Bytes)
    ensures a + (b + c) + d == a + b + c + d
  {
  }

  /** The bytes of a conversation, of a close message and of anything after it, in any segments. */
  lemma CloseStream(e: Endpoint, packets: seq<Bytes>, closing: seq<Bytes>, conn: Connection, results: seq<Received>,
                    envelope: Envelope, tail: Bytes, segments: seq<Bytes>)
    requires e.conn.Valid() && conn.Valid() && (forall p | p in packets :: IsPacket(p))
    requires ProcessAll(Serve, e, packets) == Some(e.(conn := conn, results := e.results + results))
    requires envelope.messageType == SECURE_CLOSE
             && DeliversLast(ReceivePackets(e.lib, conn, closing).1, |closing|, envelope)
    requires Join(segments) == Join(packets) + Join(closing) + tail
    ensures var (last, more) := ReceivePackets(e.lib, conn, closing);
            FeedAll(Serve, Protocol([], e, false), segments) ==
            Protocol([], e.(conn := last.(isOpen := false), results := e.results + results + more), true)
  {
    hide ReceivePackets, Serve, IsPacket, ProcessAll, FeedAll, DeliversLast;
    var talked := e.(conn := conn, results := e.results + results);
    var front, last, before := CloseArrives(talked, closing, envelope);
    ProcessAppend(Serve, e, packets, front);
    JoinedBytes(packets, front, last, tail);
    StreamUntilClose(Serve, e, packets + front, last, tail, segments);
  }

  /** The bytes of these messages and of a close message after them. */
  function ClosingBytes(lib: LawfulLibrary, client: Connection, draw: nat, messages: seq<Outgoing>, close: Outgoing)
    : Option<Bytes>
    requires client.Valid() && AllOrdinary(messages) && close.messageType == SECURE_CLOSE
  {
    var (after, packets) := SendAll(lib, client, draw, messages);
    if packets.Err? || !after.Valid() || !close.Carried(after) then None
    else
      var last := SendOne(lib, after, draw + |messages|, close).1;
      if last.Err? then None else Some(Join(packets.value) + Join(last.value))
  }

  ghost predicate Ends(e: Endpoint, end: Protocol<Endpoint>, mail: seq<Envelope>) {
    && end.closed && end.data == [] && !end.processor.conn.isOpen
    && e.results <= end.processor.results
    && Inbox(end.processor.results[|e.results|..]) == mail
    && forall r | r in end.processor.results[|e.results|..] :: NoException(r)
  }

  /**
   The close message that ends a conversation, with anything after it, in any segments: everything
   before it and the message itself are delivered, and the connection is closed.
   */
  lemma SessionCloses(s: Session, messages: seq<Outgoing>, close: Outgoing, tail: Bytes, segments: seq<Bytes>)
    requires Live(s) && s.server.processor.conn.isOpen && AllOrdinary(messages) && close.messageType == SECURE_CLOSE
    requires var bytes := ClosingBytes(s.server.processor.lib, s.client, s.clientDraw, messages, close);
             bytes.Some? && Join(segments) == bytes.value + tail
    ensures Ends(s.server.processor, FeedAll(Serve, s.server, segments), Carried(s.client, messages) + [close.Sealed()])
  {
    var e := s.server.processor;
    ChannelInSync(s.client, e.conn);
    assert s.server == Protocol([], e, false);
    hide Live, FeedAll, Ends, InSync, OnChannel, Library.Lawful, ClosingBytes;
    TalkThenClose(e, s.client, s.clientDraw, messages, close, tail, segments);
  }

  lemma TalkThenClose(e: Endpoint, tx: Connection, draw: nat, messages: seq<Outgoing>, close: Outgoing, tail: Bytes,
                      segments: seq<Bytes>)
    requires InSync(tx, e.conn) && AllOrdinary(messages) && close.messageType == SECURE_CLOSE
    requires var bytes := ClosingBytes(e.lib, tx, draw, messages, close);
             bytes.Some? && Join(segments) == bytes.value + tail
    ensures Ends(e, FeedAll(Serve, Protocol([], e, false), segments), Carried(tx, messages) + [close.Sealed()])
  {
    hide SendAll, SendOne, Serve, ReceivePackets, FeedAll, Inbox, NoException, Carried, ProcessAll;
    hide Library.Lawful, DeliversLast, Outgoing.Carried, Outgoing.Sealed, Ends, PairedPolicies;
    TalkPackets(e, tx, draw, messages);
    var (client, packets) := SendAll(e.lib, tx, draw, messages);
    var (conn, results) := ReceivePackets(e.lib, e.conn, packets.value);
    var closing := SendOne(e.lib, client, draw + |messages|, close).1.value;
    MessageDelivery(e.lib, client, conn, draw + |messages|, close);
    hide ClosingBytes;
    CloseStream(e, packets.value, closing, conn, results, SealedClose(close), tail, segments);
    var (last, more) := ReceivePackets(e.lib, conn, closing);
    CloseMail(e.results, results, Carried(tx, messages), more, |closing|, close.Sealed());
    ItEnds(e, last, e.results + results + more, FeedAll(Serve, Protocol([], e, false), segments),
           Carried(tx, messages) + [close.Sealed()]);
  }

  function SealedClose(close: Outgoing): (e: Envelope)
    requires close.messageType == SECURE_CLOSE
    ensures e == close.Sealed() && e.messageType == SECURE_CLOSE
  {
    close.Sealed()
  }

  lemma ItEnds(e: Endpoint, last: Connection, all: seq<Received>, end: Protocol<Endpoint>, mail: seq<Envelope>)
    requires end == Protocol([], e.(conn := last.(isOpen := false), results := all), true)
    requires e.results <= all && Inbox(all[|e.results|..]) == mail && forall r | r in all[|e.results|..] ::
             NoException(r)
    ensures Ends(e, end, mail)
  {
  }

  lemma CloseMail(before: seq<Received>, results: seq<Received>, mail: seq<Envelope>, more: seq<Received>, count: nat,
                  envelope: Envelope)
    requires Inbox(results) == mail && forall r | r in results :: NoException(r)
    requires DeliversLast(more, count, envelope)
    ensures var all := before + results + more;
            && before <= all && Inbox(all[|before|..]) == mail + [envelope]
            && forall r | r in all[|before|..] :: NoException(r)
  {
    hide Inbox, NoException;
    InboxOfOne(more, count, envelope);
    InboxAppend(results, more);
    assert before + results + more == before + (results + more);
    Extended(before, results + more);
    LastRaisesNothing(more, count, envelope);
  }

  lemma LastRaisesNothing(results: seq<Received>, count: nat, envelope: Envelope)
    requires DeliversLast(results, count, envelope)
    ensures forall r | r in results :: NoException(r)
  {
    forall r | r in results
      ensures NoException(r)
    {
      var i :| 0 <= i < |results| && results[i] == r;
    }
  }

  // ----- The old channel -----

  /** Once the server is on another channel, every message of the old one raises and changes nothing. */
  lemma OldChannelRaises(lib: Library, conn: Connection, packet: Bytes)
    requires conn.Valid() && HeaderFromBinary(packet).Ok?
    requires var header := HeaderFromBinary(packet).value.value;
             header.messageType in {SECURE_MESSAGE, SECURE_CLOSE} && header.channelId != conn.channelId
    ensures ReceivePacket(lib, conn, packet).0 == conn && ReceivePacket(lib, conn, packet).1.Raised?
  {
  }
}
