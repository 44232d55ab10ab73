/** The two layers together: messages sent on one side, TCP segments in between, messages on the other. */
module StreamDelivery {
  import opened Wrappers
  import opened Bytes
  import opened Crypto
  import opened Lawful
  import opened Chunk
  import opened Channel
  import opened Delivery
  import opened Conversation
  import opened Framing

  /** The codec of the open request and response, and the server's source of channel ids and nonces. */
  datatype Services = Services(
    writeRequest: OpenRequest -> Bytes,
    readRequest: Bytes -> Option<OpenRequest>,
    writeReply: OpenReply -> Bytes,
    readReply: Bytes -> Option<OpenReply>,
    channelId: nat -> u32,
    nonce: nat -> Bytes)
  {
    /** Each side reads what the other wrote. */
    ghost predicate Lawful() {
      && (forall r :: readRequest(writeRequest(r)) == Some(r))
      && (forall r :: readReply(writeReply(r)) == Some(r))
    }
  }

  /** The server's processor: its connection, what each packet gave, and the packets it has written. */
  datatype Endpoint = Endpoint(
    lib: LawfulLibrary, services: Services, conn: Connection,
    results: seq<Received>, opens: nat, draw: nat, sent: seq<Bytes>)

  /**
   UaProcessor.process for the secure messages. What the application sends in answer to a request
   is sent in steps of its own; it is taken to return True.
   */
  function Serve(e: Endpoint, header: Header, body: Bytes): Step<Endpoint> {
    if !e.conn.Valid() then Step(e, Raise)
    else
      var (conn, result) := ReceiveBody(e.lib, e.conn, header, body);
      var received := e.(conn := conn, results := e.results + [result]);
      match result
      case Raised(_) => Step(received, Raise)
      case Nothing => Step(received, Continue)
      case Delivered(message) =>
        if header.messageType == SECURE_CLOSE then Step(received.(conn := conn.(isOpen := false)), Close)
        else if header.messageType == SECURE_OPEN then ServeOpen(received, message)
        else Step(received, Continue)
  }

  /** open_secure_channel: the channel changes first, then the answer is sent over it. */
  function ServeOpen(e: Endpoint, message: Message): Step<Endpoint>
    requires message.chunks != []
  {
    var request := e.services.readRequest(message.Body());
    if request.None? || request.value.mode != e.conn.policy.mode then Step(e, Raise)
    else
      var nonce := e.services.nonce(e.opens);
      var renewed := Open(e.lib, e.conn, request.value, e.services.channelId(e.opens), nonce);
      if renewed.None? || !renewed.value.Valid() then Step(e, Raise)
      else
        var reply := OpenReply(renewed.value.channelId, renewed.value.tokenId, nonce);
        var (conn, packets) := Send(e.lib, renewed.value, e.draw, e.services.writeReply(reply), SECURE_OPEN,
                                    message.RequestId(), renewed.value.tokenId);
        var next := e.(conn := conn, opens := e.opens + 1, draw := e.draw + 1);
        if packets.Err? then Step(next, Raise) else Step(next.(sent := e.sent + packets.value), Continue)
  }

  predicate KeepsTalking(r: Received) {
    r == Nothing || (r.Delivered? && r.message.chunks != [] && r.message.MessageType() == SECURE_MESSAGE)
  }

  /** A packet whose result is no exception is complete, and serving it is receiving it. */
  lemma ServePacket(e: Endpoint, packet: Bytes)
    requires e.conn.Valid()
    requires KeepsTalking(ReceivePacket(e.lib, e.conn, packet).1)
    ensures IsPacket(packet)
    ensures var (conn, result) := ReceivePacket(e.lib, e.conn, packet);
            ProcessPacket(Serve, e, packet) == Step(e.(conn := conn, results := e.results + [result]), Continue)
  {
    hide HeaderFromBinary, ReceiveBody;
    var h := HeaderFromBinary(packet);
    assert h.Ok? && h.value.value.bodySize == |h.value.rest|;
    CompletedBy(e.lib, e.conn, h.value.value, h.value.rest);
  }

  /** A delivered message carries the type of the packet that completed it. */
  lemma CompletedBy(lib: Library, conn: Connection, header: Header, body: Bytes)
    requires conn.Valid()
    ensures var r := ReceiveBody(lib, conn, header, body).1;
            r.Delivered? ==> r.message.chunks != [] && r.message.MessageType() == header.messageType
  {
    hide FromHeaderAndBody;
  }

  lemma {:induction false} ServePackets(e: Endpoint, packets: seq<Bytes>)
    requires e.conn.Valid()
    requires forall r | r in ReceivePackets(e.lib, e.conn, packets).1 :: KeepsTalking(r)
    ensures forall p | p in packets :: IsPacket(p)
    ensures var (conn, results) := ReceivePackets(e.lib, e.conn, packets);
            ProcessAll(Serve, e, packets) == Some(e.(conn := conn, results := e.results + results))
    decreases |packets|
  {
    hide ReceivePacket, Serve, IsPacket;
    if packets == [] {
      assert e.results + [] == e.results;
    } else {
      var (conn, result) := ReceivePacket(e.lib, e.conn, packets[0]);
      var (_, others) := ReceivePackets(e.lib, conn, packets[1..]);
      assert ReceivePackets(e.lib, e.conn, packets).1 == [result] + others;
      assert result in [result] + others && forall r | r in others :: r in [result] + others;
      ServePacket(e, packets[0]);
      ServePackets(e.(conn := conn, results := e.results + [result]), packets[1..]);
      assert e.results + [result] + others == e.results + ([result] + others);
      assert packets == [packets[0]] + packets[1..];
    }
  }

  /**
   Requests over a byte stream: the packets of any messages, in any segments, give the server each
   carried message once and in order, and leave nothing waiting.
   */
  lemma StreamDelivers(e: Endpoint, tx: Connection, draw: nat, messages: seq<Outgoing>, segments: seq<Bytes>)
    requires InSync(tx, e.conn)
    requires forall m | m in messages :: m.messageType == SECURE_MESSAGE
    requires SendAll(e.lib, tx, draw, messages).1.Ok?
    requires Join(segments) == Join(SendAll(e.lib, tx, draw, messages).1.value)
    ensures var (sent, packets) := SendAll(e.lib, tx, draw, messages);
            var (conn, results) := ReceivePackets(e.lib, e.conn, packets.value);
            && FeedAll(Serve, Protocol([], e, false), segments) ==
               Protocol([], e.(conn := conn, results := e.results + results), false)
            && Agree(tx, e.conn, sent, conn, results, Carried(tx, messages))
  {
    hide SendAll, ReceivePackets, Serve, Inbox, PairedPolicies, Carried, Drain, FeedAll;
    var packets := SendAll(e.lib, tx, draw, messages).1.value;
    TalkPackets(e, tx, draw, messages);
    var (conn, results) := ReceivePackets(e.lib, e.conn, packets);
    assert Join(packets) + [] == Join(packets);
    assert Incomplete([]);
    StreamOfPackets(Serve, e, packets, [], segments);
  }

  /** What serving the packets of ordinary messages does, before any framing. */
  lemma TalkPackets(e: Endpoint, tx: Connection, draw: nat, messages: seq<Outgoing>)
    requires InSync(tx, e.conn)
    requires forall m | m in messages :: m.messageType == SECURE_MESSAGE
    requires SendAll(e.lib, tx, draw, messages).1.Ok?
    ensures var (sent, packets) := SendAll(e.lib, tx, draw, messages);
            var (conn, results) := ReceivePackets(e.lib, e.conn, packets.value);
            && (forall p | p in packets.value :: IsPacket(p))
            && ProcessAll(Serve, e, packets.value) == Some(e.(conn := conn, results := e.results + results))
            && Agree(tx, e.conn, sent, conn, results, Carried(tx, messages))
  {
    hide SendAll, ReceivePackets, Serve, Inbox, PairedPolicies, Carried, IsPacket, ProcessAll;
    var packets := SendAll(e.lib, tx, draw, messages).1.value;
    EndToEndDelivery(e.lib, tx, e.conn, draw, messages);
    var (conn, results) := ReceivePackets(e.lib, e.conn, packets);
    CarriedTypes(tx, messages);
    InboxTypes(results, Carried(tx, messages));
    ServePackets(e, packets);
  }

  lemma {:induction false} CarriedTypes(tx: Connection, messages: seq<Outgoing>)
    requires tx.Valid() && forall m | m in messages :: m.messageType == SECURE_MESSAGE
    ensures forall e | e in Carried(tx, messages) :: e.messageType == SECURE_MESSAGE
  {
    hide MaxBodySize;
    if messages != [] {
      CarriedTypes(tx, messages[1..]);
    }
  }

  lemma {:induction false} InboxTypes(results: seq<Received>, inbox: seq<Envelope>)
    requires Inbox(results) == inbox && forall r | r in results :: NoException(r)
    requires forall e | e in inbox :: e.messageType == SECURE_MESSAGE
    ensures forall r | r in results :: KeepsTalking(r)
  {
    if results != [] {
      var first, others := results[0], Inbox(results[1..]);
      assert results == [first] + results[1..] && NoException(first);
      if first.Delivered? {
        assert inbox == [first.message.Sealed()] + others;
        assert first.message.Sealed() in inbox;
      } else {
        assert inbox == others;
      }
      assert forall e | e in others :: e in inbox;
      InboxTypes(results[1..], others);
    }
  }
}
