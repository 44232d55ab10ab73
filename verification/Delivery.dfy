/** What a paired peer makes of the packets that one endpoint sends. */
module Delivery {
  import opened Wrappers
  import opened Bytes
  import opened Crypto
  import opened Chunk
  import opened Channel

  /** One packet as receive_from_socket reads it: a header, then the body it declares. */
  function ReceivePacket(lib: Library, conn: Connection, packet: Bytes): (r: (Connection, Received))
    requires conn.Valid()
    ensures SameSetup(r.0, conn)
  {
    var h := HeaderFromBinary(packet);
    if h.Err? then (conn, Raised(h.error))
    else if |h.value.rest| != h.value.value.bodySize then (conn, Raised(UaError))
    else ReceiveBody(lib, conn, h.value.value, h.value.rest)
  }

  function ReceivePackets(lib: Library, conn: Connection, packets: seq<Bytes>): (r: (Connection, seq<Received>))
    requires conn.Valid()
    ensures SameSetup(r.0, conn)
    ensures |r.1| == |packets|
    decreases |packets|
  {
    if packets == [] then (conn, [])
    else
      var (next, first) := ReceivePacket(lib, conn, packets[0]);
      var (last, others) := ReceivePackets(lib, next, packets[1..]);
      (last, [first] + others)
  }

  lemma {:induction false} ReceiveAppend(lib: Library, conn: Connection, a: seq<Bytes>, b: seq<Bytes>)
    requires conn.Valid()
    ensures var (middle, first) := ReceivePackets(lib, conn, a);
            var (last, second) := ReceivePackets(lib, middle, b);
            ReceivePackets(lib, conn, a + b) == (last, first + second)
    decreases |a|
  {
    hide ReceivePacket;
    if a == [] {
      assert a + b == b && [] + ReceivePackets(lib, conn, b).1 == ReceivePackets(lib, conn, b).1;
    } else {
      assert (a + b)[0] == a[0] && (a + b)[1..] == a[1..] + b;
      var (next, first) := ReceivePacket(lib, conn, a[0]);
      ReceiveAppend(lib, next, a[1..], b);
      var (middle, others) := ReceivePackets(lib, next, a[1..]);
      assert [first] + (others + ReceivePackets(lib, middle, b).1) ==
             [first] + others + ReceivePackets(lib, middle, b).1;
    }
  }

  /** Every packet but the last yields nothing; the last yields the whole message. */
  predicate DeliversLast(results: seq<Received>, count: nat, envelope: Envelope) {
    && |results| == count > 0
    && (forall i | 0 <= i < count - 1 :: results[i] == Nothing)
    && results[count - 1].Delivered?
    && var message := results[count - 1].message;
    && message.chunks != [] && message.Sealed() == envelope
  }

  predicate IsChunkOf(c: MessageChunk, messageType: Tag, channelId: u32, requestId: u32, final: bool) {
    && c.header.messageType == messageType
    && (c.security.Symmetric? ==> c.header.channelId == channelId)
    && c.sequence.requestId == requestId
    && c.header.chunkType == if final then SINGLE else INTERMEDIATE
  }

  predicate AreChunksOf(chunks: seq<MessageChunk>, messageType: Tag, channelId: u32, requestId: u32) {
    chunks != [] && forall i | 0 <= i < |chunks| ::
      IsChunkOf(chunks[i], messageType, channelId, requestId, i == |chunks| - 1)
  }

  // ----- From packets to chunks -----

  function ReceiveChunks(conn: Connection, chunks: seq<MessageChunk>): (r: (Connection, seq<Received>))
    ensures |r.1| == |chunks|
    decreases |chunks|
  {
    if chunks == [] then (conn, [])
    else
      var (next, first) := Receive(conn, chunks[0]);
      var (last, others) := ReceiveChunks(next, chunks[1..]);
      (last, [first] + others)
  }

  /** The chunks as their headers declare them once they have been encoded. */
  function Declared(lib: Library, tx: SecurityPolicy, draw: nat, chunks: seq<MessageChunk>)
    : (declared: seq<MessageChunk>)
    requires tx.Valid() && EncodeAll(lib, tx, draw, chunks).Ok?
    ensures |declared| == |chunks|
    decreases |chunks|
  {
    if chunks == [] then []
    else
      [ToBinary(lib, tx.CryptoFor(chunks[0].header.messageType), draw, chunks[0]).value.0]
      + Declared(lib, tx, draw + 1, chunks[1..])
  }

  predicate Readable(policy: SecurityPolicy, c: MessageChunk) {
    c.Valid() && (c.security.Asymmetric? ==> c.security.policyUri == Some(policy.uri))
  }

  predicate SameButSize(a: MessageChunk, b: MessageChunk) {
    a == b.(header := b.header.(bodySize := a.header.bodySize))
  }

  /** A paired peer reads one packet as the chunk that was encoded. */
  lemma PacketIsChunk(lib: Library, tx: SecurityPolicy, conn: Connection, draw: nat, c: MessageChunk)
    requires lib.Lawful() && conn.Valid() && PairedFor(tx, conn.policy, c.header.messageType)
    requires Readable(conn.policy, c)
    requires ToBinary(lib, tx.CryptoFor(c.header.messageType), draw, c).Ok?
    ensures var (declared, packet) := ToBinary(lib, tx.CryptoFor(c.header.messageType), draw, c).value;
            SameButSize(declared, c) && ReceivePacket(lib, conn, packet) == Receive(conn, declared)
  {
    hide ToBinary, FromHeaderAndBody, HeaderFromBinary, PacketSize, Library.Lawful;
    var (declared, packet) := ToBinary(lib, tx.CryptoFor(c.header.messageType), draw, c).value;
    ChunkRoundTrip(lib, tx, conn.policy, draw, c, []);
    assert packet + [] == packet && packet[HEADER_SIZE..] + [] == packet[HEADER_SIZE..];
    if c.security.Asymmetric? {
      OpenPolicyMatches(lib, conn.policy, declared, packet[HEADER_SIZE..]);
    }
  }

  lemma OpenPolicyMatches(lib: Library, policy: SecurityPolicy, c: MessageChunk, data: Bytes)
    requires policy.Valid() && c.security.Asymmetric? && c.header.messageType == SECURE_OPEN
    requires FromHeaderAndBody(lib, policy, c.header, data) == Ok(c)
    ensures OpensPolicy(policy, data) <==> c.security.policyUri == Some(policy.uri)
  {
  }

  lemma {:induction false} PacketsAreChunks(lib: Library, tx: SecurityPolicy, conn: Connection, draw: nat,
                                            chunks: seq<MessageChunk>)
    requires lib.Lawful() && conn.Valid() && PairedPolicies(tx, conn.policy)
    requires forall i | 0 <= i < |chunks| :: Readable(conn.policy, chunks[i])
    requires EncodeAll(lib, tx, draw, chunks).Ok?
    ensures forall i | 0 <= i < |chunks| :: SameButSize(Declared(lib, tx, draw, chunks)[i], chunks[i])
    ensures ReceivePackets(lib, conn, EncodeAll(lib, tx, draw, chunks).value) ==
            ReceiveChunks(conn, Declared(lib, tx, draw, chunks))
    decreases |chunks|
  {
    if chunks != [] {
      assert tx.Valid();
      hide ToBinary, Library.Lawful, ReceivePacket, Receive, FromHeaderAndBody, Readable, SameButSize, Paired;
      var packets := EncodeAll(lib, tx, draw, chunks).value;
      PacketIsChunk(lib, tx, conn, draw, chunks[0]);
      var (next, first) := ReceivePacket(lib, conn, packets[0]);
      PacketsAreChunks(lib, tx, next, draw + 1, chunks[1..]);
      assert packets[1..] == EncodeAll(lib, tx, draw + 1, chunks[1..]).value;
    }
  }

  // ----- Chunks of one message -----

  /** The peer has seen number n last (or nothing), and holds no part of another request. */
  predicate ReadyFor(conn: Connection, n: nat, requestId: u32) {
    && conn.Valid() && n < U32_LIMIT
    && (conn.peerSequenceNumber.Some? ==> conn.peerSequenceNumber.value == n)
    && (conn.incomingParts != [] ==> conn.incomingParts[0].sequence.requestId == requestId)
  }

  predicate Numbered(chunks: seq<MessageChunk>, n: nat)
    requires n < U32_LIMIT
  {
    chunks != [] ==> chunks[0].sequence.sequenceNumber == NextNumber(n) && Numbered(chunks[1..], NextNumber(n))
  }

  /** The next chunk is accepted: it joins the parts, or completes them. */
  lemma AcceptNext(conn: Connection, c: MessageChunk, n: nat, messageType: Tag, requestId: u32, final: bool)
    requires ReadyFor(conn, n, requestId) && IsChunkOf(c, messageType, conn.channelId, requestId, final)
    requires c.sequence.sequenceNumber == NextNumber(n)
    ensures var (next, result) := Receive(conn, c);
            var parts := conn.incomingParts + [c];
            && next == conn.(peerSequenceNumber := Some(NextNumber(n)), incomingParts := if final then [] else parts,
                             oldTokens := next.oldTokens)
            && result == (if final then Delivered(Message(parts)) else Nothing)
            && parts[0].sequence.requestId == requestId
  {
  }

  /** All chunks of one message arrive, after parts that may already be waiting. */
  lemma {:induction false} DeliverChunks(conn: Connection, chunks: seq<MessageChunk>, n: nat, messageType: Tag,
                                         requestId: u32)
    requires ReadyFor(conn, n, requestId) && AreChunksOf(chunks, messageType, conn.channelId, requestId)
             && Numbered(chunks, n)
    ensures var (after, results) := ReceiveChunks(conn, chunks);
            && after == conn.(peerSequenceNumber := Some(LastNumber(|chunks|, n)), incomingParts := [],
                              oldTokens := after.oldTokens)
            && DeliversLast(results, |chunks|,
                            Envelope(messageType, requestId, Join(Bodies(conn.incomingParts)) + Join(Bodies(chunks))))
    decreases |chunks|
  {
    var c := chunks[0];
    var whole := Envelope(messageType, requestId, Join(Bodies(conn.incomingParts)) + Join(Bodies(chunks)));
    AcceptNext(conn, c, n, messageType, requestId, |chunks| == 1);
    hide Receive, Follows;
    var (next, first) := Receive(conn, c);
    JoinedBodies(conn.incomingParts, c);
    if |chunks| == 1 {
      assert chunks == [c] && Join(Bodies([c])) == c.body by { assert c.body + [] == c.body; }
      assert ReceiveChunks(next, chunks[1..]) == (next, []) && [first] + [] == [first];
    } else {
      DeliverChunks(next, chunks[1..], NextNumber(n), messageType, requestId);
      Associative(Join(Bodies(conn.incomingParts)), c.body, Join(Bodies(chunks[1..])));
      var (after, others) := ReceiveChunks(next, chunks[1..]);
      assert ReceiveChunks(conn, chunks) == (after, [first] + others);
      assert DeliversLast(others, |chunks| - 1, whole);
      hide ReceiveChunks, AreChunksOf, Bodies;
      DeliversLater(first, others, whole);
    }
  }

  lemma DeliversLater(first: Received, others: seq<Received>, envelope: Envelope)
    requires first == Nothing && DeliversLast(others, |others|, envelope)
    ensures DeliversLast([first] + others, 1 + |others|, envelope)
  {
  }

  lemma JoinedBodies(parts: seq<MessageChunk>, c: MessageChunk)
    ensures Join(Bodies(parts + [c])) == Join(Bodies(parts)) + c.body
  {
    BodiesAppend(parts, [c]);
    JoinAppend(Bodies(parts), [c.body]);
    assert Bodies([c]) == [c.body] && Join([c.body]) == c.body by { assert c.body + [] == c.body; }
  }

  lemma {:induction false} BodiesAppend(a: seq<MessageChunk>, b: seq<MessageChunk>)
    ensures Bodies(a + b) == Bodies(a) + Bodies(b)
  {
    if a == [] {
      assert a + b == b;
    } else {
      assert (a + b)[1..] == a[1..] + b;
      BodiesAppend(a[1..], b);
    }
  }

  /** Receiver rx stands where sender tx left off, with no parts pending. */
  predicate InSync(tx: Connection, rx: Connection) {
    && tx.Valid() && rx.Valid()
    && PairedPolicies(tx.policy, rx.policy)
    && tx.channelId == rx.channelId
    && rx.incomingParts == []
    && (rx.peerSequenceNumber.Some? ==> rx.peerSequenceNumber.value == tx.sequenceNumber)
  }

  /** A request to send: the algorithm header's token may be an older one. */
  datatype Outgoing = Outgoing(body: Bytes, messageType: Tag, requestId: u32, token: u32) {
    predicate Valid() {
      IsSecure(messageType)
    }

    function Sealed(): Envelope {
      Envelope(messageType, requestId, body)
    }

    /** Whether the sender cuts it into at least one chunk. */
    predicate Carried(tx: Connection)
      requires tx.Valid()
    {
      messageType == SECURE_OPEN || (body != [] && MaxBodySize(tx.policy.symmetric, tx.maxChunkSize) > 0)
    }
  }

  function SendOne(lib: Library, tx: Connection, draw: nat, m: Outgoing): (Connection, Result<seq<Bytes>, Error>)
    requires lib.Lawful() && tx.Valid() && m.Valid()
  {
    Send(lib, tx, draw, m.body, m.messageType, m.requestId, m.token)
  }

  /**
   A message that was sent without an exception arrives exactly once with its type, body
   and request id exactly when it is carried; otherwise no packet leaves and it is lost.
   */
  lemma MessageDelivery(lib: Library, tx: Connection, rx: Connection, draw: nat, m: Outgoing)
    requires lib.Lawful() && InSync(tx, rx) && m.Valid()
    requires SendOne(lib, tx, draw, m).1.Ok?
    ensures var (sent, packets) := SendOne(lib, tx, draw, m);
            var (after, results) := ReceivePackets(lib, rx, packets.value);
            && InSync(sent, after)
            && sent.policy == tx.policy && sent.maxChunkSize == tx.maxChunkSize
            && (m.Carried(tx) ==>
                  && DeliversLast(results, |packets.value|, m.Sealed())
                  && after.peerSequenceNumber == Some(sent.sequenceNumber))
            && (!m.Carried(tx) ==> packets.value == [] && sent == tx && after == rx)
  {
    hide Library.Lawful, EncodeAll, MaxBodySize, Paired;
    var (sent, packets) := SendOne(lib, tx, draw, m);
    var chunks := MessageToChunks(lib, tx.policy, m.body, tx.maxChunkSize, m.messageType, tx.channelId, m.requestId,
                                  m.token).value;
    var numbered := Number(chunks, tx.sequenceNumber);
    EncodeAllLength(lib, tx.policy, draw, numbered);
    if m.Carried(tx) {
      ChunksOfMessage(lib, tx, rx, m, chunks);
      NumberKeeps(chunks, tx.sequenceNumber);
      PacketsAreChunks(lib, tx.policy, rx, draw, numbered);
      var declared := Declared(lib, tx.policy, draw, numbered);
      DeclaredKeeps(numbered, declared, tx.sequenceNumber);
      DeliverChunks(rx, declared, tx.sequenceNumber, m.messageType, m.requestId);
      assert [] + m.body == m.body;
    } else {
      assert chunks == [] && numbered == [];
    }
  }

  lemma {:induction false} NumberKeeps(chunks: seq<MessageChunk>, n: nat)
    requires n < U32_LIMIT
    ensures Bodies(Number(chunks, n)) == Bodies(chunks) && Numbered(Number(chunks, n), n)
    ensures forall i | 0 <= i < |chunks| ::
              var number := Number(chunks, n)[i].sequence.sequenceNumber;
              Number(chunks, n)[i] == chunks[i].(sequence := chunks[i].sequence.(sequenceNumber := number))
  {
    if chunks != [] {
      NumberKeeps(chunks[1..], NextNumber(n));
    }
  }

  lemma {:induction false} DeclaredKeeps(chunks: seq<MessageChunk>, declared: seq<MessageChunk>, n: nat)
    requires n < U32_LIMIT && Numbered(chunks, n) && |declared| == |chunks|
    requires forall i | 0 <= i < |chunks| :: SameButSize(declared[i], chunks[i])
    ensures Numbered(declared, n) && Bodies(declared) == Bodies(chunks)
    decreases |chunks|
  {
    if chunks != [] {
      DeclaredKeeps(chunks[1..], declared[1..], NextNumber(n));
    }
  }

  lemma {:induction false} EncodeAllLength(lib: Library, policy: SecurityPolicy, draw: nat, chunks: seq<MessageChunk>)
    requires policy.Valid()
    ensures EncodeAll(lib, policy, draw, chunks).Ok? ==> |EncodeAll(lib, policy, draw, chunks).value| == |chunks|
    decreases |chunks|
  {
    hide ToBinary;
    if chunks != [] {
      EncodeAllLength(lib, policy, draw + 1, chunks[1..]);
    }
  }

  lemma ChunksOfMessage(lib: Library, tx: Connection, rx: Connection, m: Outgoing, chunks: seq<MessageChunk>)
    requires lib.Lawful() && InSync(tx, rx) && m.Valid() && m.Carried(tx)
    requires MessageToChunks(lib, tx.policy, m.body, tx.maxChunkSize, m.messageType, tx.channelId, m.requestId,
                             m.token) == Ok(chunks)
    ensures Join(Bodies(chunks)) == m.body && AreChunksOf(chunks, m.messageType, rx.channelId, m.requestId)
    ensures forall i | 0 <= i < |chunks| :: Readable(rx.policy, chunks[i])
  {
    hide Library.Lawful, MaxBodySize, Paired;
    if m.messageType == SECURE_OPEN {
      assert Bodies(chunks) == [m.body] && Join([m.body]) == m.body by { assert m.body + [] == m.body; }
    } else {
      SplitIsChunks(rx.policy, m.body, MaxBodySize(tx.policy.symmetric, tx.maxChunkSize), m.messageType, tx.channelId,
                    m.token, m.requestId);
    }
  }

  lemma SplitIsChunks(policy: SecurityPolicy, body: Bytes, maxSize: nat, messageType: Tag, channelId: u32, token: u32,
                      requestId: u32)
    requires maxSize > 0 && body != [] && messageType in {SECURE_MESSAGE, SECURE_CLOSE}
    ensures var chunks := SplitBody(body, maxSize, messageType, channelId, token, requestId);
            && Join(Bodies(chunks)) == body && AreChunksOf(chunks, messageType, channelId, requestId)
            && forall i | 0 <= i < |chunks| :: Readable(policy, chunks[i])
  {
    var chunks := SplitBody(body, maxSize, messageType, channelId, token, requestId);
    assert chunks != [];
    SplitBodyKeepsBody(body, maxSize, messageType, channelId, token, requestId);
    forall i | 0 <= i < |chunks|
      ensures IsChunkOf(chunks[i], messageType, channelId, requestId, i == |chunks| - 1) && Readable(policy, chunks[i])
    {
      SplitBodyParts(body, maxSize, messageType, channelId, token, requestId, i);
    }
  }
}
