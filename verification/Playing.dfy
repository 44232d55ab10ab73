/** When a session can be played: exactly which rounds are possible, and that nothing else stops one. */
module Playing {
  import opened Wrappers
  import opened Bytes
  import opened Crypto
  import opened Chunk
  import opened Channel
  import opened Delivery
  import opened Conversation
  import opened Framing
  import opened StreamDelivery
  import opened Session

  // ----- Sending -----

  /** The padding of an open message fits its one byte, and its packet the size field. */
  predicate OpenFits(lib: Library, policy: SecurityPolicy, body: Bytes)
    requires lib.Lawful() && policy.Valid()
  {
    var crypto := policy.asymmetric;
    && (crypto.IsEncrypted() ==> crypto.PaddingByte(SEQUENCE_HEADER_SIZE + |body|) <= 255)
    && PacketSize(crypto, OpenChunk(lib, policy, 0, 0, body)) < U32_LIMIT
  }

  /** An open message is sent exactly when it fits; anything else raises. */
  lemma OpenSendSucceeds(lib: Library, tx: Connection, draw: nat, body: Bytes, requestId: u32, token: u32)
    requires lib.Lawful() && tx.Valid()
    ensures Send(lib, tx, draw, body, SECURE_OPEN, requestId, token).1.Ok? <==> OpenFits(lib, tx.policy, body)
  {
    hide Library.Lawful, ToBinary;
    var plain := OpenChunk(lib, tx.policy, tx.channelId, requestId, body);
    var c := plain.(sequence := plain.sequence.(sequenceNumber := NextNumber(tx.sequenceNumber)));
    NumberOne(plain, tx.sequenceNumber);
    EncodeOne(lib, tx.policy, draw, c);
    ToBinarySucceeds(lib, tx.policy.asymmetric, draw, c);
  }

  function Room(conn: Connection): int
    requires conn.Valid()
  {
    MaxBodySize(conn.policy.symmetric, conn.maxChunkSize)
  }

  /** Ordinary messages are sent exactly when there is none, or room for a body byte, or less than none. */
  lemma {:induction false} SendAllExactly(lib: Library, tx: Connection, draw: nat, messages: seq<Outgoing>)
    requires lib.Lawful() && tx.Valid() && tx.policy.symmetric.PlainBlockSize() <= 256 && AllOrdinary(messages)
    ensures SendAll(lib, tx, draw, messages).1.Ok? <==> messages == [] || Room(tx) != 0
    decreases |messages|
  {
    hide Library.Lawful, MaxBodySize, SendOne;
    if messages != [] {
      SymmetricSendSucceeds(lib, tx, draw, messages[0]);
      SendKeeps(lib, tx, draw, messages[0]);
      SendAllExactly(lib, SendOne(lib, tx, draw, messages[0]).0, draw + 1, messages[1..]);
    }
  }

  // ----- Opening -----

  /** The token that the server would give. */
  function NextToken(l: Ledger, request: OpenRequest): nat {
    (if !l.isOpen || request.issue then TOKEN_BASE else l.tokenId) + 1
  }

  function ReplyTo(services: Services, l: Ledger, request: OpenRequest): OpenReply
    requires NextToken(l, request) < U32_LIMIT
  {
    OpenReply(if !l.isOpen || request.issue then services.channelId(l.opens) else l.channelId,
              NextToken(l, request), services.nonce(l.opens))
  }

  /** What decides about the rounds of a session and changes in them. */
  datatype Ledger = Ledger(isOpen: bool, channelId: u32, tokenId: u32, opens: nat, clientRoom: int, serverRoom: int)

  function LedgerOf(s: Session): Ledger
    requires s.client.Valid() && s.server.processor.conn.Valid()
  {
    var e := s.server.processor;
    Ledger(e.conn.isOpen, e.conn.channelId, e.conn.tokenId, e.opens, Room(s.client), Room(e.conn))
  }

  /** The server agrees with the mode, has a token left, and the answer fits. */
  predicate Agrees(e: Endpoint, l: Ledger, request: OpenRequest)
    requires e.conn.Valid()
  {
    && request.mode == e.conn.policy.mode
    && NextToken(l, request) < U32_LIMIT
    && OpenFits(e.lib, e.conn.policy, e.services.writeReply(ReplyTo(e.services, l, request)))
  }

  /** What the server opens is what the ledger says. */
  lemma OpenGives(s: Session, request: OpenRequest)
    requires s.client.Valid() && s.server.processor.conn.Valid()
    ensures var e := s.server.processor;
            var (nonce, l) := (e.services.nonce(e.opens), LedgerOf(s));
            var open := Open(e.lib, e.conn, request, e.services.channelId(e.opens), nonce);
            && (open.Some? <==> NextToken(l, request) < U32_LIMIT)
            && (open.Some? ==>
                  && open.value.Valid() && open.value.isOpen && open.value.maxChunkSize == e.conn.maxChunkSize
                  && OpenReply(open.value.channelId, open.value.tokenId, nonce) == ReplyTo(e.services, l, request)
                  && open.value.policy == e.conn.policy.Rekeyed(e.lib, nonce, request.nonce)
                  && open.value.policy == e.conn.policy.(symmetric := open.value.policy.symmetric))
  {
    var e := s.server.processor;
    RekeyedSame(e.lib, e.conn.policy, e.services.nonce(e.opens), request.nonce);
    hide Library.Lawful, SecurityPolicy.Rekeyed, Room;
  }

  lemma OpenFitsSame(lib: Library, policy: SecurityPolicy, symmetric: Cryptography, body: Bytes)
    requires lib.Lawful() && policy.Valid() && symmetric.Valid()
    ensures OpenFits(lib, policy.(symmetric := symmetric), body) == OpenFits(lib, policy, body)
  {
    hide Library.Lawful, PacketSize;
  }

  lemma CanOpenExactly(s: Session, request: OpenRequest, requestId: u32)
    requires s.client.Valid() && s.server.processor.conn.Valid() && s.server.processor.services.Lawful()
    ensures var e := s.server.processor;
            CanOpen(e, e.conn, e.services.writeRequest(request), requestId) <==> Agrees(e, LedgerOf(s), request)
  {
    hide Library.Lawful, Send, OpenFits, Open, LedgerOf, NextToken, ReplyTo;
    var e := s.server.processor;
    OpenGives(s, request);
    var open := Open(e.lib, e.conn, request, e.services.channelId(e.opens), e.services.nonce(e.opens));
    if open.Some? {
      var body := e.services.writeReply(ReplyTo(e.services, LedgerOf(s), request));
      OpenFitsSame(e.lib, e.conn.policy, open.value.policy.symmetric, body);
      OpenSendSucceeds(e.lib, open.value, e.draw, body, requestId, open.value.tokenId);
    }
  }

  /** The room that the lengths of the derived keys leave; before there are keys it stays. */
  function RoomAfter(conn: Connection, room: int): int {
    match conn.policy.keys
    case None => room
    case Some(lengths) =>
      var plain := conn.maxChunkSize - HEADER_SIZE - SYMMETRIC_HEADER_SIZE;
      var block := lengths.Sizes()[1];
      var room := if conn.policy.mode == SignAndEncrypt then plain / block * block - 1 else plain;
      room - SEQUENCE_HEADER_SIZE - SHA1_SIZE
  }

  lemma RekeyedRoom(lib: Library, conn: Connection, after: Connection, nonce1: Bytes, nonce2: Bytes)
    requires lib.Lawful() && conn.Valid() && after.Valid()
    requires after.policy == conn.policy.Rekeyed(lib, nonce1, nonce2) && after.maxChunkSize == conn.maxChunkSize
    ensures Room(after) == RoomAfter(conn, Room(conn))
    ensures conn.policy.symmetric.PlainBlockSize() <= 256 ==> after.policy.symmetric.PlainBlockSize() <= 256
  {
    hide Library.Lawful, DerivedKeys;
  }

  // ----- Rounds -----

  /** The round is possible: the segments are left to the transport. */
  predicate Allowed(s: Session, l: Ledger, r: Round)
    requires s.client.Valid() && s.server.processor.conn.Valid()
  {
    match r
    case Requests(messages, _) => l.isOpen && AllOrdinary(messages) && (messages == [] || l.clientRoom != 0)
    case Responses(messages) => l.isOpen && AllOrdinary(messages) && (messages == [] || l.serverRoom != 0)
    case Opening(request, _, _) =>
      var e := s.server.processor;
      OpenFits(e.lib, s.client.policy, e.services.writeRequest(request)) && Agrees(e, l, request)
  }

  function After(s: Session, l: Ledger, r: Round): Ledger
    requires s.client.Valid() && s.server.processor.conn.Valid() && Allowed(s, l, r)
  {
    match r
    case Requests(_, _) => l
    case Responses(_) => l
    case Opening(request, _, _) =>
      var e := s.server.processor;
      var reply := ReplyTo(e.services, l, request);
      Ledger(true, reply.channelId, reply.tokenId, l.opens + 1,
             RoomAfter(s.client, l.clientRoom), RoomAfter(e.conn, l.serverRoom))
  }

  /** The bytes that the client sends in the round. */
  function Wire(s: Session, r: Round): Bytes
    requires s.client.Valid()
  {
    var e := s.server.processor;
    match r
    case Requests(messages, _) =>
      if AllOrdinary(messages) then Written(SendAll(e.lib, s.client, s.clientDraw, messages).1) else []
    case Responses(_) => []
    case Opening(request, requestId, _) =>
      Written(Send(e.lib, s.client, s.clientDraw, e.services.writeRequest(request), SECURE_OPEN, requestId,
                   s.client.tokenId).1)
  }

  function Written(packets: Result<seq<Bytes>, Error>): Bytes {
    if packets.Ok? then Join(packets.value) else []
  }

  predicate SegmentsAre(s: Session, r: Round)
    requires s.client.Valid()
  {
    r.Responses? || Join(r.segments) == Wire(s, r)
  }

  /** No block is longer than the one byte of padding can fill, as with every derived key. */
  predicate ShortBlocks(s: Session)
    requires s.client.Valid() && s.server.processor.conn.Valid()
  {
    && s.client.policy.symmetric.PlainBlockSize() <= 256
    && s.server.processor.conn.policy.symmetric.PlainBlockSize() <= 256
  }

  /** Exactly when a round can be played. */
  lemma RoundPlays(s: Session, r: Round)
    requires Live(s) && ShortBlocks(s) && s.server.processor.services.Lawful()
    ensures Play(s, r).Some? <==> Allowed(s, LedgerOf(s), r) && SegmentsAre(s, r)
  {
    hide Library.Lawful, Live, SendAll, Send, FeedAll, Agrees, CanOpen, ReceivePackets, OpenFits, Room, Conclude;
    assert s.client.Valid() && s.server.processor.conn.Valid() by { LiveIsValid(s); }
    var e := s.server.processor;
    match r
    case Requests(messages, segments) =>
      if AllOrdinary(messages) {
        SendAllExactly(e.lib, s.client, s.clientDraw, messages);
      }
    case Responses(messages) =>
      if AllOrdinary(messages) {
        SendAllExactly(e.lib, e.conn, e.draw, messages);
      }
    case Opening(request, requestId, segments) =>
      hide OpenRound;
      OpenSendSucceeds(e.lib, s.client, s.clientDraw, e.services.writeRequest(request), requestId, s.client.tokenId);
      CanOpenExactly(s, request, requestId);
      OpeningCompletes(s, request, requestId, segments);
  }

  lemma LiveIsValid(s: Session)
    requires Live(s)
    ensures s.client.Valid() && s.server.processor.conn.Valid()
  {
    hide PairedFor, OnChannel;
  }

  // ----- What a round leaves -----

  /** What no round changes. */
  ghost predicate SameTerms(s: Session, next: Session)
    requires s.client.Valid() && s.server.processor.conn.Valid()
  {
    var (e, after) := (s.server.processor, next.server.processor);
    && after.lib == e.lib && after.services == e.services
    && SameSide(s.client, next.client) && SameSide(e.conn, after.conn)
  }

  predicate SameSide(conn: Connection, after: Connection) {
    && after.Valid() && after.maxChunkSize == conn.maxChunkSize
    && after.policy == conn.policy.(symmetric := after.policy.symmetric)
  }

  ghost predicate Leaves(s: Session, next: Session, l: Ledger)
    requires s.client.Valid() && s.server.processor.conn.Valid()
  {
    SameTerms(s, next) && ShortBlocks(next) && LedgerOf(next) == l
  }

  lemma TalkLeaves(s: Session, next: Session, mail: Mail)
    requires Live(s) && Live(next) && ShortBlocks(s)
    requires OnlyTalked(s, next) && Gets(s, next, mail)
    ensures Leaves(s, next, LedgerOf(s))
  {
    LiveIsValid(next);
    hide Live, Inbox, NoException, MaxBodySize, Cryptography.PlainBlockSize;
  }

  /** The server's end once it has answered. */
  lemma AnsweredOpens(e: Endpoint, conn: Connection, body: Bytes, requestId: u32, open: Connection)
    requires conn.Valid() && CanOpen(e, conn, body, requestId)
    requires Open(e.lib, conn, e.services.readRequest(body).value, e.services.channelId(e.opens),
                  e.services.nonce(e.opens)) == Some(open)
    ensures var after := Answered(e, conn, body, requestId);
            after.opens == e.opens + 1 && after.conn == open.(sequenceNumber := after.conn.sequenceNumber)
              && after.conn.Valid()
  {
    var reply := OpenReply(open.channelId, open.tokenId, e.services.nonce(e.opens));
    SendKeeps(e.lib, open, e.draw, Outgoing(e.services.writeReply(reply), SECURE_OPEN, requestId, open.tokenId));
    hide Open, Send, Library.Lawful;
  }

  lemma ServerAfterOpening(s: Session, request: OpenRequest, requestId: u32, segments: seq<Bytes>)
    requires Live(s) && s.server.processor.services.Lawful()
    requires OpenRound(s, request, requestId, segments).Some?
    ensures var (e, after) := (s.server.processor, OpenRound(s, request, requestId, segments).value.server.processor);
            var open := Open(e.lib, e.conn, request, e.services.channelId(e.opens), e.services.nonce(e.opens));
            && open.Some? && after.opens == e.opens + 1 && after.conn.Valid()
            && after.conn == open.value.(sequenceNumber := after.conn.sequenceNumber,
                                         peerSequenceNumber := after.conn.peerSequenceNumber)
  {
    OpeningCompletes(s, request, requestId, segments);
    hide Gets, MailOf, OnChannel, ReceivePackets, FeedAll, Serve, Library.Lawful, Message.Sealed, PairedFor;
    var e := s.server.processor;
    var body := e.services.writeRequest(request);
    var client, packet, conn, message := RequestArrives(s, body, requestId);
    var received := e.(conn := conn, results := e.results + [Delivered(message)]);
    assert Join([packet]) == packet by { assert packet + [] == packet && [packet][1..] == []; }
    CanOpenSame(e, received, conn, body, requestId);
    assert conn.Valid();
    var open := CanOpenGives(received, conn, body, requestId);
    AnsweredOpens(received, conn, body, requestId, open);
    hide Send, ReceivePacket, Conclude, Answered, CanOpen, Acquainted, SecurityPolicy.Rekeyed;
    ServerOpens(e, packet, conn, message, body, requestId, segments);
    assert s.server == Protocol([], e, false);
    assert OpenRound(s, request, requestId, segments) ==
           Conclude(s, client, request.nonce, FeedAll(Serve, s.server, segments));
    ConcludeKeepsServer(s, client, request.nonce, FeedAll(Serve, s.server, segments));
  }

  lemma ConcludeKeepsServer(s: Session, client: Connection, nonce: Bytes, server: Protocol<Endpoint>)
    requires client.Valid() && Conclude(s, client, nonce, server).Some?
    ensures Conclude(s, client, nonce, server).value.server == server
  {
    hide ReceivePackets, Follow;
  }

  lemma ClientAfterOpening(s: Session, request: OpenRequest, requestId: u32, segments: seq<Bytes>)
      returns (nonce: Bytes)
    requires s.client.Valid() && OpenRound(s, request, requestId, segments).Some?
    ensures var (lib, after) := (s.server.processor.lib, OpenRound(s, request, requestId, segments).value.client);
            after.policy == s.client.policy.Rekeyed(lib, request.nonce, nonce)
              && after.maxChunkSize == s.client.maxChunkSize
  {
    var e := s.server.processor;
    hide Send, FeedAll, Serve, Library.Lawful, SecurityPolicy.Rekeyed;
    var sending := Send(e.lib, s.client, s.clientDraw, e.services.writeRequest(request), SECURE_OPEN, requestId,
                        s.client.tokenId);
    SendKeeps(e.lib, s.client, s.clientDraw,
              Outgoing(e.services.writeRequest(request), SECURE_OPEN, requestId, s.client.tokenId));
    nonce := ConcludedClient(s, sending.0, request.nonce, FeedAll(Serve, s.server, segments));
  }

  lemma ConcludedClient(s: Session, client: Connection, nonce: Bytes, server: Protocol<Endpoint>) returns (reply: Bytes)
    requires client.Valid() && Conclude(s, client, nonce, server).Some?
    ensures var after := Conclude(s, client, nonce, server).value.client;
            && after.policy == client.policy.Rekeyed(s.server.processor.lib, nonce, reply)
            && after.maxChunkSize == client.maxChunkSize
  {
    hide ReceivePacket, ReceivePackets, SecurityPolicy.Rekeyed;
    var e := s.server.processor;
    var written := server.processor.sent[if |e.sent| <= |server.processor.sent| then |e.sent| else 0..];
    var results := ReceivePackets(e.lib, client, written).1;
    reply := e.services.readReply(results[|results| - 1].message.Body()).value.nonce;
  }

  /** One side with new keys: all else of it stays, and its room follows from the lengths of the keys. */
  predicate NewKeysOnly(conn: Connection, after: Connection)
    requires conn.Valid()
  {
    && SameSide(conn, after) && Room(after) == RoomAfter(conn, Room(conn))
    && (conn.policy.symmetric.PlainBlockSize() <= 256 ==> after.policy.symmetric.PlainBlockSize() <= 256)
  }

  lemma RekeyedIsNewKeysOnly(lib: Library, conn: Connection, after: Connection, nonce1: Bytes, nonce2: Bytes)
    requires lib.Lawful() && conn.Valid() && after.Valid()
    requires after.policy == conn.policy.Rekeyed(lib, nonce1, nonce2) && after.maxChunkSize == conn.maxChunkSize
    ensures NewKeysOnly(conn, after)
  {
    RekeyedSame(lib, conn.policy, nonce1, nonce2);
    RekeyedRoom(lib, conn, after, nonce1, nonce2);
    hide Library.Lawful, SecurityPolicy.Rekeyed, Room, RoomAfter, Cryptography.PlainBlockSize;
  }

  lemma ServerLeaves(s: Session, request: OpenRequest, requestId: u32, segments: seq<Bytes>)
    requires Live(s) && s.server.processor.services.Lawful()
    requires OpenRound(s, request, requestId, segments).Some?
    ensures s.client.Valid() && s.server.processor.conn.Valid()
    ensures var (e, after) := (s.server.processor, OpenRound(s, request, requestId, segments).value.server.processor);
            var l := LedgerOf(s);
            && NewKeysOnly(e.conn, after.conn) && after.conn.isOpen && after.opens == e.opens + 1
            && NextToken(l, request) < U32_LIMIT
            && OpenReply(after.conn.channelId, after.conn.tokenId, e.services.nonce(e.opens)) ==
               ReplyTo(e.services, l, request)
  {
    LiveIsValid(s);
    hide Live, OpenRound, Open, Library.Lawful, NewKeysOnly, SecurityPolicy.Rekeyed, LedgerOf, NextToken, ReplyTo;
    var (e, after) := (s.server.processor, OpenRound(s, request, requestId, segments).value.server.processor);
    ServerAfterOpening(s, request, requestId, segments);
    OpenGives(s, request);
    RekeyedIsNewKeysOnly(e.lib, e.conn, after.conn, e.services.nonce(e.opens), request.nonce);
  }

  lemma OpeningLeaves(s: Session, request: OpenRequest, requestId: u32, segments: seq<Bytes>)
    requires Live(s) && ShortBlocks(s) && s.server.processor.services.Lawful()
    requires Play(s, Opening(request, requestId, segments)).Some?
    requires Allowed(s, LedgerOf(s), Opening(request, requestId, segments))
    ensures var r := Opening(request, requestId, segments);
            Leaves(s, Play(s, r).value, After(s, LedgerOf(s), r))
  {
    var (e, r) := (s.server.processor, Opening(request, requestId, segments));
    var next := Play(s, r).value;
    hide Live, Gets, MailOf, OpenRound, Library.Lawful, NewKeysOnly, Room, RoomAfter, NextToken, ReplyTo, Allowed;
    RoundDelivers(s, r);
    GetsKeeps(s, next, MailOf(s, r, next));
    LiveIsValid(next);
    ServerLeaves(s, request, requestId, segments);
    var nonce := ClientAfterOpening(s, request, requestId, segments);
    RekeyedIsNewKeysOnly(e.lib, s.client, next.client, request.nonce, nonce);
    NewKeysLeave(s, next, request, requestId, segments);
  }

  lemma NewKeysLeave(s: Session, next: Session, request: OpenRequest, requestId: u32, segments: seq<Bytes>)
    requires s.client.Valid() && s.server.processor.conn.Valid() && ShortBlocks(s)
    requires Allowed(s, LedgerOf(s), Opening(request, requestId, segments))
    requires NewKeysOnly(s.client, next.client) && NewKeysOnly(s.server.processor.conn, next.server.processor.conn)
    requires var (e, after) := (s.server.processor, next.server.processor);
             && after.lib == e.lib && after.services == e.services && after.conn.isOpen && after.opens == e.opens + 1
             && NextToken(LedgerOf(s), request) < U32_LIMIT
             && OpenReply(after.conn.channelId, after.conn.tokenId, e.services.nonce(e.opens)) ==
                ReplyTo(e.services, LedgerOf(s), request)
    ensures Leaves(s, next, After(s, LedgerOf(s), Opening(request, requestId, segments)))
  {
    hide Room, RoomAfter, NextToken, Agrees, OpenFits, Cryptography.PlainBlockSize, Library.Lawful;
  }

  /** A round that was played keeps what no round changes, and the ledger is as it says. */
  lemma RoundLeaves(s: Session, r: Round)
    requires Live(s) && ShortBlocks(s) && s.server.processor.services.Lawful() && Play(s, r).Some?
    ensures Live(Play(s, r).value) && Play(s, r).value.server.processor.services.Lawful()
    ensures Allowed(s, LedgerOf(s), r) && Leaves(s, Play(s, r).value, After(s, LedgerOf(s), r))
  {
    hide Live, ShortBlocks, Gets, Leaves, Ask, Answer, OpenRound, Library.Lawful, Allowed, LedgerOf, MailOf;
    RoundPlays(s, r);
    RoundDelivers(s, r);
    var next := Play(s, r).value;
    GetsKeeps(s, next, MailOf(s, r, next));
    match r
    case Requests(messages, segments) =>
      RequestsArrive(s, messages, segments);
      TalkLeaves(s, next, MailOf(s, r, next));
    case Responses(messages) =>
      ResponsesArrive(s, messages);
      TalkLeaves(s, next, MailOf(s, r, next));
    case Opening(request, requestId, segments) => OpeningLeaves(s, request, requestId, segments);
  }

  lemma AllowedSame(s: Session, next: Session, l: Ledger, r: Round)
    requires s.client.Valid() && s.server.processor.conn.Valid() && SameTerms(s, next)
    ensures Allowed(next, l, r) == Allowed(s, l, r)
    ensures Allowed(s, l, r) ==> After(next, l, r) == After(s, l, r)
  {
    var e := s.server.processor;
    hide OpenFits, Library.Lawful;
    if r.Opening? {
      OpenFitsSame(e.lib, s.client.policy, next.client.policy.symmetric, e.services.writeRequest(r.request));
      if NextToken(l, r.request) < U32_LIMIT {
        OpenFitsSame(e.lib, e.conn.policy, next.server.processor.conn.policy.symmetric,
                     e.services.writeReply(ReplyTo(e.services, l, r.request)));
      }
    }
  }

  // ----- Whole sessions -----

  /** Every round is possible by the ledger that the rounds before it leave. */
  predicate AllAllowed(s: Session, l: Ledger, rounds: seq<Round>)
    requires s.client.Valid() && s.server.processor.conn.Valid()
    decreases |rounds|
  {
    rounds == [] || (Allowed(s, l, rounds[0]) && AllAllowed(s, After(s, l, rounds[0]), rounds[1..]))
  }

  lemma {:induction false} AllAllowedSame(s: Session, next: Session, l: Ledger, rounds: seq<Round>)
    requires s.client.Valid() && s.server.processor.conn.Valid() && SameTerms(s, next)
    ensures AllAllowed(next, l, rounds) == AllAllowed(s, l, rounds)
    decreases |rounds|
  {
    hide Allowed, After, SameTerms;
    assert next.client.Valid()
           && next.server.processor.conn.Valid() by { assert SameTerms(s, next); TermsValid(s, next); }
    if rounds != [] {
      AllowedSame(s, next, l, rounds[0]);
      if Allowed(s, l, rounds[0]) {
        AllAllowedSame(s, next, After(s, l, rounds[0]), rounds[1..]);
      }
    }
  }

  lemma TermsValid(s: Session, next: Session)
    requires s.client.Valid() && s.server.processor.conn.Valid() && SameTerms(s, next)
    ensures next.client.Valid() && next.server.processor.conn.Valid()
  {
  }

  /** The same round, whatever the segments. */
  function Plan(r: Round): Round {
    match r
    case Requests(messages, _) => Requests(messages, [])
    case Responses(messages) => r
    case Opening(request, requestId, _) => Opening(request, requestId, [])
  }

  predicate SamePlan(a: seq<Round>, b: seq<Round>) {
    |a| == |b| && forall i | 0 <= i < |a| :: Plan(a[i]) == Plan(b[i])
  }

  ghost predicate CanPlay(s: Session, rounds: seq<Round>) {
    exists played :: SamePlan(played, rounds) && PlayAll(s, played).Some?
  }

  lemma PlanAllowed(s: Session, l: Ledger, a: Round, b: Round)
    requires s.client.Valid() && s.server.processor.conn.Valid() && Plan(a) == Plan(b)
    ensures Allowed(s, l, a) == Allowed(s, l, b)
    ensures Allowed(s, l, a) ==> After(s, l, a) == After(s, l, b)
  {
    hide Agrees, OpenFits, ReplyTo, RoomAfter;
  }

  /** Every allowed round can be played: with the client's bytes in one segment, for one. */
  lemma PlayedInOne(s: Session, r: Round) returns (played: Round)
    requires Live(s) && ShortBlocks(s) && s.server.processor.services.Lawful() && Allowed(s, LedgerOf(s), r)
    ensures Plan(played) == Plan(r) && Play(s, played).Some?
  {
    LiveIsValid(s);
    var segments := [Wire(s, r)];
    played := match r
              case Requests(messages, _) => Requests(messages, segments)
              case Responses(_) => r
              case Opening(request, requestId, _) => Opening(request, requestId, segments);
    hide Live, ShortBlocks, Play, Allowed, LedgerOf, Library.Lawful, Written;
    assert Wire(s, played) == Wire(s, r);
    assert Join(segments) == segments[0] by { assert segments[1..] == [] && segments[0] + [] == segments[0]; }
    PlanAllowed(s, LedgerOf(s), r, played);
    RoundPlays(s, played);
  }

  lemma {:induction false} PlayedIsAllowed(s: Session, played: seq<Round>, rounds: seq<Round>)
    requires Live(s) && ShortBlocks(s) && s.server.processor.services.Lawful()
    requires SamePlan(played, rounds) && PlayAll(s, played).Some?
    ensures AllAllowed(s, LedgerOf(s), rounds)
    decreases |rounds|
  {
    LiveIsValid(s);
    hide Live, ShortBlocks, Play, Allowed, After, LedgerOf, Library.Lawful, SameTerms, Plan;
    if rounds != [] {
      var next := Play(s, played[0]).value;
      RoundLeaves(s, played[0]);
      PlanAllowed(s, LedgerOf(s), played[0], rounds[0]);
      PlayedIsAllowed(next, played[1..], rounds[1..]);
      AllAllowedSame(s, next, LedgerOf(next), rounds[1..]);
    }
  }

  lemma {:induction false} AllowedIsPlayed(s: Session, rounds: seq<Round>) returns (played: seq<Round>)
    requires Live(s) && ShortBlocks(s) && s.server.processor.services.Lawful()
    requires AllAllowed(s, LedgerOf(s), rounds)
    ensures SamePlan(played, rounds) && PlayAll(s, played).Some?
    decreases |rounds|
  {
    LiveIsValid(s);
    hide Live, ShortBlocks, Play, Allowed, After, LedgerOf, Library.Lawful, SameTerms, Plan;
    if rounds == [] {
      played := [];
    } else {
      hide PlayAll, SamePlan;
      var first := PlayedInOne(s, rounds[0]);
      var next := Play(s, first).value;
      RoundLeaves(s, first);
      PlanAllowed(s, LedgerOf(s), first, rounds[0]);
      AllAllowedSame(s, next, LedgerOf(next), rounds[1..]);
      var others := AllowedIsPlayed(next, rounds[1..]);
      played := [first] + others;
      PlayedBefore(s, first, others, rounds);
    }
  }

  lemma PlayedBefore(s: Session, first: Round, others: seq<Round>, rounds: seq<Round>)
    requires rounds != [] && Plan(first) == Plan(rounds[0]) && SamePlan(others, rounds[1..])
    requires Play(s, first).Some? && PlayAll(Play(s, first).value, others).Some?
    ensures SamePlan([first] + others, rounds) && PlayAll(s, [first] + others).Some?
  {
    hide Play, Plan;
    assert ([first] + others)[1..] == others;
  }

  /**
   A session can be played, in some segments, exactly when every round is possible by the ledger: with the
   channel open, a token left, the modes alike, room for a body byte in a chunk, which the lengths of the
   keys decide, and open messages that fit. No key, no number of a chunk and no other message decides.
   */
  lemma SessionPlaysExactly(s: Session, rounds: seq<Round>)
    requires Live(s) && ShortBlocks(s) && s.server.processor.services.Lawful()
    ensures CanPlay(s, rounds) <==> AllAllowed(s, LedgerOf(s), rounds)
  {
    LiveIsValid(s);
    hide Live, ShortBlocks, AllAllowed, LedgerOf, Library.Lawful, PlayAll, SamePlan;
    if CanPlay(s, rounds) {
      var played :| SamePlan(played, rounds) && PlayAll(s, played).Some?;
      PlayedIsAllowed(s, played, rounds);
    }
    if AllAllowed(s, LedgerOf(s), rounds) {
      var played := AllowedIsPlayed(s, rounds);
    }
  }
}
