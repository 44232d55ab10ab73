/** Whole conversations: delivery of every message, and the spacing of sequence numbers. */
module Conversation {
  import opened Wrappers
  import opened Bytes
  import opened Crypto
  import opened Chunk
  import opened Channel
  import opened Delivery

  /** Messages sent one after another; the first exception ends the run. */
  function SendAll(lib: Library, tx: Connection, draw: nat, messages: seq<Outgoing>)
    : (Connection, Result<seq<Bytes>, Error>)
    requires lib.Lawful() && tx.Valid() && forall m | m in messages :: m.Valid()
    decreases |messages|
  {
    if messages == [] then (tx, Ok([]))
    else
      var (next, first) := SendOne(lib, tx, draw, messages[0]);
      if first.Err? then (next, first)
      else
        var (last, others) := SendAll(lib, next, draw + 1, messages[1..]);
        (last, if others.Err? then others else Ok(first.value + others.value))
  }

  predicate NoException(r: Received) {
    !r.Raised? && (r.Delivered? ==> r.message.chunks != [])
  }

  /** The messages among the results. */
  function Inbox(results: seq<Received>): seq<Envelope> {
    if results == [] then []
    else
      (match results[0]
       case Delivered(m) => if m.chunks == [] then [] else [m.Sealed()]
       case _ => []) + Inbox(results[1..])
  }

  /** The messages that are cut into at least one chunk. */
  function Carried(tx: Connection, messages: seq<Outgoing>): seq<Envelope>
    requires tx.Valid()
  {
    if messages == [] then []
    else (if messages[0].Carried(tx) then [messages[0].Sealed()] else []) + Carried(tx, messages[1..])
  }

  lemma {:induction false} InboxAppend(a: seq<Received>, b: seq<Received>)
    ensures Inbox(a + b) == Inbox(a) + Inbox(b)
  {
    if a == [] {
      assert a + b == b;
    } else {
      assert (a + b)[1..] == a[1..] + b;
      InboxAppend(a[1..], b);
    }
  }

  lemma {:induction false} InboxOfOne(results: seq<Received>, count: nat, envelope: Envelope)
    requires DeliversLast(results, count, envelope)
    ensures Inbox(results) == [envelope]
    decreases count
  {
    if count > 1 {
      InboxOfOne(results[1..], count - 1, envelope);
    } else {
      assert Inbox(results[1..]) == [];
    }
  }

  /**
   From (tx, rx) to (sent, after): still in step with no parts pending, no exception, and exactly
   the expected messages. InSync says that the number the peer saw last, if any, is the sender's.
   */
  predicate Agree(tx: Connection, rx: Connection, sent: Connection, after: Connection, results: seq<Received>,
                  expected: seq<Envelope>) {
    && InSync(sent, after)
    && sent.policy == tx.policy && sent.maxChunkSize == tx.maxChunkSize
    && (forall r | r in results :: NoException(r))
    && Inbox(results) == expected
    && (rx.peerSequenceNumber.Some? || expected != [] ==> after.peerSequenceNumber == Some(sent.sequenceNumber))
  }

  lemma NothingAgreed(tx: Connection, rx: Connection)
    requires InSync(tx, rx)
    ensures Agree(tx, rx, tx, rx, [], [])
  {
  }

  lemma AgreeTransitive(tx: Connection, rx: Connection, tx': Connection, rx': Connection, tx'': Connection,
                        rx'': Connection,
                        first: seq<Received>, second: seq<Received>, e: seq<Envelope>, f: seq<Envelope>)
    requires Agree(tx, rx, tx', rx', first, e) && Agree(tx', rx', tx'', rx'', second, f)
    ensures Agree(tx, rx, tx'', rx'', first + second, e + f)
  {
    InboxAppend(first, second);
  }

  lemma OneMessage(lib: Library, tx: Connection, rx: Connection, draw: nat, m: Outgoing)
    requires lib.Lawful() && InSync(tx, rx) && m.Valid()
    requires SendOne(lib, tx, draw, m).1.Ok?
    ensures var (sent, packets) := SendOne(lib, tx, draw, m);
            var (after, results) := ReceivePackets(lib, rx, packets.value);
            Agree(tx, rx, sent, after, results, Carried(tx, [m]))
  {
    hide Library.Lawful, SendOne, ReceivePackets, Paired, MaxBodySize;
    MessageDelivery(lib, tx, rx, draw, m);
    var (sent, packets) := SendOne(lib, tx, draw, m);
    if m.Carried(tx) {
      InboxOfOne(ReceivePackets(lib, rx, packets.value).1, |packets.value|, m.Sealed());
    } else {
      NothingReceived(lib, rx);
    }
  }

  /**
   End to end: whatever was sent without an exception, the peer never raises, gives each carried
   message once and in order with its type, body and request id, and ends in step with no parts pending.
   */
  lemma {:induction false} EndToEndDelivery(lib: Library, tx: Connection, rx: Connection, draw: nat,
                                            messages: seq<Outgoing>)
    requires lib.Lawful() && InSync(tx, rx) && forall m | m in messages :: m.Valid()
    requires SendAll(lib, tx, draw, messages).1.Ok?
    ensures var (sent, packets) := SendAll(lib, tx, draw, messages);
            var (after, results) := ReceivePackets(lib, rx, packets.value);
            Agree(tx, rx, sent, after, results, Carried(tx, messages))
    decreases |messages|
  {
    hide Library.Lawful, SendOne, ReceivePackets, PairedPolicies, Outgoing.Carried, NoException, Inbox;
    if messages == [] {
      NothingReceived(lib, rx);
      NothingAgreed(tx, rx);
    } else {
      var m := messages[0];
      var (next, first) := SendOne(lib, tx, draw, m);
      OneMessage(lib, tx, rx, draw, m);
      var (middle, results) := ReceivePackets(lib, rx, first.value);
      EndToEndDelivery(lib, next, middle, draw + 1, messages[1..]);
      SameCarried(tx, next, messages[1..]);
      var (sent, rest) := SendAll(lib, next, draw + 1, messages[1..]);
      assert SendAll(lib, tx, draw, messages) == (sent, Ok(first.value + rest.value));
      assert Carried(tx, messages) == Carried(tx, [m]) + Carried(tx, messages[1..]);
      hide Agree, SendAll, Carried;
      ReceiveAppend(lib, rx, first.value, rest.value);
      var (after, others) := ReceivePackets(lib, middle, rest.value);
      AgreeTransitive(tx, rx, next, middle, sent, after, results, others, Carried(tx, [m]), Carried(tx, messages[1..]));
    }
  }

  lemma NothingReceived(lib: Library, rx: Connection)
    requires rx.Valid()
    ensures ReceivePackets(lib, rx, []) == (rx, [])
  {
  }

  lemma {:induction false} SameCarried(a: Connection, b: Connection, messages: seq<Outgoing>)
    requires a.Valid() && b.Valid() && a.policy == b.policy && a.maxChunkSize == b.maxChunkSize
    ensures Carried(a, messages) == Carried(b, messages)
  {
    if messages != [] {
      SameCarried(a, b, messages[1..]);
    }
  }

  // ----- When sending succeeds -----

  /** A symmetric message raises exactly when the chunk size leaves no room for any body byte. */
  lemma SymmetricSendSucceeds(lib: Library, tx: Connection, draw: nat, m: Outgoing)
    requires lib.Lawful() && tx.Valid() && m.Valid() && m.messageType != SECURE_OPEN
    requires tx.policy.symmetric.PlainBlockSize() <= 256
    ensures SendOne(lib, tx, draw, m).1.Ok? <==> MaxBodySize(tx.policy.symmetric, tx.maxChunkSize) != 0
  {
    hide Library.Lawful;
    if MaxBodySize(tx.policy.symmetric, tx.maxChunkSize) != 0 {
      var numbered := NumberedChunksFit(lib, tx, m);
      EncodeAllSucceeds(lib, tx.policy, tx.maxChunkSize, draw, numbered);
    }
  }

  lemma NumberedChunksFit(lib: Library, tx: Connection, m: Outgoing) returns (numbered: seq<MessageChunk>)
    requires lib.Lawful() && tx.Valid() && m.Valid() && m.messageType != SECURE_OPEN
    requires MaxBodySize(tx.policy.symmetric, tx.maxChunkSize) != 0
    ensures var chunks := MessageToChunks(lib, tx.policy, m.body, tx.maxChunkSize, m.messageType, tx.channelId,
                                          m.requestId, m.token);
            chunks.Ok? && numbered == Number(chunks.value, tx.sequenceNumber)
    ensures forall i | 0 <= i < |numbered| :: Fits(tx.policy.symmetric, tx.maxChunkSize, numbered[i])
  {
    hide Library.Lawful;
    var maxSize := MaxBodySize(tx.policy.symmetric, tx.maxChunkSize);
    var chunks := MessageToChunks(lib, tx.policy, m.body, tx.maxChunkSize, m.messageType, tx.channelId, m.requestId,
                                  m.token).value;
    NumberKeeps(chunks, tx.sequenceNumber);
    numbered := Number(chunks, tx.sequenceNumber);
    forall i | 0 <= i < |numbered|
      ensures Fits(tx.policy.symmetric, tx.maxChunkSize, numbered[i])
    {
      SplitBodyParts(m.body, maxSize, m.messageType, tx.channelId, m.token, m.requestId, i);
    }
  }

  // The connection and the message of the next two lemmas: no security, and little room.
  function Cramped(maxChunkSize: u32): Connection {
    var policy := SecurityPolicy([], NoSecurity, None, CryptographyNone, CryptographyNone, [], []);
    Connection(policy, 0, None, [], 1, 14, [], maxChunkSize, true)
  }

  const HI: Outgoing := Outgoing([72, 105], SECURE_MESSAGE, 1, 14)

  /** A chunk size that leaves room for the headers only: sending raises. */
  lemma ZeroBodySizeRaises(lib: Library)
    requires lib.Lawful()
    ensures SendOne(lib, Cramped(24), 0, HI) == (Cramped(24), Err(ValueError))
  {
  }

  /** A smaller one: the message vanishes without an exception. */
  lemma MessageVanishes(lib: Library)
    requires lib.Lawful()
    ensures HI.body != [] && SendOne(lib, Cramped(23), 0, HI) == (Cramped(23), Ok([]))
  {
    var crypto := Cramped(23).policy.symmetric;
    assert MaxBodySize(crypto, 23) == -1;
  }

  /** No packet of a symmetric message is larger than the limit, whatever the keys and block sizes. */
  lemma PacketsFit(lib: Library, tx: Connection, draw: nat, m: Outgoing)
    requires lib.Lawful() && tx.Valid() && m.Valid() && m.messageType != SECURE_OPEN
    requires SendOne(lib, tx, draw, m).1.Ok?
    ensures forall p | p in SendOne(lib, tx, draw, m).1.value :: |p| <= tx.maxChunkSize
  {
    hide Library.Lawful;
    var numbered := NumberedChunksFit(lib, tx, m);
    EncodedChunksFit(lib, tx.policy, tx.maxChunkSize, draw, numbered);
  }

  lemma {:induction false} EncodedChunksFit(lib: Library, policy: SecurityPolicy, maxChunkSize: u32, draw: nat,
                                            chunks: seq<MessageChunk>)
    requires lib.Lawful() && policy.Valid()
    requires forall i | 0 <= i < |chunks| :: Fits(policy.symmetric, maxChunkSize, chunks[i])
    requires EncodeAll(lib, policy, draw, chunks).Ok?
    ensures forall p | p in EncodeAll(lib, policy, draw, chunks).value :: |p| <= maxChunkSize
    decreases |chunks|
  {
    hide Library.Lawful, MaxBodySize, ToBinary, PacketSize, FromHeaderAndBody, FromBinary, HeaderFromBinary, Paired;
    if chunks != [] {
      MaxBodySizeIsTight(policy.symmetric, maxChunkSize, chunks[0]);
      MirrorIsPaired(policy.symmetric);
      ChunkRoundTrip(lib, policy, policy.(symmetric := Mirror(policy.symmetric)), draw, chunks[0], []);
      EncodedChunksFit(lib, policy, maxChunkSize, draw + 1, chunks[1..]);
    }
  }

  /** The cryptography of a peer that reads what this one writes. */
  function Mirror(c: Cryptography): Cryptography {
    match c
    case CryptographyNone => c
    case Cryptography(encrypted, signer, verifier, encryptor, decryptor) =>
      Cryptography(encrypted, signer,
                   match signer {
                     case SignerRsa(rsa) => VerifierRsa(rsa)
                     case SignerAesCbc(key) => VerifierAesCbc(key)
                   },
                   encryptor,
                   match encryptor {
                     case EncryptorRsa(rsa, scheme) => DecryptorRsa(rsa, scheme)
                     case EncryptorAesCbc(key, iv) => DecryptorAesCbc(key, iv)
                   })
  }

  lemma MirrorIsPaired(c: Cryptography)
    requires c.Valid()
    ensures Paired(c, Mirror(c))
  {
  }

  predicate Fits(crypto: Cryptography, maxChunkSize: u32, c: MessageChunk)
    requires crypto.Valid()
  {
    c.Valid() && c.security.Symmetric? && |c.body| <= MaxBodySize(crypto, maxChunkSize)
  }

  lemma {:induction false} EncodeAllSucceeds(lib: Library, policy: SecurityPolicy, maxChunkSize: u32, draw: nat,
                                             chunks: seq<MessageChunk>)
    requires lib.Lawful() && policy.Valid() && policy.symmetric.PlainBlockSize() <= 256
    requires forall i | 0 <= i < |chunks| :: Fits(policy.symmetric, maxChunkSize, chunks[i])
    ensures EncodeAll(lib, policy, draw, chunks).Ok?
    decreases |chunks|
  {
    hide Library.Lawful, MaxBodySize, ToBinary, PacketSize;
    if chunks != [] {
      var crypto := policy.symmetric;
      MaxBodySizeIsTight(crypto, maxChunkSize, chunks[0]);
      ToBinarySucceeds(lib, crypto, draw, chunks[0]);
      EncodeAllSucceeds(lib, policy, maxChunkSize, draw + 1, chunks[1..]);
    }
  }

  /** Endpoints keyed by make_symmetric_key with swapped nonces deliver every non-empty message. */
  lemma KeyedDelivery(lib: Library, lengths: KeyLengths, encrypted: bool, nonceA: Bytes, nonceB: Bytes,
                      tx: Connection, rx: Connection, draw: nat, messages: seq<Outgoing>)
    requires lib.Lawful() && tx.Valid() && rx.Valid()
    requires tx.policy.symmetric == SymmetricKeys(lib, lengths, encrypted, nonceA, nonceB)
    requires rx.policy.symmetric == SymmetricKeys(lib, lengths, encrypted, nonceB, nonceA)
    requires tx.policy.uri == rx.policy.uri && Paired(tx.policy.asymmetric, rx.policy.asymmetric)
    requires tx.channelId == rx.channelId && rx.incomingParts == []
    requires rx.peerSequenceNumber in {None, Some(tx.sequenceNumber)}
    requires MaxBodySize(tx.policy.symmetric, tx.maxChunkSize) > 0
    requires forall m | m in messages :: m.messageType in {SECURE_MESSAGE, SECURE_CLOSE} && m.body != []
    ensures SendAll(lib, tx, draw, messages).1.Ok?
    ensures var packets := SendAll(lib, tx, draw, messages).1.value;
            var (after, results) := ReceivePackets(lib, rx, packets);
            && (forall r | r in results :: NoException(r))
            && |Inbox(results)| == |messages|
            && (forall i | 0 <= i < |messages| :: Inbox(results)[i] == messages[i].Sealed())
            && after.incomingParts == []
            && (messages != [] ==> after.peerSequenceNumber == Some(SendAll(lib, tx, draw, messages).0.sequenceNumber))
  {
    KeyAgreement(lib, lengths, encrypted, nonceA, nonceB);
    hide Library.Lawful, MaxBodySize, SymmetricKeys, Paired;
    assert InSync(tx, rx);
    SendAllSucceeds(lib, tx, draw, messages);
    EndToEndDelivery(lib, tx, rx, draw, messages);
    AllCarried(tx, messages);
  }

  lemma {:induction false} SendAllSucceeds(lib: Library, tx: Connection, draw: nat, messages: seq<Outgoing>)
    requires lib.Lawful() && tx.Valid() && tx.policy.symmetric.PlainBlockSize() <= 256
    requires MaxBodySize(tx.policy.symmetric, tx.maxChunkSize) > 0
    requires forall m | m in messages :: m.messageType in {SECURE_MESSAGE, SECURE_CLOSE}
    ensures SendAll(lib, tx, draw, messages).1.Ok?
    decreases |messages|
  {
    hide Library.Lawful, MaxBodySize;
    if messages != [] {
      SymmetricSendSucceeds(lib, tx, draw, messages[0]);
      SendAllSucceeds(lib, SendOne(lib, tx, draw, messages[0]).0, draw + 1, messages[1..]);
    }
  }

  lemma {:induction false} AllCarried(tx: Connection, messages: seq<Outgoing>)
    requires tx.Valid() && MaxBodySize(tx.policy.symmetric, tx.maxChunkSize) > 0
    requires forall m | m in messages :: m.body != []
    ensures |Carried(tx, messages)| == |messages|
    ensures forall i | 0 <= i < |messages| :: Carried(tx, messages)[i] == messages[i].Sealed()
  {
    hide MaxBodySize;
    if messages != [] {
      AllCarried(tx, messages[1..]);
      assert Carried(tx, messages) == [messages[0].Sealed()] + Carried(tx, messages[1..]);
    }
  }

  // ----- Sequence numbers over runs of arbitrary chunks -----

  /** The numbers of the chunks that pass the check, in a run of arbitrary chunks. */
  function AcceptedNumbers(conn: Connection, chunks: seq<MessageChunk>): seq<u32>
    decreases |chunks|
  {
    if chunks == [] then []
    else
      var (next, _) := Receive(conn, chunks[0]);
      (if Check(conn, chunks[0]).1.Ok? then [chunks[0].sequence.sequenceNumber] else [])
        + AcceptedNumbers(next, chunks[1..])
  }

  /** A chunk that fails the check leaves the peer's number and the pending parts alone. */
  lemma RejectedChunkChangesNothing(conn: Connection, c: MessageChunk)
    requires Check(conn, c).1.Err?
    ensures var (after, result) := Receive(conn, c);
            && result.Raised?
            && after == conn.(oldTokens := after.oldTokens)
            && exists k | 0 <= k <= |conn.oldTokens| :: after.oldTokens == conn.oldTokens[k..]
  {
    var (after, _) := Receive(conn, c);
    if after == conn {
      assert after.oldTokens == conn.oldTokens[0..];
    }
  }

  predicate Chained(previous: Option<u32>, numbers: seq<u32>) {
    && (numbers != [] && previous.Some? ==> Follows(previous.value, numbers[0]))
    && forall i | 0 < i < |numbers| :: Follows(numbers[i - 1], numbers[i])
  }

  lemma {:induction false} AcceptedNumbersChain(conn: Connection, chunks: seq<MessageChunk>)
    ensures Chained(conn.peerSequenceNumber, AcceptedNumbers(conn, chunks))
    decreases |chunks|
  {
    hide Receive, Check, Follows;
    if chunks != [] {
      var c := chunks[0];
      CheckTellsNumber(conn, c);
      AcceptedNumbersChain(Receive(conn, c).0, chunks[1..]);
    }
  }

  lemma CheckTellsNumber(conn: Connection, c: MessageChunk)
    ensures var next := Receive(conn, c).0;
            if Check(conn, c).1.Ok? then
              && next.peerSequenceNumber == Some(c.sequence.sequenceNumber)
              && (conn.peerSequenceNumber.Some? ==> Follows(conn.peerSequenceNumber.value, c.sequence.sequenceNumber))
            else next.peerSequenceNumber == conn.peerSequenceNumber
  {
  }

  /**
   Without a wrap the numbers rise by one; with one they must first climb to the wrap zone and then
   start below 1024.
   */
  lemma {:induction false} Climb(numbers: seq<u32>, i: nat, j: nat)
    requires Chained(None, numbers) && i <= j < |numbers|
    ensures || numbers[j] as int == numbers[i] + (j - i)
            || j - i >= (WRAP - numbers[i] as int) + 1 + (numbers[j] as int - 1023)
    decreases j
  {
    if i < j {
      Climb(numbers, i, j - 1);
      assert Follows(numbers[j - 1], numbers[j]);
    }
  }

  /** The minimal distance, on any run, between two accepted chunks with the same number. */
  const REUSE_DISTANCE: nat := U32_LIMIT - 2046

  lemma NumberReuse(conn: Connection, chunks: seq<MessageChunk>, i: nat, j: nat)
    requires i < j < |AcceptedNumbers(conn, chunks)|
    requires AcceptedNumbers(conn, chunks)[i] == AcceptedNumbers(conn, chunks)[j]
    ensures j - i >= REUSE_DISTANCE
  {
    AcceptedNumbersChain(conn, chunks);
    Climb(AcceptedNumbers(conn, chunks), i, j);
  }

  /** Chunks with these numbers, each a message of its own on the connection's channel. */
  function SingleChunks(channelId: u32, token: u32, requestId: u32, numbers: seq<u32>): (chunks: seq<MessageChunk>)
    ensures |chunks| == |numbers|
  {
    if numbers == [] then []
    else
      var header := Header(SECURE_MESSAGE, SINGLE, channelId, 0);
      [MessageChunk(header, Symmetric(token), SequenceHeader(numbers[0], requestId), [])]
      + SingleChunks(channelId, token, requestId, numbers[1..])
  }

  function PendingRequest(conn: Connection): u32 {
    if conn.incomingParts == [] then 0 else conn.incomingParts[0].sequence.requestId
  }

  /** The rule leaves nothing out: every chain of numbers is accepted on some run, on any connection. */
  lemma {:induction false} ChainIsAccepted(conn: Connection, requestId: u32, numbers: seq<u32>)
    requires Chained(conn.peerSequenceNumber, numbers)
    requires conn.incomingParts == [] || requestId == PendingRequest(conn)
    ensures AcceptedNumbers(conn, SingleChunks(conn.channelId, conn.tokenId, requestId, numbers)) == numbers
    decreases |numbers|
  {
    hide Follows;
    if numbers != [] {
      var chunks := SingleChunks(conn.channelId, conn.tokenId, requestId, numbers);
      assert chunks[1..] == SingleChunks(conn.channelId, conn.tokenId, requestId, numbers[1..]);
      var next := Receive(conn, chunks[0]).0;
      assert Check(conn, chunks[0]) == (conn.(peerSequenceNumber := Some(numbers[0])), Ok(()));
      assert next == conn.(peerSequenceNumber := Some(numbers[0]), incomingParts := []);
      ChainIsAccepted(next, requestId, numbers[1..]);
      assert numbers == [numbers[0]] + numbers[1..];
    }
  }

  /** No larger distance could be promised: on a new connection this run of chunks meets the bound exactly. */
  lemma NumberReuseIsTight(conn: Connection) returns (chunks: seq<MessageChunk>)
    requires conn.peerSequenceNumber.None?
    ensures var accepted := AcceptedNumbers(conn, chunks);
            |accepted| == REUSE_DISTANCE + 1 && accepted[0] == accepted[REUSE_DISTANCE]
  {
    var numbers: seq<u32> := seq(REUSE_DISTANCE + 1, k requires 0 <= k <= REUSE_DISTANCE =>
                                                        if k == 0 then WRAP else 1022 + k);
    forall i | 0 < i < |numbers|
      ensures Follows(numbers[i - 1], numbers[i])
    {
    }
    chunks := SingleChunks(conn.channelId, conn.tokenId, PendingRequest(conn), numbers);
    hide AcceptedNumbers, SingleChunks, Follows;
    ChainIsAccepted(conn, PendingRequest(conn), numbers);
  }
}
