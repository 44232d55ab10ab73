/** What comes of arbitrary chunks: which are accepted, what each one does, and what the messages are made of. */
module Reception {
  import opened Wrappers
  import opened Bytes
  import opened Chunk
  import opened Channel
  import opened Delivery

  // ----- One chunk -----

  /** The channel is right, the request is that of the pending parts, and the number is the next or has wrapped. */
  predicate IsExpected(conn: Connection, c: MessageChunk) {
    && (c.security.Symmetric? ==> c.header.channelId == conn.channelId)
    && (conn.incomingParts != [] ==> c.sequence.requestId == conn.incomingParts[0].sequence.requestId)
    && (conn.peerSequenceNumber.Some? ==> Continues(conn.peerSequenceNumber.value, c.sequence.sequenceNumber))
  }

  predicate Continues(previous: u32, n: u32) {
    n == previous + 1 || (previous >= 0xFFFF_FC00 && n < 1024)
  }

  /** A status code, then a length with as many bytes behind it, or the length -1. */
  predicate IsErrorBody(body: Bytes) {
    |body| >= 8 && var n := UnpackU32(body[4..8]); n == 0xFFFF_FFFF || (n < 0x8000_0000 && n <= |body| - 8)
  }

  lemma ErrorBody(body: Bytes)
    ensures DecodesAsError(body) <==> IsErrorBody(body)
  {
    if |body| >= 8 {
      assert body[4..][..4] == body[4..8];
    }
  }

  /** A chunk that ends what is pending: the final one, or an abort that can be read. */
  predicate Ends(c: MessageChunk) {
    c.header.chunkType == 70 || (c.header.chunkType == 65 && IsErrorBody(c.body))
  }


  /** Everything that one chunk does to a connection. */
  lemma OneChunk(conn: Connection, c: MessageChunk)
    ensures var (after, result) := Receive(conn, c);
            var kind := c.header.chunkType;
            && SameSetup(after, conn)
            && (!IsExpected(conn, c) ==>
                  && result == Raised(UaError)
                  && after.peerSequenceNumber == conn.peerSequenceNumber && after.incomingParts == conn.incomingParts)
            && (IsExpected(conn, c) ==>
                  && after.peerSequenceNumber == Some(c.sequence.sequenceNumber)
                  && after.incomingParts == (if Ends(c) then [] else conn.incomingParts + [c])
                  && (result.Delivered? <==> kind == 70)
                  && (kind == 70 ==> result.message.chunks == conn.incomingParts + [c])
                  && (result == Nothing <==> kind == 67 || (kind == 65 && IsErrorBody(c.body))))
  {
    ErrorBody(c.body);
    hide DecodesAsError, IsErrorBody;
  }

  predicate CutAt(before: seq<u32>, after: seq<u32>, token: u32, k: nat) {
    k < |before| && before[k] == token && token !in before[..k] && after == before[k..]
  }

  /** An old token that is used retires the ones before it; no other chunk retires any. */
  lemma OldTokensRetire(conn: Connection, c: MessageChunk)
    ensures var after := Receive(conn, c).0.oldTokens;
            if c.security.Symmetric? && c.header.channelId == conn.channelId
               && c.security.tokenId != conn.tokenId && c.security.tokenId in conn.oldTokens
            then exists k :: CutAt(conn.oldTokens, after, c.security.tokenId, k)
            else after == conn.oldTokens
  {
    hide DecodesAsError, CutAt;
    if c.security.Symmetric? && c.security.tokenId in conn.oldTokens {
      var k := IndexOf(conn.oldTokens, c.security.tokenId);
      assert CutAt(conn.oldTokens, conn.oldTokens[k..], c.security.tokenId, k) by {
        IsCutAt(conn.oldTokens, c.security.tokenId, k);
      }
    }
  }

  lemma IsCutAt(tokens: seq<u32>, token: u32, k: nat)
    requires k < |tokens| && tokens[k] == token && token !in tokens[..k]
    ensures CutAt(tokens, tokens[k..], token, k)
  {
  }

  // ----- Runs -----

  /** The chunks of a run that were expected when they came. */
  function AcceptedChunks(conn: Connection, chunks: seq<MessageChunk>): seq<MessageChunk>
    decreases |chunks|
  {
    if chunks == [] then []
    else
      (if IsExpected(conn, chunks[0]) then [chunks[0]] else [])
      + AcceptedChunks(Receive(conn, chunks[0]).0, chunks[1..])
  }

  /** One request, numbers in step, and nothing in it that ends a message. */
  predicate IsOpenEnded(parts: seq<MessageChunk>) {
    && (forall i | 0 <= i < |parts| :: parts[i].sequence.requestId == parts[0].sequence.requestId && !Ends(parts[i]))
    && forall i | 0 < i < |parts| ::
         Continues(parts[i - 1].sequence.sequenceNumber, parts[i].sequence.sequenceNumber)
  }

  /** What is pending belongs together, and the last of it has the number that the next one follows. */
  predicate Coherent(conn: Connection) {
    && IsOpenEnded(conn.incomingParts)
    && (conn.incomingParts != [] ==>
          conn.peerSequenceNumber == Some(conn.incomingParts[|conn.incomingParts| - 1].sequence.sequenceNumber))
  }

  /** A final chunk behind parts of the same request, in step. */
  predicate IsWhole(parts: seq<MessageChunk>) {
    && parts != [] && parts[|parts| - 1].header.chunkType == 70
    && IsOpenEnded(parts[..|parts| - 1])
    && (forall i | 0 <= i < |parts| :: parts[i].sequence.requestId == parts[0].sequence.requestId)
    && (|parts| > 1 ==>
          Continues(parts[|parts| - 2].sequence.sequenceNumber, parts[|parts| - 1].sequence.sequenceNumber))
  }

  predicate IsSuffix<T(==)>(part: seq<T>, whole: seq<T>) {
    |part| <= |whole| && part == whole[|whole| - |part|..]
  }

  lemma NothingIsOpenEnded()
    ensures IsOpenEnded([])
  {
  }

  lemma PartsExtended(parts: seq<MessageChunk>, c: MessageChunk)
    requires IsOpenEnded(parts)
    requires parts != [] ==>
               && c.sequence.requestId == parts[0].sequence.requestId
               && Continues(parts[|parts| - 1].sequence.sequenceNumber, c.sequence.sequenceNumber)
    ensures !Ends(c) ==> IsOpenEnded(parts + [c])
    ensures c.header.chunkType == 70 ==> IsWhole(parts + [c])
  {
    hide Ends, Continues;
    var all := parts + [c];
    assert all[..|all| - 1] == parts;
    assert forall i | 0 <= i < |parts| :: all[i] == parts[i];
  }

  lemma StaysCoherent(conn: Connection, c: MessageChunk)
    requires Coherent(conn)
    ensures var (after, result) := Receive(conn, c);
            && Coherent(after)
            && (result.Delivered? ==> IsWhole(result.message.chunks))
  {
    hide Receive, Ends, IsOpenEnded, IsWhole, Continues;
    OneChunk(conn, c);
    NothingIsOpenEnded();
    if IsExpected(conn, c) {
      PartsExtended(conn.incomingParts, c);
    }
  }

  /**
   On every run of arbitrary chunks: a message that is delivered is a final chunk behind what is pending of the
   same request, numbered in step, and consists of the last chunks that were accepted, none left out.
   */
  lemma {:induction false} DeliveredIsWhole(conn: Connection, chunks: seq<MessageChunk>, i: nat)
    requires Coherent(conn) && i < |chunks| && ReceiveChunks(conn, chunks).1[i].Delivered?
    ensures var parts := ReceiveChunks(conn, chunks).1[i].message.chunks;
            && IsWhole(parts) && parts[|parts| - 1] == chunks[i]
            && IsSuffix(parts, conn.incomingParts + AcceptedChunks(conn, chunks[..i + 1]))
    decreases |chunks|
  {
    hide Receive, IsExpected, IsWhole, Coherent, ReceiveChunks, AcceptedChunks, IsSuffix;
    var next := Receive(conn, chunks[0]).0;
    StaysCoherent(conn, chunks[0]);
    OneChunk(conn, chunks[0]);
    RunFromFirst(conn, chunks, i);
    var parts := ReceiveChunks(conn, chunks).1[i].message.chunks;
    if i == 0 {
      WholeIsSuffix(conn.incomingParts + [chunks[0]]);
    } else {
      DeliveredIsWhole(next, chunks[1..], i - 1);
      LongerSuffix(parts, conn.incomingParts, next.incomingParts,
                   if IsExpected(conn, chunks[0]) then [chunks[0]] else [], AcceptedChunks(next, chunks[1..][..i]));
    }
  }

  lemma WholeIsSuffix<T>(parts: seq<T>)
    ensures IsSuffix(parts, parts)
  {
  }

  /** The i-th step of a run, seen from the first and from the others. */
  lemma RunFromFirst(conn: Connection, chunks: seq<MessageChunk>, i: nat)
    requires i < |chunks|
    ensures var next := Receive(conn, chunks[0]).0;
            var accepted := if IsExpected(conn, chunks[0]) then [chunks[0]] else [];
            && AcceptedChunks(conn, chunks[..i + 1]) == accepted + AcceptedChunks(next, chunks[1..][..i])
            && (i == 0 ==>
                  && ReceiveChunks(conn, chunks).1[0] == Receive(conn, chunks[0]).1
                  && AcceptedChunks(conn, chunks[..1]) == accepted)
            && (i > 0 ==> ReceiveChunks(conn, chunks).1[i] == ReceiveChunks(next, chunks[1..]).1[i - 1])
  {
    hide Receive, IsExpected;
    assert chunks[..i + 1][0] == chunks[0] && chunks[..i + 1][1..] == chunks[1..][..i];
    if i == 0 {
      assert AcceptedChunks(Receive(conn, chunks[0]).0, []) == [];
    }
  }

  lemma LongerSuffix<T>(parts: seq<T>, before: seq<T>, after: seq<T>, accepted: seq<T>, others: seq<T>)
    requires IsSuffix(parts, after + others) && (after == [] || after == before + accepted)
    ensures IsSuffix(parts, before + (accepted + others))
  {
    assert before + (accepted + others) == (before + accepted) + others;
    if after == [] {
      assert [] + others == others;
    }
  }

  /**
   A chunk of an unknown kind raises, but stays among the pending parts: its body is delivered with the
   next final chunk of the request.
   */
  lemma UnknownKindStays(conn: Connection, odd: MessageChunk, last: MessageChunk)
    requires conn.incomingParts == [] && IsExpected(conn, odd) && odd.header.chunkType !in {70, 67, 65}
    requires last == odd.(header := odd.header.(chunkType := 70),
                          sequence := odd.sequence.(sequenceNumber := last.sequence.sequenceNumber))
    requires Continues(odd.sequence.sequenceNumber, last.sequence.sequenceNumber)
    ensures var (after, first) := Receive(conn, odd);
            && first.Raised?
            && Receive(after, last).1.Delivered? && Receive(after, last).1.message.chunks == [odd, last]
  {
    OneChunk(conn, odd);
    var after := Receive(conn, odd).0;
    OneChunk(after, last);
    hide Receive;
    assert [] + [odd] == [odd] && [odd] + [last] == [odd, last];
  }
}
