/** The bytes of the packets: how a chunk stands on the wire, and which bytes are taken for a chunk. */
module Wire {
  import opened Wrappers
  import opened Bytes
  import opened Crypto
  import opened Chunk
  import opened Channel
  import opened Delivery
  import opened Conversation

  // ----- A chunk on the wire -----

  function SignatureOf(lib: Library, crypto: Cryptography, data: Bytes): Bytes {
    match crypto
    case CryptographyNone => []
    case Cryptography(_, SignerAesCbc(key), _, _, _) => lib.hmacSha1(key, data)
    case Cryptography(_, SignerRsa(rsa), _, _, _) => lib.rsaSign(rsa, data)
  }

  /** Both headers: the type, the kind of chunk, the size of the whole packet, the channel, then token or policy. */
  function HeadOf(c: MessageChunk, size: u32): Bytes {
    c.header.messageType + [c.header.chunkType] + PackU32(size) + PackU32(c.header.channelId)
    + match c.security
      case Symmetric(token) => PackU32(token)
      case Asymmetric(uri, certificate, thumb) => PackText(uri) + PackText(certificate) + PackText(thumb)
  }

  function PlainOf(c: MessageChunk): Bytes {
    PackU32(c.sequence.sequenceNumber) + PackU32(c.sequence.requestId) + c.body
  }

  /** k + 1 bytes of value k fill the last block, and no block is all padding; the signature covers the head too. */
  predicate PaddedWith(lib: Library, crypto: Cryptography, draw: nat, head: Bytes, plain: Bytes, cipher: Bytes, k: byte)
    requires crypto.IsEncrypted() && crypto.Valid()
  {
    var padded := plain + Repeat(k, k as nat + 1);
    var signed := padded + SignatureOf(lib, crypto, head + padded);
    match crypto.encryptor
    case EncryptorAesCbc(key, iv) =>
      k as nat < |key| && |signed| % |key| == 0 && cipher == lib.aesEncrypt(key, iv, signed)
    case EncryptorRsa(rsa, scheme) =>
      var block := rsa.size - scheme.PaddingSize();
      k as nat < block && |signed| % block == 0 && cipher == EncryptBlocks(lib, scheme, rsa, draw, signed)
  }

  /** What the mode makes of the plain bytes: nothing, a signature behind them, or both padded and encrypted. */
  predicate Protects(lib: Library, crypto: Cryptography, draw: nat, head: Bytes, plain: Bytes, cipher: Bytes)
    requires crypto.Valid()
  {
    match crypto
    case CryptographyNone => cipher == plain
    case Cryptography(encrypted, _, _, _, _) =>
      if !encrypted then cipher == plain + SignatureOf(lib, crypto, head + plain)
      else exists k: byte :: PaddedWith(lib, crypto, draw, head, plain, cipher, k)
  }

  predicate IsWireForm(lib: Library, crypto: Cryptography, draw: nat, c: MessageChunk, packet: Bytes)
    requires crypto.Valid()
  {
    |packet| < U32_LIMIT &&
    var head := HeadOf(c, |packet|);
    |head| <= |packet| && packet[..|head|] == head
    && Protects(lib, crypto, draw, head, PlainOf(c), packet[|head|..])
  }

  /** The bytes of an encoded chunk, one by one. */
  lemma PacketLayout(lib: Library, crypto: Cryptography, draw: nat, c: MessageChunk)
    requires lib.Lawful() && crypto.Valid() && c.Valid() && ToBinary(lib, crypto, draw, c).Ok?
    ensures IsWireForm(lib, crypto, draw, c, ToBinary(lib, crypto, draw, c).value.1)
  {
    hide ToBinary, IsEncoding, Library.Lawful, Protects, PlainOf;
    var declared, header, padded, cipher := EncodedParts(lib, crypto, draw, c);
    EncodedSizes(lib, crypto, draw, c, declared, header, padded, cipher);
    EncodedIsProtected(lib, crypto, draw, c, declared, header, padded, cipher);
    var (head, packet) := (header + SecurityToBinary(c.security), header + SecurityToBinary(c.security) + cipher);
    assert packet[..|head|] == head && packet[|head|..] == cipher;
  }

  lemma EncodedSizes(lib: Library, crypto: Cryptography, draw: nat, c: MessageChunk,
                     declared: MessageChunk, header: Bytes, padded: Bytes, cipher: Bytes)
    requires lib.Lawful() && crypto.Valid() && c.Valid()
    requires IsEncoding(lib, crypto, draw, c, declared, header, padded, cipher)
    ensures var size := |header + SecurityToBinary(c.security) + cipher|;
            size < U32_LIMIT && header + SecurityToBinary(c.security) == HeadOf(c, size)
  {
    MirrorIsPaired(crypto);
    CipherRoundTrip(lib, crypto, Mirror(crypto), draw, header + SecurityToBinary(c.security), padded);
    HeaderRoundTrip(declared.header, []);
    hide Library.Lawful, EncryptedPartSize, EncryptedSize, Cryptography.Encrypt, Cryptography.Decrypt;
    hide Cryptography.Signature, Cryptography.Verify, Cryptography.Padding, Paired;
  }

  lemma EncodedIsProtected(lib: Library, crypto: Cryptography, draw: nat, c: MessageChunk,
                           declared: MessageChunk, header: Bytes, padded: Bytes, cipher: Bytes)
    requires lib.Lawful() && crypto.Valid() && c.Valid()
    requires IsEncoding(lib, crypto, draw, c, declared, header, padded, cipher)
    ensures Protects(lib, crypto, draw, header + SecurityToBinary(c.security), PlainOf(c), cipher)
  {
    var (head, plain) := (header + SecurityToBinary(c.security), PlainOf(c));
    hide HeaderToBinary, SecurityToBinary, EncryptedPartSize, Library.Lawful;
    var n := SEQUENCE_HEADER_SIZE + |c.body|;
    assert plain == SequenceToBinary(c.sequence) + c.body && |plain| == n;
    if crypto.IsEncrypted() {
      var k := crypto.PaddingByte(n) as byte;
      assert padded == plain + Repeat(k, k as nat + 1);
      assert PaddedWith(lib, crypto, draw, head, plain, cipher, k);
    } else {
      assert padded == plain;
    }
  }

  // ----- A message on the wire -----

  /** The k-th number after n: they run through 1 to 2^32 - 1 and begin again at 1. */
  function NumberAfter(n: nat, k: nat): (number: nat)
    ensures 0 < number < 0x1_0000_0000
  {
    (n + k) % 0xFFFF_FFFF + 1
  }

  lemma {:induction false} NumbersAre(chunks: seq<MessageChunk>, n: nat, i: nat)
    requires n < U32_LIMIT && i < |chunks|
    ensures Number(chunks, n)[i] == chunks[i].(sequence := chunks[i].sequence.(sequenceNumber := NumberAfter(n, i)))
    decreases |chunks|
  {
    if i > 0 {
      NumbersAre(chunks[1..], NextNumber(n), i - 1);
      NumberAfterNext(n, i - 1);
    }
  }

  lemma NumberAfterNext(n: nat, k: nat)
    requires n < U32_LIMIT
    ensures NumberAfter(NextNumber(n), k) == NumberAfter(n, k + 1)
  {
    if n == 0xFFFF_FFFF {
      assert (n + k + 1) % 0xFFFF_FFFF == (k + 1) % 0xFFFF_FFFF;
    }
  }

  lemma {:induction false} LastNumberIs(count: nat, n: nat)
    requires n < U32_LIMIT && count > 0
    ensures LastNumber(count, n) == NumberAfter(n, count - 1)
    decreases count
  {
    if count > 1 {
      LastNumberIs(count - 1, NextNumber(n));
      NumberAfterNext(n, count - 2);
    }
  }

  lemma {:induction false} PacketsOf(lib: Library, policy: SecurityPolicy, draw: nat, chunks: seq<MessageChunk>, i: nat)
    requires policy.Valid() && EncodeAll(lib, policy, draw, chunks).Ok? && i < |chunks|
    ensures var packets := EncodeAll(lib, policy, draw, chunks).value;
            && |packets| == |chunks|
            && ToBinary(lib, policy.CryptoFor(chunks[i].header.messageType), draw + i, chunks[i]).Ok?
            && packets[i] ==
               ToBinary(lib, policy.CryptoFor(chunks[i].header.messageType), draw + i, chunks[i]).value.1
    decreases |chunks|
  {
    hide ToBinary;
    EncodeAllLength(lib, policy, draw, chunks);
    if i > 0 {
      PacketsOf(lib, policy, draw + 1, chunks[1..], i - 1);
    }
  }

  /** The packets are these chunks, each the i-th after the connection's last number, under this cryptography. */
  predicate SentAs(lib: Library, conn: Connection, crypto: Cryptography, draw: nat, requestId: u32,
                   chunks: seq<MessageChunk>, packets: seq<Bytes>)
    requires crypto.Valid()
  {
    && |packets| == |chunks|
    && forall i | 0 <= i < |packets| ::
         && chunks[i].header.channelId == conn.channelId
         && chunks[i].sequence == SequenceHeader(NumberAfter(conn.sequenceNumber, i), requestId)
         && IsWireForm(lib, crypto, draw + i, chunks[i], packets[i])
  }

  /**
   A symmetric message: the chunks in order hold its body, name type, token and request, and only the last
   is final.
   */
  predicate IsCut(chunks: seq<MessageChunk>, body: Bytes, messageType: Tag, token: u32, maxSize: int) {
    && Join(Bodies(chunks)) == body
    && forall i | 0 <= i < |chunks| ::
         && chunks[i].header.messageType == messageType && chunks[i].security == Symmetric(token)
         && chunks[i].header.chunkType == (if i == |chunks| - 1 then 70 else 67)
         && 0 < |chunks[i].body| <= maxSize && (i < |chunks| - 1 ==> |chunks[i].body| == maxSize)
  }

  lemma SentMessage(lib: Library, conn: Connection, draw: nat, body: Bytes, messageType: Tag, requestId: u32,
                    token: u32)
    returns (chunks: seq<MessageChunk>)
    requires lib.Lawful() && conn.Valid() && messageType in {SECURE_MESSAGE, SECURE_CLOSE}
    requires MaxBodySize(conn.policy.symmetric, conn.maxChunkSize) > 0
    requires Send(lib, conn, draw, body, messageType, requestId, token).1.Ok?
    ensures IsCut(chunks, body, messageType, token, MaxBodySize(conn.policy.symmetric, conn.maxChunkSize))
    ensures var (after, packets) := Send(lib, conn, draw, body, messageType, requestId, token);
            && SentAs(lib, conn, conn.policy.symmetric, draw, requestId, chunks, packets.value)
            && after == conn.(sequenceNumber := if chunks == [] then conn.sequenceNumber
                                                else NumberAfter(conn.sequenceNumber, |chunks| - 1))
  {
    hide Library.Lawful, IsWireForm, EncodeAll, MaxBodySize, IsCut, SentAs, SplitBody, NumberAfter;
    var max := MaxBodySize(conn.policy.symmetric, conn.maxChunkSize);
    var cut := SplitBody(body, max, messageType, conn.channelId, token, requestId);
    chunks := Number(cut, conn.sequenceNumber);
    SplitIsCut(body, max, messageType, conn.channelId, token, requestId, conn.sequenceNumber);
    CutIsSent(lib, conn, draw, messageType, requestId, token, cut);
    if cut != [] {
      LastNumberIs(|cut|, conn.sequenceNumber);
    }
  }

  lemma SplitIsCut(body: Bytes, max: nat, messageType: Tag, channelId: u32, token: u32, requestId: u32, n: nat)
    requires max > 0 && n < U32_LIMIT
    ensures var cut := SplitBody(body, max, messageType, channelId, token, requestId);
            && IsCut(Number(cut, n), body, messageType, token, max)
            && forall i | 0 <= i < |cut| ::
                 && cut[i].header.messageType == messageType && cut[i].header.channelId == channelId
                 && cut[i].security == Symmetric(token) && cut[i].sequence.requestId == requestId
  {
    hide SplitBody, Number, Bodies, Join, IsCut, Numbered, IsPart;
    var cut := SplitBody(body, max, messageType, channelId, token, requestId);
    NumberKeeps(cut, n);
    SplitBodyKeepsBody(body, max, messageType, channelId, token, requestId);
    forall i | 0 <= i < |cut|
      ensures IsPart(cut[i], messageType, if i == |cut| - 1 then SINGLE else INTERMEDIATE, channelId, token, requestId)
      ensures 0 < |cut[i].body| <= max && (i < |cut| - 1 ==> |cut[i].body| == max)
    {
      SplitBodyParts(body, max, messageType, channelId, token, requestId, i);
    }
    PartsAreCut(cut, Number(cut, n), body, max, messageType, channelId, token, requestId);
  }

  lemma PartsAreCut(cut: seq<MessageChunk>, chunks: seq<MessageChunk>, body: Bytes, max: nat,
                    messageType: Tag, channelId: u32, token: u32, requestId: u32)
    requires |chunks| == |cut| && Join(Bodies(chunks)) == body
    requires forall i | 0 <= i < |cut| ::
               && IsPart(cut[i], messageType, if i == |cut| - 1 then SINGLE
                                              else INTERMEDIATE, channelId, token, requestId)
               && 0 < |cut[i].body| <= max && (i < |cut| - 1 ==> |cut[i].body| == max)
    requires forall i | 0 <= i < |cut| :: chunks[i] == cut[i].(sequence := chunks[i].sequence)
    ensures IsCut(chunks, body, messageType, token, max)
    ensures forall i | 0 <= i < |cut| ::
              && cut[i].header.messageType == messageType && cut[i].header.channelId == channelId
              && cut[i].security == Symmetric(token) && cut[i].sequence.requestId == requestId
  {
    hide Bodies, Join;
  }

  lemma CutIsSent(lib: Library, conn: Connection, draw: nat, messageType: Tag, requestId: u32, token: u32,
                  cut: seq<MessageChunk>)
    requires lib.Lawful() && conn.Valid() && messageType in {SECURE_MESSAGE, SECURE_CLOSE}
    requires EncodeAll(lib, conn.policy, draw, Number(cut, conn.sequenceNumber)).Ok?
    requires forall i | 0 <= i < |cut| ::
               && cut[i].header.messageType == messageType && cut[i].header.channelId == conn.channelId
               && cut[i].security == Symmetric(token) && cut[i].sequence.requestId == requestId
    ensures var chunks := Number(cut, conn.sequenceNumber);
            SentAs(lib, conn, conn.policy.symmetric, draw, requestId, chunks,
                   EncodeAll(lib, conn.policy, draw, chunks).value)
    ensures forall i | 0 <= i < |cut| ::
              Number(cut, conn.sequenceNumber)[i] ==
              cut[i].(sequence := SequenceHeader(NumberAfter(conn.sequenceNumber, i), requestId))
  {
    hide Library.Lawful, IsWireForm, EncodeAll, NumberAfter, Number, ToBinary;
    var chunks := Number(cut, conn.sequenceNumber);
    EncodeAllLength(lib, conn.policy, draw, chunks);
    forall i | 0 <= i < |cut|
      ensures chunks[i] == cut[i].(sequence := SequenceHeader(NumberAfter(conn.sequenceNumber, i), requestId))
      ensures IsWireForm(lib, conn.policy.symmetric, draw + i, chunks[i],
                         EncodeAll(lib, conn.policy, draw, chunks).value[i])
    {
      NumbersAre(cut, conn.sequenceNumber, i);
      PacketsOf(lib, conn.policy, draw, chunks, i);
      PacketLayout(lib, conn.policy.symmetric, draw + i, chunks[i]);
    }
  }

  /** An open message: one chunk, with the policy, the own certificate and the print of the peer's, if there are any. */
  lemma SentOpen(lib: Library, conn: Connection, draw: nat, body: Bytes, requestId: u32, token: u32)
    returns (c: MessageChunk)
    requires lib.Lawful() && conn.Valid() && Send(lib, conn, draw, body, SECURE_OPEN, requestId, token).1.Ok?
    ensures var (after, packets) := Send(lib, conn, draw, body, SECURE_OPEN, requestId, token);
            && SentAs(lib, conn, conn.policy.asymmetric, draw, requestId, [c], packets.value)
            && after == conn.(sequenceNumber := NumberAfter(conn.sequenceNumber, 0))
    ensures c.header.messageType == [79, 80, 78] && c.header.chunkType == 70 && c.body == body
    ensures c.security.Asymmetric? && c.security.policyUri == Some(conn.policy.uri)
    ensures c.security.senderCertificate == if conn.policy.clientCertificate == [] then None
                                            else Some(conn.policy.clientCertificate)
    ensures c.security.receiverThumbPrint == if conn.policy.serverCertificate == [] then None
                                             else Some(lib.sha1(conn.policy.serverCertificate))
  {
    hide ToBinary, IsWireForm;
    var plain := OpenChunk(lib, conn.policy, conn.channelId, requestId, body);
    var cut := [plain];
    var chunks := Number(cut, conn.sequenceNumber);
    NumbersAre(cut, conn.sequenceNumber, 0);
    LastNumberIs(1, conn.sequenceNumber);
    PacketsOf(lib, conn.policy, draw, chunks, 0);
    c := chunks[0];
    assert chunks == [c];
    PacketLayout(lib, conn.policy.asymmetric, draw, c);
    hide EncodeAll, NumberAfter, Number, LastNumber, Library.Lawful, OpenChunk;
    assert draw + 0 == draw;
  }
}
