/** Message chunks: their binary form, its inverse, and the cutting of a message into chunks. */
module Chunk {
  import opened Wrappers
  import opened Bytes
  import opened Arithmetic
  import opened Crypto

  type Tag = s: Bytes | |s| == 3 witness [0, 0, 0]
  const SECURE_OPEN: Tag := [79, 80, 78]      // OPN
  const SECURE_CLOSE: Tag := [67, 76, 79]     // CLO
  const SECURE_MESSAGE: Tag := [77, 83, 71]   // MSG

  const SINGLE: byte := 70         // F
  const INTERMEDIATE: byte := 67   // C
  const ABORT: byte := 65          // A

  const HEADER_SIZE: nat := 12
  const SYMMETRIC_HEADER_SIZE: nat := 4
  const SEQUENCE_HEADER_SIZE: nat := 8

  datatype Header = Header(messageType: Tag, chunkType: byte, channelId: u32, bodySize: int)

  datatype SecurityHeader =
    | Symmetric(tokenId: u32)
    | Asymmetric(policyUri: Option<Text>, senderCertificate: Option<Text>, receiverThumbPrint: Option<Text>)

  datatype SequenceHeader = SequenceHeader(sequenceNumber: u32, requestId: u32)

  datatype MessageChunk = MessageChunk(header: Header, security: SecurityHeader, sequence: SequenceHeader,
                                       body: Bytes) {
    /** What the constructor of the chunk establishes. */
    predicate Valid() {
      match security
      case Symmetric(_) => header.messageType in {SECURE_MESSAGE, SECURE_CLOSE}
      case Asymmetric(_, _, _) => header.messageType == SECURE_OPEN
    }
  }

  datatype Mode = NoSecurity | Sign | SignAndEncrypt

  /** `keys` is None for the policy that derives no keys. */
  datatype SecurityPolicy = SecurityPolicy(
    uri: Text,
    mode: Mode,
    keys: Option<KeyLengths>,
    symmetric: Cryptography,
    asymmetric: Cryptography,
    clientCertificate: Text,
    serverCertificate: Text)
  {
    predicate Valid() {
      symmetric.Valid() && asymmetric.Valid()
    }

    function CryptoFor(messageType: Tag): Cryptography {
      if messageType == SECURE_OPEN then asymmetric else symmetric
    }

    /** What make_symmetric_key changes; the policy without keys has nothing to change. */
    function Rekeyed(lib: Library, nonce1: Bytes, nonce2: Bytes): SecurityPolicy
      requires lib.Lawful()
    {
      match keys
      case None => this
      case Some(lengths) => this.(symmetric := SymmetricKeys(lib, lengths, mode == SignAndEncrypt, nonce1, nonce2))
    }
  }

  /** The policies of two endpoints of one channel, for the direction tx to rx. */
  predicate PairedPolicies(tx: SecurityPolicy, rx: SecurityPolicy) {
    tx.uri == rx.uri && Paired(tx.symmetric, rx.symmetric) && Paired(tx.asymmetric, rx.asymmetric)
  }

  /** As far as messages of one type go. */
  predicate PairedFor(tx: SecurityPolicy, rx: SecurityPolicy, messageType: Tag) {
    tx.Valid() && rx.Valid() && Paired(tx.CryptoFor(messageType), rx.CryptoFor(messageType))
  }

  // ----- Headers -----

  predicate IsSecure(messageType: Tag) {
    messageType in {SECURE_OPEN, SECURE_CLOSE, SECURE_MESSAGE}
  }

  function HeaderToBinary(h: Header): Result<Bytes, Error> {
    var size := h.bodySize + if IsSecure(h.messageType) then 12 else 8;
    if !(0 <= size < U32_LIMIT) then Err(StructError)
    else
      Ok(h.messageType + [h.chunkType] + PackU32(size) + if IsSecure(h.messageType) then PackU32(h.channelId) else [])
  }

  function HeaderFromBinary(data: Bytes): (r: Result<Cursor<Header>, Error>)
    ensures r.Ok? ==> |r.value.rest| == |data| - if IsSecure(r.value.value.messageType) then 12 else 8
    ensures r.Ok? ==> r.value.rest == data[|data| - |r.value.rest|..]
  {
    var c :- ReadBytes(data, 8);
    var messageType: Tag, chunkType, size := c.value[..3], c.value[3], UnpackU32(c.value[4..]);
    if IsSecure(messageType) then
      var id :- ReadU32(c.rest);
      Ok(Cursor(Header(messageType, chunkType, id.value, size - 12), id.rest))
    else
      Ok(Cursor(Header(messageType, chunkType, 0, size - 8), c.rest))
  }

  lemma HeaderRoundTrip(h: Header, rest: Bytes)
    requires IsSecure(h.messageType) && HeaderToBinary(h).Ok?
    ensures |HeaderToBinary(h).value| == HEADER_SIZE
    ensures HeaderFromBinary(HeaderToBinary(h).value + rest) == Ok(Cursor(h, rest))
  {
    var size := h.bodySize + 12;
    var first, second := h.messageType + [h.chunkType] + PackU32(size), PackU32(h.channelId);
    var data := HeaderToBinary(h).value + rest;
    assert data == first + (second + rest);
    assert data[..8] == first && data[8..] == second + rest;
    assert first[..3] == h.messageType && first[3] == h.chunkType && first[4..] == PackU32(size);
    U32RoundTrip(size);
    ReadPackedU32(h.channelId, rest);
  }

  function SecurityToBinary(s: SecurityHeader): Bytes {
    match s
    case Symmetric(token) => PackU32(token)
    case Asymmetric(uri, certificate, thumb) => PackText(uri) + PackText(certificate) + PackText(thumb)
  }

  function SecurityFromBinary(messageType: Tag, data: Bytes): Result<Cursor<SecurityHeader>, Error> {
    if messageType in {SECURE_MESSAGE, SECURE_CLOSE} then
      var token :- ReadU32(data);
      Ok(Cursor(Symmetric(token.value), token.rest))
    else if messageType == SECURE_OPEN then
      var uri :- ReadText(data);
      var certificate :- ReadText(uri.rest);
      var thumb :- ReadText(certificate.rest);
      Ok(Cursor(Asymmetric(uri.value, certificate.value, thumb.value), thumb.rest))
    else Err(UaError)
  }

  lemma SecurityRoundTrip(c: MessageChunk, rest: Bytes)
    requires c.Valid()
    ensures SecurityFromBinary(c.header.messageType, SecurityToBinary(c.security) + rest) ==
            Ok(Cursor(c.security, rest))
  {
    match c.security
    case Symmetric(token) => ReadPackedU32(token, rest);
    case Asymmetric(uri, certificate, thumb) =>
      var afterUri := PackText(certificate) + (PackText(thumb) + rest);
      assert SecurityToBinary(c.security) + rest == PackText(uri) + afterUri;
      ReadPackedText(uri, afterUri);
      ReadPackedText(certificate, PackText(thumb) + rest);
      ReadPackedText(thumb, rest);
  }

  function SequenceToBinary(s: SequenceHeader): (b: Bytes)
    ensures |b| == SEQUENCE_HEADER_SIZE
  {
    PackU32(s.sequenceNumber) + PackU32(s.requestId)
  }

  function SequenceFromBinary(data: Bytes): Result<Cursor<SequenceHeader>, Error> {
    var number :- ReadU32(data);
    var request :- ReadU32(number.rest);
    Ok(Cursor(SequenceHeader(number.value, request.value), request.rest))
  }

  lemma SequenceRoundTrip(s: SequenceHeader, rest: Bytes)
    ensures SequenceFromBinary(SequenceToBinary(s) + rest) == Ok(Cursor(s, rest))
  {
    assert SequenceToBinary(s) + rest == PackU32(s.sequenceNumber) + (PackU32(s.requestId) + rest);
    ReadPackedU32(s.sequenceNumber, PackU32(s.requestId) + rest);
    ReadPackedU32(s.requestId, rest);
  }

  // ----- Chunks -----

  function EncryptedSize(crypto: Cryptography, plainSize: nat): Result<nat, Error>
    requires crypto.Valid()
  {
    var size := plainSize + crypto.SignatureSize();
    if size % crypto.PlainBlockSize() != 0 then Err(UaError)
    else Ok(size / crypto.PlainBlockSize() * crypto.EncryptedBlockSize())
  }

  /** The chunk's bytes, and the chunk with the body size that its header then declares. */
  function ToBinary(lib: Library, crypto: Cryptography, draw: nat, c: MessageChunk)
    : Result<(MessageChunk, Bytes), Error>
    requires crypto.Valid()
  {
    var security := SecurityToBinary(c.security);
    var plain := SequenceToBinary(c.sequence) + c.body;
    var padding :- crypto.Padding(|plain|);
    var padded := plain + padding;
    var encryptedSize :- EncryptedSize(crypto, |padded|);
    var declared := c.(header := c.header.(bodySize := |security| + encryptedSize));
    var header :- HeaderToBinary(declared.header);
    var cipher :- crypto.Encrypt(lib, draw, padded + crypto.Signature(lib, header + security + padded));
    Ok((declared, header + security + cipher))
  }

  /** The decoder for the bytes that follow the header; data holds exactly the declared body. */
  function FromHeaderAndBody(lib: Library, policy: SecurityPolicy, header: Header, data: Bytes)
    : (r: Result<MessageChunk, Error>)
    requires policy.Valid()
    ensures r.Ok? ==> r.value.Valid() && r.value.header == header
  {
    var security :- SecurityFromBinary(header.messageType, data);
    var crypto := policy.CryptoFor(header.messageType);
    var decrypted :- crypto.Decrypt(lib, security.rest);
    var n := crypto.VSignatureSize();
    var signed := if n > 0 then ButLastBytes(decrypted, n) else decrypted;
    var _ :- CheckSignature(lib, crypto, header, security.value, decrypted);
    var plain :- crypto.RemovePadding(signed);
    var sequence :- SequenceFromBinary(plain);
    Ok(MessageChunk(header, security.value, sequence.value, sequence.rest))
  }

  function CheckSignature(lib: Library, crypto: Cryptography, header: Header, security: SecurityHeader,
                          decrypted: Bytes): Result<(), Error> {
    var n := crypto.VSignatureSize();
    if n == 0 then Ok(())
    else
      var head :- HeaderToBinary(header);
      if crypto.Verify(lib, head + SecurityToBinary(security) + ButLastBytes(decrypted, n), LastBytes(decrypted, n))
      then Ok(()) else Err(InvalidSignature)
  }

  /** A header that declares fewer bytes than the header itself is outside this model and reads as an error. */
  function FromBinary(lib: Library, policy: SecurityPolicy, data: Bytes): Result<Cursor<MessageChunk>, Error>
    requires policy.Valid()
  {
    var h :- HeaderFromBinary(data);
    var size := h.value.bodySize;
    if size < 0 || size > |h.rest| then Err(AssertionError)
    else
      var c :- FromHeaderAndBody(lib, policy, h.value, h.rest[..size]);
      Ok(Cursor(c, h.rest[size..]))
  }

  /** Decoding through the buffer: it moves past exactly the declared body, also when decoding fails. */
  method ReadChunk(lib: Library, policy: SecurityPolicy, header: Header, buf: Buffer)
      returns (r: Result<MessageChunk, Error>)
    requires policy.Valid() && buf.Valid() && header.bodySize >= 0
    modifies buf
    ensures buf.Valid()
    ensures header.bodySize > |old(buf.Contents())| ==>
            r == Err(AssertionError) && buf.Contents() == old(buf.Contents())
    ensures header.bodySize <= |old(buf.Contents())| ==>
              && r == FromHeaderAndBody(lib, policy, header, old(buf.Contents())[..header.bodySize])
              && buf.Contents() == old(buf.Contents())[header.bodySize..]
  {
    if buf.size < header.bodySize {
      return Err(AssertionError);
    }
    var data := buf.Copy(header.bodySize);
    var _ := buf.Skip(header.bodySize);
    var security := SecurityFromBinary(header.messageType, data.Contents());
    if security.Err? {
      return Err(security.error);
    }
    var crypto := policy.CryptoFor(header.messageType);
    var decrypted := crypto.Decrypt(lib, security.value.rest);
    if decrypted.Err? {
      return Err(decrypted.error);
    }
    var signed := decrypted.value;
    var n := crypto.VSignatureSize();
    if n > 0 {
      var signature := LastBytes(signed, n);
      signed := ButLastBytes(signed, n);
      var head := HeaderToBinary(header);
      if head.Err? {
        return Err(head.error);
      }
      if !crypto.Verify(lib, head.value + SecurityToBinary(security.value.value) + signed, signature) {
        return Err(InvalidSignature);
      }
    }
    var plain := crypto.RemovePadding(signed);
    if plain.Err? {
      return Err(plain.error);
    }
    var sequence := SequenceFromBinary(plain.value);
    if sequence.Err? {
      return Err(sequence.error);
    }
    r := Ok(MessageChunk(header, security.value.value, sequence.value.value, sequence.value.rest));
  }

  // Blocks needed to hold n bytes.
  function Blocks(n: nat, block: nat): nat
    requires block > 0
  {
    (n + block - 1) / block
  }

  function PacketSize(crypto: Cryptography, c: MessageChunk): nat
    requires crypto.Valid()
  {
    HEADER_SIZE + |SecurityToBinary(c.security)| + EncryptedPartSize(crypto, |c.body|)
  }

  /** Sequence header, body, padding and signature, in whole cipher blocks. */
  function EncryptedPartSize(crypto: Cryptography, bodySize: nat): nat
    requires crypto.Valid()
  {
    var n := SEQUENCE_HEADER_SIZE + bodySize + crypto.SignatureSize() + crypto.MinPaddingSize();
    Blocks(n, crypto.PlainBlockSize()) * crypto.EncryptedBlockSize()
  }

  /** Padding makes whole blocks, as many as EncryptedPartSize says. */
  lemma PaddedBlocks(crypto: Cryptography, plain: nat)
    requires crypto.Valid() && crypto.Padding(plain).Ok? && plain >= SEQUENCE_HEADER_SIZE
    ensures EncryptedSize(crypto, plain + |crypto.Padding(plain).value|) ==
            Ok(EncryptedPartSize(crypto, plain - SEQUENCE_HEADER_SIZE))
  {
    var block := crypto.PlainBlockSize();
    var n := plain + crypto.SignatureSize() + crypto.MinPaddingSize();
    var up := plain + |crypto.Padding(plain).value| + crypto.SignatureSize();
    RoundUp(n, block);
    var q := up / block;
    assert up == q * block && n <= up < n + block;
    DivisionIsUnique(n + block - 1, block, q, n + block - 1 - up);
    DivisionIsUnique(up, block, q, 0);
  }

  /** Exactly when a chunk has a binary form: its padding byte and its packet size fit their fields. */
  lemma ToBinarySucceeds(lib: Library, crypto: Cryptography, draw: nat, c: MessageChunk)
    requires lib.Lawful() && crypto.Valid() && c.Valid()
    ensures ToBinary(lib, crypto, draw, c).Ok? <==>
              && (crypto.IsEncrypted() ==> crypto.PaddingByte(SEQUENCE_HEADER_SIZE + |c.body|) <= 255)
              && PacketSize(crypto, c) < U32_LIMIT
  {
    var n := SEQUENCE_HEADER_SIZE + |c.body|;
    assert |SequenceToBinary(c.sequence) + c.body| == n;
    if crypto.Padding(n).Ok? {
      PaddedBlocks(crypto, n);
      hide EncryptedPartSize;
      forall data {
        SignatureLength(lib, crypto, data);
      }
    }
  }

  lemma SignatureLength(lib: Library, crypto: Cryptography, data: Bytes)
    requires lib.Lawful()
    ensures |crypto.Signature(lib, data)| == crypto.SignatureSize()
  {
  }

  /** The pieces of an encoded chunk, and what its header declares. */
  predicate IsEncoding(lib: Library, crypto: Cryptography, draw: nat, c: MessageChunk,
                       declared: MessageChunk, header: Bytes, padded: Bytes, cipher: Bytes)
    requires crypto.Valid()
  {
    var padding := crypto.Padding(SEQUENCE_HEADER_SIZE + |c.body|);
    var security := SecurityToBinary(c.security);
    && declared == c.(header := c.header.(bodySize := |security| + EncryptedPartSize(crypto, |c.body|)))
    && HeaderToBinary(declared.header) == Ok(header)
    && padding.Ok? && padded == SequenceToBinary(c.sequence) + c.body + padding.value
    && EncryptedSize(crypto, |padded|) == Ok(EncryptedPartSize(crypto, |c.body|))
    && crypto.Encrypt(lib, draw, padded + crypto.Signature(lib, header + security + padded)) == Ok(cipher)
  }

  lemma EncodedParts(lib: Library, crypto: Cryptography, draw: nat, c: MessageChunk)
    returns (declared: MessageChunk, header: Bytes, padded: Bytes, cipher: Bytes)
    requires crypto.Valid() && ToBinary(lib, crypto, draw, c).Ok?
    ensures IsEncoding(lib, crypto, draw, c, declared, header, padded, cipher)
    ensures ToBinary(lib, crypto, draw, c) == Ok((declared, header + SecurityToBinary(c.security) + cipher))
  {
    var plain := SequenceToBinary(c.sequence) + c.body;
    var security := SecurityToBinary(c.security);
    PaddedBlocks(crypto, |plain|);
    hide EncryptedPartSize, EncryptedSize, HeaderToBinary, SecurityToBinary, SequenceToBinary;
    hide Cryptography.Padding, Cryptography.Encrypt, Cryptography.Signature, Cryptography.PlainBlockSize;
    declared := ToBinary(lib, crypto, draw, c).value.0;
    padded := plain + crypto.Padding(|plain|).value;
    header := HeaderToBinary(declared.header).value;
    cipher := crypto.Encrypt(lib, draw, padded + crypto.Signature(lib, header + security + padded)).value;
  }

  /** Decoding undoes encoding in all three modes, and the declared size is the number of bytes after the header. */
  lemma ChunkRoundTrip(lib: Library, tx: SecurityPolicy, rx: SecurityPolicy, draw: nat, c: MessageChunk, rest: Bytes)
    requires lib.Lawful() && PairedFor(tx, rx, c.header.messageType) && c.Valid()
    requires ToBinary(lib, tx.CryptoFor(c.header.messageType), draw, c).Ok?
    ensures var (declared, bytes) := ToBinary(lib, tx.CryptoFor(c.header.messageType), draw, c).value;
            && |bytes| == PacketSize(tx.CryptoFor(c.header.messageType), c) >= HEADER_SIZE
            && declared == c.(header := c.header.(bodySize := |bytes| - HEADER_SIZE))
            && HeaderFromBinary(bytes + rest) == Ok(Cursor(declared.header, bytes[HEADER_SIZE..] + rest))
            && FromHeaderAndBody(lib, rx, declared.header, bytes[HEADER_SIZE..]) == Ok(declared)
            && FromBinary(lib, rx, bytes + rest) == Ok(Cursor(declared, rest))
  {
    var crypto, peer := tx.CryptoFor(c.header.messageType), rx.CryptoFor(c.header.messageType);
    hide ToBinary, FromBinary, EncryptedPartSize, FromHeaderAndBody, HeaderFromBinary, SecurityToBinary, IsEncoding,
         Library.Lawful, Paired;
    var declared, header, padded, cipher := EncodedParts(lib, crypto, draw, c);
    EncodingIsDecoded(lib, crypto, peer, rx, draw, c, declared, header, padded, cipher);
    var body := SecurityToBinary(c.security) + cipher;
    DecodePacket(lib, rx, declared, header, body, rest);
    assert header + SecurityToBinary(c.security) + cipher == header + body;
  }

  lemma EncodingIsDecoded(lib: Library, crypto: Cryptography, peer: Cryptography, rx: SecurityPolicy, draw: nat,
                          c: MessageChunk,
                          declared: MessageChunk, header: Bytes, padded: Bytes, cipher: Bytes)
    requires lib.Lawful() && Paired(crypto, peer) && rx.Valid() && c.Valid()
             && peer == rx.CryptoFor(c.header.messageType)
    requires IsEncoding(lib, crypto, draw, c, declared, header, padded, cipher)
    ensures |SecurityToBinary(c.security) + cipher| == PacketSize(crypto, c) - HEADER_SIZE
    ensures declared == c.(header := c.header.(bodySize := |SecurityToBinary(c.security) + cipher|))
    ensures HeaderToBinary(declared.header) == Ok(header)
    ensures FromHeaderAndBody(lib, rx, declared.header, SecurityToBinary(c.security) + cipher) == Ok(declared)
  {
    hide EncryptedPartSize, EncryptedSize, FromHeaderAndBody, HeaderToBinary;
    hide Library.Lawful, Cryptography.Encrypt, Cryptography.Decrypt, Cryptography.Signature, Cryptography.Verify,
         Cryptography.Padding;
    var security := SecurityToBinary(c.security);
    CipherRoundTrip(lib, crypto, peer, draw, header + security, padded);
    DecodeBody(lib, crypto, peer, rx, declared, padded, crypto.Signature(lib, header + security + padded), cipher);
  }

  lemma DecodePacket(lib: Library, rx: SecurityPolicy, c: MessageChunk, header: Bytes, body: Bytes, rest: Bytes)
    requires rx.Valid() && c.Valid() && HeaderToBinary(c.header) == Ok(header) && c.header.bodySize == |body|
    requires FromHeaderAndBody(lib, rx, c.header, body) == Ok(c)
    ensures |header| == HEADER_SIZE && (header + body)[HEADER_SIZE..] == body
    ensures HeaderFromBinary(header + body + rest) == Ok(Cursor(c.header, body + rest))
    ensures FromBinary(lib, rx, header + body + rest) == Ok(Cursor(c, rest))
  {
    hide FromHeaderAndBody, HeaderToBinary, HeaderFromBinary;
    HeaderRoundTrip(c.header, body + rest);
    assert header + body + rest == header + (body + rest);
    DropPacket(body, rest);
  }

  /** The receiver gets back what was signed and encrypted, and the signature holds. */
  lemma CipherRoundTrip(lib: Library, crypto: Cryptography, peer: Cryptography, draw: nat, head: Bytes, padded: Bytes)
    requires lib.Lawful() && Paired(crypto, peer) && EncryptedSize(crypto, |padded|).Ok?
    ensures var signature := crypto.Signature(lib, head + padded);
            && |signature| == peer.VSignatureSize()
            && peer.Verify(lib, head + padded, signature)
            && crypto.Encrypt(lib, draw, padded + signature).Ok?
            && var cipher := crypto.Encrypt(lib, draw, padded + signature).value;
            && peer.Decrypt(lib, cipher) == Ok(padded + signature)
            && EncryptedSize(crypto, |padded|) == Ok(|cipher|)
  {
    VerifySignature(lib, crypto, peer, head + padded);
    DecryptEncrypt(lib, crypto, peer, draw, padded + crypto.Signature(lib, head + padded));
  }

  lemma DropPacket(packet: Bytes, rest: Bytes)
    ensures (packet + rest)[..|packet|] == packet && (packet + rest)[|packet|..] == rest
  {
  }

  lemma DecodeBody(lib: Library, crypto: Cryptography, peer: Cryptography, rx: SecurityPolicy, c: MessageChunk,
                   padded: Bytes, signature: Bytes, cipher: Bytes)
    requires c.Valid() && rx.Valid() && crypto.Valid() && peer == rx.CryptoFor(c.header.messageType)
    requires crypto.IsEncrypted() == peer.IsEncrypted()
    requires peer.Decrypt(lib, cipher) == Ok(padded + signature)
    requires crypto.Padding(SEQUENCE_HEADER_SIZE + |c.body|).Ok?
    requires padded == SequenceToBinary(c.sequence) + c.body + crypto.Padding(SEQUENCE_HEADER_SIZE + |c.body|).value
    requires HeaderToBinary(c.header).Ok? && |signature| == peer.VSignatureSize()
    requires peer.Verify(lib, HeaderToBinary(c.header).value + SecurityToBinary(c.security) + padded, signature)
    ensures FromHeaderAndBody(lib, rx, c.header, SecurityToBinary(c.security) + cipher) == Ok(c)
  {
    var plain := SequenceToBinary(c.sequence) + c.body;
    SecurityRoundTrip(c, cipher);
    SequenceRoundTrip(c.sequence, c.body);
    PaddingFillsBlock(crypto, plain);
    var whole := padded + signature;
    if peer.VSignatureSize() > 0 {
      assert LastBytes(whole, |signature|) == signature && ButLastBytes(whole, |signature|) == padded;
    } else {
      assert whole == padded;
    }
    assert peer.RemovePadding(padded) == crypto.RemovePadding(padded);
  }

  // ----- Cutting a message into chunks -----

  function MaxBodySize(crypto: Cryptography, maxChunkSize: int): int
    requires crypto.Valid()
  {
    var maxEncryptedSize := maxChunkSize - HEADER_SIZE - SYMMETRIC_HEADER_SIZE;
    var maxPlainSize := maxEncryptedSize / crypto.EncryptedBlockSize() * crypto.PlainBlockSize();
    maxPlainSize - SEQUENCE_HEADER_SIZE - crypto.SignatureSize() - crypto.MinPaddingSize()
  }

  /** The bound is tight: a symmetric chunk fits exactly when its body is within MaxBodySize. */
  lemma MaxBodySizeIsTight(crypto: Cryptography, maxChunkSize: int, c: MessageChunk)
    requires crypto.Valid() && c.Valid() && c.security.Symmetric?
    ensures PacketSize(crypto, c) <= maxChunkSize <==> |c.body| <= MaxBodySize(crypto, maxChunkSize)
  {
    var pbs, ebs := crypto.PlainBlockSize(), crypto.EncryptedBlockSize();
    var n := SEQUENCE_HEADER_SIZE + |c.body| + crypto.SignatureSize() + crypto.MinPaddingSize();
    var room := maxChunkSize - HEADER_SIZE - SYMMETRIC_HEADER_SIZE;
    FloorAdjunction(room, ebs, Blocks(n, pbs));
    CeilingAdjunction(n, pbs, room / ebs);
  }

  /** q * block <= n exactly when q <= n / block. */
  lemma FloorAdjunction(n: int, block: nat, q: int)
    requires block > 0
    ensures q * block <= n <==> q <= n / block
  {
    var d := q - n / block;
    assert n == n / block * block + n % block;
    assert q * block == n / block * block + d * block;
    ProductBound(d, block);
  }

  /** Blocks(n, block) <= q exactly when n <= q * block. */
  lemma CeilingAdjunction(n: nat, block: nat, q: int)
    requires block > 0
    ensures Blocks(n, block) <= q <==> n <= q * block
  {
    FloorAdjunction(n + block - 1, block, q + 1);
    assert (q + 1) * block == q * block + block;
  }

  function NewChunk(messageType: Tag, chunkType: byte, channelId: u32, security: SecurityHeader, requestId: u32,
                    body: Bytes): MessageChunk {
    MessageChunk(Header(messageType, chunkType, channelId, 0), security, SequenceHeader(0, requestId), body)
  }

  /** The chunks of body[0..], each as full as it can be, the last one marked final. */
  function SplitBody(body: Bytes, maxSize: nat, messageType: Tag, channelId: u32, token: u32, requestId: u32)
    : (chunks: seq<MessageChunk>)
    requires maxSize > 0
    decreases |body|
  {
    if body == [] then []
    else
      var chunkType := if |body| <= maxSize then SINGLE else INTERMEDIATE;
      [NewChunk(messageType, chunkType, channelId, Symmetric(token), requestId, Head(body, maxSize))]
      + SplitBody(Tail(body, maxSize), maxSize, messageType, channelId, token, requestId)
  }

  function OpenChunk(lib: Library, policy: SecurityPolicy, channelId: u32, requestId: u32, body: Bytes): MessageChunk
    requires lib.Lawful()
  {
    var certificate := if policy.clientCertificate != [] then Some(policy.clientCertificate) else None;
    var thumb := if policy.serverCertificate != [] then Some(lib.sha1(policy.serverCertificate)) else None;
    NewChunk(SECURE_OPEN, SINGLE, channelId, Asymmetric(Some(policy.uri), certificate, thumb), requestId, body)
  }

  /** A zero step raises; with a negative one the range is empty and the message vanishes. */
  function MessageToChunks(lib: Library, policy: SecurityPolicy, body: Bytes, maxChunkSize: int,
                           messageType: Tag, channelId: u32, requestId: u32, token: u32)
                             : Result<seq<MessageChunk>, Error>
    requires lib.Lawful() && policy.Valid() && IsSecure(messageType)
  {
    if messageType == SECURE_OPEN then Ok([OpenChunk(lib, policy, channelId, requestId, body)])
    else
      var maxSize := MaxBodySize(policy.symmetric, maxChunkSize);
      if maxSize == 0 then Err(ValueError)
      else if maxSize < 0 then Ok([])
      else Ok(SplitBody(body, maxSize, messageType, channelId, token, requestId))
  }

  method CutMessage(lib: Library, policy: SecurityPolicy, body: Bytes, maxChunkSize: int,
                    messageType: Tag, channelId: u32, requestId: u32, token: u32)
                      returns (r: Result<seq<MessageChunk>, Error>)
    requires lib.Lawful() && policy.Valid() && IsSecure(messageType)
    ensures r == MessageToChunks(lib, policy, body, maxChunkSize, messageType, channelId, requestId, token)
  {
    if messageType == SECURE_OPEN {
      return Ok([OpenChunk(lib, policy, channelId, requestId, body)]);
    }
    var maxSize := MaxBodySize(policy.symmetric, maxChunkSize);
    if maxSize == 0 {
      return Err(ValueError);
    }
    if maxSize < 0 {
      return Ok([]);
    }
    var chunks := CutBody(body, maxSize, messageType, channelId, token, requestId);
    r := Ok(chunks);
  }

  method CutBody(body: Bytes, maxSize: nat, messageType: Tag, channelId: u32, token: u32, requestId: u32)
      returns (chunks: seq<MessageChunk>)
    requires maxSize > 0
    ensures chunks == SplitBody(body, maxSize, messageType, channelId, token, requestId)
  {
    hide SplitBody, NewChunk;
    chunks := [];
    var i := 0;
    assert Tail(body, 0) == body;
    while i < |body|
      invariant chunks + SplitBody(Tail(body, i), maxSize, messageType, channelId, token, requestId)
                == SplitBody(body, maxSize, messageType, channelId, token, requestId)
      decreases |body| - i
    {
      var chunkType := if i + maxSize >= |body| then SINGLE else INTERMEDIATE;
      var c := NewChunk(messageType, chunkType, channelId, Symmetric(token), requestId, Head(body[i..], maxSize));
      SplitStep(body, i, maxSize, messageType, channelId, token, requestId, chunks);
      chunks := chunks + [c];
      i := i + maxSize;
    }
    NothingToSplit(maxSize, messageType, channelId, token, requestId);
  }

  lemma NothingToSplit(maxSize: nat, messageType: Tag, channelId: u32, token: u32, requestId: u32)
    requires maxSize > 0
    ensures SplitBody([], maxSize, messageType, channelId, token, requestId) == []
  {
  }

  /** One step of the loop: the chunk at i moves from what is to be cut to what has been. */
  lemma SplitStep(body: Bytes, i: nat, maxSize: nat, messageType: Tag, channelId: u32, token: u32, requestId: u32,
                  chunks: seq<MessageChunk>)
    requires maxSize > 0 && i < |body|
    ensures var chunkType := if i + maxSize >= |body| then SINGLE else INTERMEDIATE;
            var c := NewChunk(messageType, chunkType, channelId, Symmetric(token), requestId, Head(body[i..], maxSize));
            chunks + SplitBody(Tail(body, i), maxSize, messageType, channelId, token, requestId) ==
            (chunks + [c]) + SplitBody(Tail(body, i + maxSize), maxSize, messageType, channelId, token, requestId)
  {
    hide NewChunk;
    TailOfTail(body, i, maxSize);
  }

  function Bodies(chunks: seq<MessageChunk>): seq<Bytes> {
    if chunks == [] then [] else [chunks[0].body] + Bodies(chunks[1..])
  }

  predicate IsPart(c: MessageChunk, messageType: Tag, chunkType: byte, channelId: u32, token: u32, requestId: u32) {
    c.header == Header(messageType, chunkType, channelId, 0) && c.security == Symmetric(token)
      && c.sequence == SequenceHeader(0, requestId)
  }

  /** Nothing is lost or reordered. */
  lemma {:induction false} SplitBodyKeepsBody(body: Bytes, maxSize: nat, messageType: Tag, channelId: u32, token: u32,
                                              requestId: u32)
    requires maxSize > 0
    ensures Join(Bodies(SplitBody(body, maxSize, messageType, channelId, token, requestId))) == body
    decreases |body|
  {
    if body != [] {
      var chunks := SplitBody(body, maxSize, messageType, channelId, token, requestId);
      var tail := SplitBody(Tail(body, maxSize), maxSize, messageType, channelId, token, requestId);
      assert chunks[0].body == Head(body, maxSize) && chunks[1..] == tail;
      SplitBodyKeepsBody(Tail(body, maxSize), maxSize, messageType, channelId, token, requestId);
      hide SplitBody;
      JoinBodiesOfCons(chunks);
      assert Head(body, maxSize) + Tail(body, maxSize) == body;
    }
  }

  lemma JoinBodiesOfCons(chunks: seq<MessageChunk>)
    requires chunks != []
    ensures Join(Bodies(chunks)) == chunks[0].body + Join(Bodies(chunks[1..]))
  {
    assert Bodies(chunks)[1..] == Bodies(chunks[1..]);
  }

  /** Only the last chunk is final, and all the others are full. */
  lemma {:induction false} SplitBodyParts(body: Bytes, maxSize: nat, messageType: Tag, channelId: u32, token: u32,
                                          requestId: u32, i: nat)
    requires maxSize > 0
    requires i < |SplitBody(body, maxSize, messageType, channelId, token, requestId)|
    ensures var chunks := SplitBody(body, maxSize, messageType, channelId, token, requestId);
            && IsPart(chunks[i], messageType, if i == |chunks| - 1 then SINGLE else INTERMEDIATE,
                      channelId, token, requestId)
            && 0 < |chunks[i].body| <= maxSize
            && (i < |chunks| - 1 ==> |chunks[i].body| == maxSize)
    decreases |body|
  {
    var tail := SplitBody(Tail(body, maxSize), maxSize, messageType, channelId, token, requestId);
    assert tail == [] <==> Tail(body, maxSize) == [];
    if i > 0 {
      SplitBodyParts(Tail(body, maxSize), maxSize, messageType, channelId, token, requestId, i - 1);
    }
  }
}
