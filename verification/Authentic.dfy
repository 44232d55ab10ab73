/** No packet is taken for a chunk unless its signature holds; any other raises and changes nothing. */
module Authentic {
  import opened Wrappers
  import opened Bytes
  import opened Crypto
  import opened Chunk
  import opened Channel
  import opened Delivery
  import opened Wire

  // ----- What a signature is over -----

  predicate DecryptsTo(lib: Library, crypto: Cryptography, cipher: Bytes, plain: Bytes)
    requires crypto.Valid()
  {
    match crypto
    case CryptographyNone => plain == cipher
    case Cryptography(encrypted, _, _, _, decryptor) =>
      if !encrypted then plain == cipher
      else
        match decryptor
        case DecryptorAesCbc(key, iv) => lib.aesDecrypt(key, iv, cipher) == Some(plain)
        case DecryptorRsa(rsa, scheme) => DecryptBlocks(lib, scheme, rsa, cipher) == Some(plain)
  }

  /** The end of the plain bytes is the signature of the head and of the plain bytes before it. */
  predicate SignatureHolds(lib: Library, crypto: Cryptography, head: Bytes, plain: Bytes) {
    match crypto
    case CryptographyNone => true
    case Cryptography(_, _, VerifierAesCbc(key), _, _) =>
      LastBytes(plain, 20) == lib.hmacSha1(key, head + ButLastBytes(plain, 20))
    case Cryptography(_, _, VerifierRsa(rsa), _, _) =>
      rsa.size > 0 ==>
        lib.rsaVerify(rsa, head + ButLastBytes(plain, rsa.size), LastBytes(plain, rsa.size))
  }

  /** The packet's own bytes: both headers up to the cut, then what was encrypted. */
  predicate AuthenticAt(lib: Library, policy: SecurityPolicy, packet: Bytes, cut: nat, plain: Bytes)
    requires policy.Valid()
  {
    && 12 <= cut <= |packet|
    && var open := packet[..3] == [79, 80, 78];
    && var crypto := if open then policy.asymmetric else policy.symmetric;
    && (open || cut == 16)
    && DecryptsTo(lib, crypto, packet[cut..], plain) && SignatureHolds(lib, crypto, packet[..cut], plain)
  }

  ghost predicate IsAuthentic(lib: Library, policy: SecurityPolicy, packet: Bytes)
    requires policy.Valid()
  {
    exists cut: nat, plain: Bytes :: AuthenticAt(lib, policy, packet, cut, plain)
  }

  /** The type in the packet's first bytes, if it is there, is one of the three that carry chunks. */
  predicate IsSecureByName(packet: Bytes) {
    |packet| >= 3 ==> IsSecure(packet[..3])
  }

  // ----- Headers are what was read -----

  lemma HeaderWasPacked(packet: Bytes)
    requires HeaderFromBinary(packet).Ok?
    requires IsSecure(HeaderFromBinary(packet).value.value.messageType)
    ensures var h := HeaderFromBinary(packet).value;
            && |packet| >= 12 && h.rest == packet[12..] && h.value.messageType == packet[..3]
            && HeaderToBinary(h.value) == Ok(packet[..12])
  {
    PackUnpacked(packet[..8][4..]);
    PackUnpacked(packet[8..][..4]);
    assert packet[..8][..3] == packet[..3] && packet[8..][4..] == packet[12..];
    assert packet[..12] == packet[..3] + [packet[3]] + packet[..8][4..] + packet[8..][..4];
  }

  lemma SecurityWasPacked(messageType: Tag, data: Bytes)
    requires SecurityFromBinary(messageType, data).Ok?
    ensures var s := SecurityFromBinary(messageType, data).value;
            SecurityToBinary(s.value) + s.rest == data
              && (messageType != SECURE_OPEN ==> |data| >= 4 && s.rest == data[4..])
  {
    hide PackText, ReadText, PackU32;
    if messageType == SECURE_OPEN {
      TextWasPacked(data);
      var uri := ReadText(data).value;
      TextWasPacked(uri.rest);
      var certificate := ReadText(uri.rest).value;
      TextWasPacked(certificate.rest);
      var thumb := ReadText(certificate.rest).value;
      ThreeTexts(PackText(uri.value), PackText(certificate.value), PackText(thumb.value), thumb.rest);
    } else {
      PackUnpacked(data[..4]);
    }
  }

  lemma ThreeTexts(a: Bytes, b: Bytes, c: Bytes, rest: Bytes)
    ensures a + b + c + rest == a + (b + (c + rest))
  {
  }

  // ----- Accepting and rejecting -----

  /** What has been decoded decrypts and carries a signature that holds over its own bytes. */
  lemma DecodedIsSigned(lib: Library, policy: SecurityPolicy, header: Header, data: Bytes)
    returns (cut: nat, plain: Bytes)
    requires policy.Valid() && FromHeaderAndBody(lib, policy, header, data).Ok?
    ensures cut <= |data| && (header.messageType != SECURE_OPEN ==> cut == 4)
    ensures var crypto := policy.CryptoFor(header.messageType);
            && DecryptsTo(lib, crypto, data[cut..], plain)
            && (crypto.VSignatureSize() > 0 ==>
                  HeaderToBinary(header).Ok?
                    && SignatureHolds(lib, crypto, HeaderToBinary(header).value + data[..cut], plain))
  {
    hide HeaderToBinary, SecurityFromBinary, SecurityToBinary, SequenceFromBinary, Cryptography.RemovePadding;
    var security := SecurityFromBinary(header.messageType, data).value;
    SecurityWasPacked(header.messageType, data);
    var crypto := policy.CryptoFor(header.messageType);
    cut := |SecurityToBinary(security.value)|;
    plain := crypto.Decrypt(lib, security.rest).value;
    assert data[..cut] == SecurityToBinary(security.value) && data[cut..] == security.rest;
    if crypto.VSignatureSize() > 0 {
      var head := HeaderToBinary(header).value;
      Associative(head, data[..cut], ButLastBytes(plain, crypto.VSignatureSize()));
    }
  }

  /** A packet that raises nothing is authentic; one that is not raises, and the connection stays as it was. */
  lemma OnlyAuthenticIsAccepted(lib: Library, conn: Connection, packet: Bytes)
    requires conn.Valid() && IsSecureByName(packet)
    ensures !ReceivePacket(lib, conn, packet).1.Raised? ==> IsAuthentic(lib, conn.policy, packet)
    ensures !IsAuthentic(lib, conn.policy, packet) ==>
              ReceivePacket(lib, conn, packet).1.Raised? && ReceivePacket(lib, conn, packet).0 == conn
  {
    hide HeaderFromBinary, FromHeaderAndBody, Receive, HeaderToBinary, DecryptsTo, SignatureHolds;
    var h := HeaderFromBinary(packet);
    if h.Ok? && IsSecure(h.value.value.messageType)
       && FromHeaderAndBody(lib, conn.policy, h.value.value, h.value.rest).Ok? {
      HeaderWasPacked(packet);
      var cut, plain := DecodedIsSigned(lib, conn.policy, h.value.value, h.value.rest);
      assert packet[12..][cut..] == packet[12 + cut..] && packet[..12] + packet[12..][..cut] == packet[..12 + cut];
      NoSignature(lib, conn.policy.CryptoFor(h.value.value.messageType), packet[..12 + cut], plain);
      assert AuthenticAt(lib, conn.policy, packet, 12 + cut, plain);
    }
  }

  lemma NoSignature(lib: Library, crypto: Cryptography, head: Bytes, plain: Bytes)
    ensures crypto.VSignatureSize() == 0 ==> SignatureHolds(lib, crypto, head, plain)
  {
  }

  /** On every run of arbitrary packets. */
  lemma {:induction false} OnlyAuthenticOnRuns(lib: Library, conn: Connection, packets: seq<Bytes>)
    requires conn.Valid() && forall p | p in packets :: IsSecureByName(p)
    ensures forall i | 0 <= i < |packets| && !ReceivePackets(lib, conn, packets).1[i].Raised? ::
              IsAuthentic(lib, conn.policy, packets[i])
    decreases |packets|
  {
    hide ReceivePacket, IsAuthentic;
    if packets != [] {
      OnlyAuthenticIsAccepted(lib, conn, packets[0]);
      var next := ReceivePacket(lib, conn, packets[0]).0;
      OnlyAuthenticOnRuns(lib, next, packets[1..]);
      var results := ReceivePackets(lib, conn, packets).1;
      assert results[1..] == ReceivePackets(lib, next, packets[1..]).1;
      forall i | 0 <= i < |packets| && !results[i].Raised?
        ensures IsAuthentic(lib, conn.policy, packets[i])
      {
        if i > 0 {
          assert packets[i] == packets[1..][i - 1] && results[i] == results[1..][i - 1];
        }
      }
    }
  }

  /** What decodes and decrypts but has another signature raises InvalidSignature, and changes nothing. */
  lemma WrongSignatureRaises(lib: Library, conn: Connection, header: Header, data: Bytes, plain: Bytes)
    requires conn.Valid() && IsSecure(header.messageType) && HeaderToBinary(header).Ok?
    requires header.messageType == SECURE_OPEN ==> OpensPolicy(conn.policy, data)
    requires SecurityFromBinary(header.messageType, data).Ok?
    requires var security := SecurityFromBinary(header.messageType, data).value;
             var crypto := if header.messageType == SECURE_OPEN then conn.policy.asymmetric else conn.policy.symmetric;
             && crypto.Cryptography? && DecryptsTo(lib, crypto, security.rest, plain)
             && !SignatureHolds(lib, crypto, HeaderToBinary(header).value + SecurityToBinary(security.value), plain)
    ensures ReceiveBody(lib, conn, header, data) == (conn, Raised(InvalidSignature))
  {
    hide HeaderToBinary, SecurityFromBinary, SecurityToBinary, SequenceFromBinary, Cryptography.RemovePadding,
         OpensPolicy;
    var security := SecurityFromBinary(header.messageType, data).value;
    var crypto := conn.policy.CryptoFor(header.messageType);
    Associative(HeaderToBinary(header).value, SecurityToBinary(security.value),
                ButLastBytes(plain, crypto.VSignatureSize()));
  }

  /** An open message that names another policy than the connection's raises before it is decrypted. */
  lemma OtherPolicyRaises(lib: Library, conn: Connection, header: Header, data: Bytes)
    requires conn.Valid() && header.messageType == SECURE_OPEN
    requires SecurityFromBinary(SECURE_OPEN, data).Ok?
    requires SecurityFromBinary(SECURE_OPEN, data).value.value.policyUri != Some(conn.policy.uri)
    ensures ReceiveBody(lib, conn, header, data) == (conn, Raised(UaError))
  {
    hide SecurityFromBinary, FromHeaderAndBody;
  }

  /** In mode Sign: only one signature of 20 bytes fits a packet, and each other one raises and changes nothing. */
  lemma AlteredSignatureRaises(lib: Library, conn: Connection, signed: Bytes, signature: Bytes, key: Bytes)
    requires lib.Lawful() && conn.Valid() && |signed| >= 3 && signed[..3] == SECURE_MESSAGE && |signature| == 20
    requires conn.policy.symmetric.Cryptography? && !conn.policy.symmetric.encrypted
    requires conn.policy.symmetric.verifier == VerifierAesCbc(key)
    requires signature != lib.hmacSha1(key, signed)
    ensures ReceivePacket(lib, conn, signed + signature).1.Raised?
    ensures ReceivePacket(lib, conn, signed + signature).0 == conn
  {
    hide ReceivePacket;
    var packet := signed + signature;
    assert packet[..3] == signed[..3];
    OnlyAuthenticIsAccepted(lib, conn, packet);
    if IsAuthentic(lib, conn.policy, packet) {
      var cut: nat, plain :| AuthenticAt(lib, conn.policy, packet, cut, plain);
      SignatureIs(lib, conn.policy, signed, signature, key, cut, plain);
    }
  }

  lemma SignatureIs(lib: Library, policy: SecurityPolicy, signed: Bytes, signature: Bytes, key: Bytes,
                    cut: nat, plain: Bytes)
    requires lib.Lawful() && policy.Valid() && |signed| >= 3 && signed[..3] == SECURE_MESSAGE && |signature| == 20
    requires policy.symmetric.Cryptography? && !policy.symmetric.encrypted
    requires policy.symmetric.verifier == VerifierAesCbc(key)
    requires AuthenticAt(lib, policy, signed + signature, cut, plain)
    ensures signature == lib.hmacSha1(key, signed)
  {
    var packet := signed + signature;
    assert packet[..3] == signed[..3];
    assert packet[16..] == plain && DecryptsTo(lib, policy.symmetric, packet[16..], plain);
    assert |LastBytes(plain, 20)| == 20;
    EndIs(signed, signature);
  }

  lemma EndIs(signed: Bytes, signature: Bytes)
    requires |signature| == 20 && |signed| >= 16
    ensures var packet := signed + signature;
            && LastBytes(packet[16..], 20) == signature
            && packet[..16] + ButLastBytes(packet[16..], 20) == signed
  {
    var packet := signed + signature;
    assert packet[16..] == signed[16..] + signature;
    assert ButLastBytes(packet[16..], 20) == signed[16..];
    assert packet[..16] == signed[..16];
  }

  // ----- What is taken from it -----

  lemma SequenceWasPacked(data: Bytes)
    requires SequenceFromBinary(data).Ok?
    ensures var s := SequenceFromBinary(data).value;
            PackU32(s.value.sequenceNumber) + PackU32(s.value.requestId) + s.rest == data
  {
    PackUnpacked(data[..4]);
    PackUnpacked(data[4..][..4]);
    assert data == data[..4] + data[4..][..4] + data[4..][4..];
  }

  /**
   The chunk is what stands between head and signature: without encryption all of it, and with encryption
   all but as many bytes as the last one says and that one.
   */
  lemma DecodedContent(lib: Library, policy: SecurityPolicy, header: Header, data: Bytes, cut: nat, plain: Bytes)
    requires policy.Valid() && FromHeaderAndBody(lib, policy, header, data).Ok?
    requires cut <= |data| && SecurityFromBinary(header.messageType, data).value.rest == data[cut..]
    requires DecryptsTo(lib, policy.CryptoFor(header.messageType), data[cut..], plain)
    ensures var c := FromHeaderAndBody(lib, policy, header, data).value;
            && c.header == header && SecurityToBinary(c.security) == data[..cut]
            && match policy.CryptoFor(header.messageType)
               case CryptographyNone => PlainOf(c) == plain
               case Cryptography(encrypted, _, verifier, _, _) =>
                 var size := if verifier.VerifierRsa? then verifier.rsa.size else 20;
                 var signed := if size == 0 then plain else ButLastBytes(plain, size);
                 if encrypted then signed != [] && PlainOf(c) == ButLastBytes(signed, signed[|signed| - 1] as nat + 1)
                 else PlainOf(c) == signed
  {
    hide HeaderToBinary, SecurityFromBinary, SecurityToBinary, SequenceFromBinary, Library.Lawful, Cryptography.Verify;
    SecurityWasPacked(header.messageType, data);
    var security := SecurityFromBinary(header.messageType, data).value;
    assert data[..cut] + data[cut..] == data;
    SamePrefix(SecurityToBinary(security.value), data[..cut], data[cut..]);
    var crypto := policy.CryptoFor(header.messageType);
    var n := crypto.VSignatureSize();
    var signed := if n > 0 then ButLastBytes(plain, n) else plain;
    SequenceWasPacked(crypto.RemovePadding(signed).value);
  }

  lemma SamePrefix(a: Bytes, b: Bytes, rest: Bytes)
    requires a + rest == b + rest
    ensures a == b
  {
    assert |a| == |b|;
    assert a == (a + rest)[..|a|] && b == (b + rest)[..|b|];
  }
}
