/**
 Padding, block encryption and key derivation of the security policies.

 HMAC, AES, RSA and SHA-1 come from a foreign library. They are a record of
 unknown functions here, of which Lawful states all that the proofs use.
 */
module Crypto {
  import opened Wrappers
  import opened Bytes
  import opened Arithmetic

  // A public key and the private key that belongs to it share one RsaKey.
  datatype RsaKey = RsaKey(id: nat, size: nat)

  datatype RsaScheme = Rsa15 | RsaOaep {
    function PaddingSize(): nat {
      match this
      case Rsa15 => 11
      case RsaOaep => 42
    }
  }

  const SHA1_SIZE: nat := 20

  /** Decryption may raise (None). RSA encryption draws random bytes, numbered by the nat. */
  datatype Library = Library(
    hmacSha1: (Bytes, Bytes) -> Bytes,
    sha1: Bytes -> Bytes,
    aesEncrypt: (Bytes, Bytes, Bytes) -> Bytes,
    aesDecrypt: (Bytes, Bytes, Bytes) -> Option<Bytes>,
    rsaEncrypt: (RsaScheme, RsaKey, nat, Bytes) -> Bytes,
    rsaDecrypt: (RsaScheme, RsaKey, Bytes) -> Option<Bytes>,
    rsaSign: (RsaKey, Bytes) -> Bytes,
    rsaVerify: (RsaKey, Bytes, Bytes) -> bool)
  {
    ghost predicate HashLengths() {
      && (forall key, data :: |hmacSha1(key, data)| == SHA1_SIZE)
      && (forall data :: |sha1(data)| == SHA1_SIZE)
    }

    ghost predicate AesInverse() {
      forall key, iv, data | |data| % 16 == 0 ::
        |aesEncrypt(key, iv, data)| == |data| && aesDecrypt(key, iv, aesEncrypt(key, iv, data)) == Some(data)
    }

    ghost predicate RsaInverse() {
      forall scheme: RsaScheme, key: RsaKey, draw, block | |block| + scheme.PaddingSize() <= key.size ::
        && |rsaEncrypt(scheme, key, draw, block)| == key.size
        && rsaDecrypt(scheme, key, rsaEncrypt(scheme, key, draw, block)) == Some(block)
    }

    ghost predicate RsaVerifies() {
      forall key: RsaKey, data :: |rsaSign(key, data)| == key.size && rsaVerify(key, data, rsaSign(key, data))
    }

    ghost predicate Lawful() {
      HashLengths() && AesInverse() && RsaInverse() && RsaVerifies()
    }
  }

  datatype Signer = SignerRsa(rsa: RsaKey) | SignerAesCbc(key: Bytes) {
    function SignatureSize(): nat {
      match this
      case SignerRsa(rsa) => rsa.size
      case SignerAesCbc(_) => SHA1_SIZE
    }

    function Signature(lib: Library, data: Bytes): Bytes {
      match this
      case SignerRsa(rsa) => lib.rsaSign(rsa, data)
      case SignerAesCbc(key) => lib.hmacSha1(key, data)
    }
  }

  datatype Verifier = VerifierRsa(rsa: RsaKey) | VerifierAesCbc(key: Bytes) {
    function SignatureSize(): nat {
      match this
      case VerifierRsa(rsa) => rsa.size
      case VerifierAesCbc(_) => SHA1_SIZE
    }

    predicate Verify(lib: Library, data: Bytes, signature: Bytes) {
      match this
      case VerifierRsa(rsa) => lib.rsaVerify(rsa, data, signature)
      case VerifierAesCbc(key) => signature == lib.hmacSha1(key, data)
    }
  }

  // data[i:i + n] at i == 0, and what follows it.
  function Head(data: Bytes, n: nat): Bytes {
    if n <= |data| then data[..n] else data
  }

  function Tail(data: Bytes, n: nat): Bytes {
    if n <= |data| then data[n..] else []
  }

  lemma TailOfTail(data: Bytes, i: nat, n: nat)
    requires i < |data|
    ensures Tail(data, i) == data[i..] && Tail(Tail(data, i), n) == Tail(data, i + n)
  {
  }

  /** What EncryptorRsa.encrypt computes: each plain block becomes one cipher block. */
  function EncryptBlocks(lib: Library, scheme: RsaScheme, rsa: RsaKey, draw: nat, data: Bytes): Bytes
    requires rsa.size > scheme.PaddingSize()
    decreases |data|
  {
    var size := rsa.size - scheme.PaddingSize();
    if data == [] then []
    else
      lib.rsaEncrypt(scheme, rsa, draw, Head(data, size))
      + EncryptBlocks(lib, scheme, rsa, draw + 1, Tail(data, size))
  }

  function DecryptBlocks(lib: Library, scheme: RsaScheme, rsa: RsaKey, data: Bytes): Option<Bytes>
    requires rsa.size > 0
    decreases |data|
  {
    if data == [] then Some([])
    else
      var head := lib.rsaDecrypt(scheme, rsa, Head(data, rsa.size));
      var tail := DecryptBlocks(lib, scheme, rsa, Tail(data, rsa.size));
      if head.None? || tail.None? then None else Some(head.value + tail.value)
  }

  /** The two RSA loops are inverse, on every input, whole blocks or not. */
  lemma {:induction false} DecryptEncryptBlocks(lib: Library, scheme: RsaScheme, rsa: RsaKey, draw: nat, data: Bytes)
    requires lib.Lawful() && rsa.size > scheme.PaddingSize()
    ensures DecryptBlocks(lib, scheme, rsa, EncryptBlocks(lib, scheme, rsa, draw, data)) == Some(data)
    decreases |data|
  {
    var size := rsa.size - scheme.PaddingSize();
    hide Library.Lawful;
    if data != [] {
      RsaBlock(lib, scheme, rsa, draw, Head(data, size));
      var head := lib.rsaEncrypt(scheme, rsa, draw, Head(data, size));
      var tail := EncryptBlocks(lib, scheme, rsa, draw + 1, Tail(data, size));
      DecryptEncryptBlocks(lib, scheme, rsa, draw + 1, Tail(data, size));
      assert Head(head + tail, rsa.size) == head && Tail(head + tail, rsa.size) == tail;
      assert Head(data, size) + Tail(data, size) == data;
    }
  }

  // The cipher bytes of n plain bytes, block by block.
  function CipherLength(n: nat, size: nat, cipherSize: nat): nat
    requires size > 0
  {
    if n == 0 then 0 else cipherSize + CipherLength(if n <= size then 0 else n - size, size, cipherSize)
  }

  lemma RsaBlock(lib: Library, scheme: RsaScheme, rsa: RsaKey, draw: nat, block: Bytes)
    requires lib.Lawful() && |block| + scheme.PaddingSize() <= rsa.size
    ensures |lib.rsaEncrypt(scheme, rsa, draw, block)| == rsa.size
    ensures lib.rsaDecrypt(scheme, rsa, lib.rsaEncrypt(scheme, rsa, draw, block)) == Some(block)
  {
  }

  lemma {:induction false} EncryptedBlocksLength(lib: Library, scheme: RsaScheme, rsa: RsaKey, draw: nat, data: Bytes)
    requires lib.Lawful() && rsa.size > scheme.PaddingSize()
    ensures |EncryptBlocks(lib, scheme, rsa, draw, data)| ==
            CipherLength(|data|, rsa.size - scheme.PaddingSize(), rsa.size)
    decreases |data|
  {
    hide Library.Lawful;
    var size := rsa.size - scheme.PaddingSize();
    if data != [] {
      var tail := Tail(data, size);
      RsaBlock(lib, scheme, rsa, draw, Head(data, size));
      EncryptedBlocksLength(lib, scheme, rsa, draw + 1, tail);
      assert |EncryptBlocks(lib, scheme, rsa, draw, data)| ==
             rsa.size + |EncryptBlocks(lib, scheme, rsa, draw + 1, tail)|;
      hide EncryptBlocks;
      assert CipherLength(|data|, size, rsa.size) == rsa.size + CipherLength(|tail|, size, rsa.size);
    }
  }

  /** The cipher block at k is the encryption of the plain block at p. */
  predicate IsBlock(lib: Library, scheme: RsaScheme, rsa: RsaKey, draw: nat, data: Bytes, cipher: Bytes, p: nat, k: nat)
    requires rsa.size > scheme.PaddingSize()
  {
    && p < |data| && k + rsa.size <= |cipher|
    && cipher[k..][..rsa.size] == lib.rsaEncrypt(scheme, rsa, draw, Head(data[p..], rsa.size - scheme.PaddingSize()))
  }

  lemma LaterBlock(lib: Library, scheme: RsaScheme, rsa: RsaKey, draw: nat, data: Bytes, head: Bytes, tail: Bytes,
                   p: nat, k: nat)
    requires rsa.size > scheme.PaddingSize() && |head| == rsa.size
    requires IsBlock(lib, scheme, rsa, draw, Tail(data, rsa.size - scheme.PaddingSize()), tail, p, k)
    ensures IsBlock(lib, scheme, rsa, draw, data, head + tail, p + rsa.size - scheme.PaddingSize(), k + rsa.size)
  {
    var size := rsa.size - scheme.PaddingSize();
    BehindFirst(data[..size], data[size..], size, p);
    assert data[..size] + data[size..] == data;
    BehindFirst(head, tail, rsa.size, k);
  }

  lemma FirstBlock(lib: Library, scheme: RsaScheme, rsa: RsaKey, draw: nat, data: Bytes)
    requires lib.Lawful() && rsa.size > scheme.PaddingSize() && data != []
    ensures IsBlock(lib, scheme, rsa, draw, data, EncryptBlocks(lib, scheme, rsa, draw, data), 0, 0)
  {
    var size := rsa.size - scheme.PaddingSize();
    var head := lib.rsaEncrypt(scheme, rsa, draw, Head(data, size));
    var tail := EncryptBlocks(lib, scheme, rsa, draw + 1, Tail(data, size));
    RsaBlock(lib, scheme, rsa, draw, Head(data, size));
    assert data[0..] == data && (head + tail)[0..] == head + tail && (head + tail)[..rsa.size] == head;
    hide Library.Lawful;
  }

  lemma LaterCipherBlock(lib: Library, scheme: RsaScheme, rsa: RsaKey, draw: nat, data: Bytes, later: nat, p: nat,
                         k: nat)
    requires lib.Lawful() && rsa.size > scheme.PaddingSize() && data != []
    requires var rest := Tail(data, rsa.size - scheme.PaddingSize());
             IsBlock(lib, scheme, rsa, later, rest, EncryptBlocks(lib, scheme, rsa, draw + 1, rest), p, k)
    ensures IsBlock(lib, scheme, rsa, later, data, EncryptBlocks(lib, scheme, rsa, draw, data),
                    p + rsa.size - scheme.PaddingSize(), k + rsa.size)
  {
    hide Library.Lawful, IsBlock;
    var size := rsa.size - scheme.PaddingSize();
    RsaBlock(lib, scheme, rsa, draw, Head(data, size));
    LaterBlock(lib, scheme, rsa, later, data, lib.rsaEncrypt(scheme, rsa, draw, Head(data, size)),
               EncryptBlocks(lib, scheme, rsa, draw + 1, Tail(data, size)), p, k);
  }

  /** The i-th cipher block is the encryption of the i-th plain block, with the i-th draw after the first. */
  lemma {:induction false} CipherBlock(lib: Library, scheme: RsaScheme, rsa: RsaKey, draw: nat, data: Bytes, i: nat)
    requires lib.Lawful() && rsa.size > scheme.PaddingSize()
    requires i * (rsa.size - scheme.PaddingSize()) < |data|
    ensures IsBlock(lib, scheme, rsa, draw + i, data, EncryptBlocks(lib, scheme, rsa, draw, data),
                    i * (rsa.size - scheme.PaddingSize()), i * rsa.size)
    decreases i
  {
    hide Library.Lawful, IsBlock, EncryptBlocks, RsaScheme.PaddingSize;
    if i == 0 {
      FirstBlock(lib, scheme, rsa, draw, data);
    } else {
      var size := rsa.size - scheme.PaddingSize();
      OneBlockLess(i, size);
      OneBlockLess(i, rsa.size);
      CipherBlock(lib, scheme, rsa, draw + 1, Tail(data, size), i - 1);
      LaterCipherBlock(lib, scheme, rsa, draw, data, draw + i, (i - 1) * size, (i - 1) * rsa.size);
    }
  }

  lemma BehindFirst(head: Bytes, tail: Bytes, n: nat, k: nat)
    requires |head| == n && k <= |tail|
    ensures (head + tail)[k + n..] == tail[k..]
  {
  }

  lemma {:induction false} CipherLengthOfBlocks(blocks: nat, size: nat, cipherSize: nat)
    requires size > 0
    ensures CipherLength(blocks * size, size, cipherSize) == blocks * cipherSize
  {
    if blocks > 0 {
      OneBlockLess(blocks, size);
      OneBlockLess(blocks, cipherSize);
      CipherLengthOfBlocks(blocks - 1, size, cipherSize);
    }
  }

  // The code takes the AES key length for the block size, so a 24-byte key would
  // ask the cipher for part of a block. The policies use 16 and 32 only.
  datatype Encryptor = EncryptorRsa(rsa: RsaKey, scheme: RsaScheme) | EncryptorAesCbc(key: Bytes, iv: Bytes) {
    predicate Valid() {
      match this
      case EncryptorRsa(rsa, scheme) => rsa.size > scheme.PaddingSize()
      case EncryptorAesCbc(key, iv) => |key| in {16, 32} && |iv| == 16
    }

    function PlainBlockSize(): (n: nat)
      requires Valid()
      ensures n > 0
    {
      match this
      case EncryptorRsa(rsa, scheme) => rsa.size - scheme.PaddingSize()
      case EncryptorAesCbc(key, _) => |key|
    }

    function EncryptedBlockSize(): (n: nat)
      requires Valid()
      ensures n > 0
    {
      match this
      case EncryptorRsa(rsa, _) => rsa.size
      case EncryptorAesCbc(key, _) => |key|
    }

    function Encrypt(lib: Library, draw: nat, data: Bytes): Bytes
      requires Valid()
    {
      match this
      case EncryptorRsa(rsa, scheme) => EncryptBlocks(lib, scheme, rsa, draw, data)
      case EncryptorAesCbc(key, iv) => lib.aesEncrypt(key, iv, data)
    }
  }

  datatype Decryptor = DecryptorRsa(rsa: RsaKey, scheme: RsaScheme) | DecryptorAesCbc(key: Bytes, iv: Bytes) {
    predicate Valid() {
      DecryptorRsa? ==> rsa.size > 0
    }

    function Decrypt(lib: Library, data: Bytes): Option<Bytes>
      requires Valid()
    {
      match this
      case DecryptorRsa(rsa, scheme) => DecryptBlocks(lib, scheme, rsa, data)
      case DecryptorAesCbc(key, iv) => lib.aesDecrypt(key, iv, data)
    }
  }

  /** The loop of EncryptorRsa.encrypt. */
  method EncryptRsa(lib: Library, scheme: RsaScheme, rsa: RsaKey, draw: nat, data: Bytes) returns (encrypted: Bytes)
    requires rsa.size > scheme.PaddingSize()
    ensures encrypted == EncryptBlocks(lib, scheme, rsa, draw, data)
  {
    encrypted := [];
    var blockSize := rsa.size - scheme.PaddingSize();
    var i, n := 0, draw;
    assert Tail(data, 0) == data;
    while i < |data|
      invariant n >= draw
      invariant encrypted + EncryptBlocks(lib, scheme, rsa, n, Tail(data, i)) ==
                EncryptBlocks(lib, scheme, rsa, draw, data)
      decreases |data| - i
    {
      TailOfTail(data, i, blockSize);
      var block := lib.rsaEncrypt(scheme, rsa, n, Head(data[i..], blockSize));
      Associative(encrypted, block, EncryptBlocks(lib, scheme, rsa, n + 1, Tail(data, i + blockSize)));
      encrypted := encrypted + block;
      i, n := i + blockSize, n + 1;
    }
  }

  lemma Associative(a: Bytes, b: Bytes, c: Bytes)
    ensures a + (b + c) == a + b + c
  {
  }

  /** The loop of DecryptorRsa.decrypt; a block the library rejects ends it with the exception. */
  method DecryptRsa(lib: Library, scheme: RsaScheme, rsa: RsaKey, data: Bytes) returns (decrypted: Option<Bytes>)
    requires rsa.size > 0
    ensures decrypted == DecryptBlocks(lib, scheme, rsa, data)
  {
    hide DecryptBlocks;
    var done: Bytes := [];
    var i := 0;
    assert Tail(data, 0) == data;
    while i < |data|
      invariant DecryptBlocks(lib, scheme, rsa, data).Some? == DecryptBlocks(lib, scheme, rsa, Tail(data, i)).Some?
      invariant DecryptBlocks(lib, scheme, rsa, data).Some? ==>
                  DecryptBlocks(lib, scheme, rsa, data).value ==
                    done + DecryptBlocks(lib, scheme, rsa, Tail(data, i)).value
      decreases |data| - i
    {
      DecryptStep(lib, scheme, rsa, data, i, done);
      var plain := lib.rsaDecrypt(scheme, rsa, Head(data[i..], rsa.size));
      if plain.None? {
        return None;
      }
      done := done + plain.value;
      i := i + rsa.size;
    }
    assert Tail(data, i) == [];
    NothingToDecrypt(lib, scheme, rsa);
    assert done == done + [];
    decrypted := Some(done);
  }

  lemma NothingToDecrypt(lib: Library, scheme: RsaScheme, rsa: RsaKey)
    requires rsa.size > 0
    ensures DecryptBlocks(lib, scheme, rsa, []) == Some([])
  {
  }

  lemma DecryptStep(lib: Library, scheme: RsaScheme, rsa: RsaKey, data: Bytes, i: nat, done: Bytes)
    requires rsa.size > 0 && i < |data|
    ensures var plain := lib.rsaDecrypt(scheme, rsa, Head(data[i..], rsa.size));
            var now, later := DecryptBlocks(lib, scheme, rsa, Tail(data, i)),
                DecryptBlocks(lib, scheme, rsa, Tail(data, i + rsa.size));
            && (now.Some? <==> plain.Some? && later.Some?)
            && (now.Some? ==> done + now.value == done + plain.value + later.value)
  {
    TailOfTail(data, i, rsa.size);
    var plain := lib.rsaDecrypt(scheme, rsa, Head(data[i..], rsa.size));
    var later := DecryptBlocks(lib, scheme, rsa, Tail(data, i + rsa.size));
    if plain.Some? && later.Some? {
      Associative(done, plain.value, later.value);
    }
  }

  datatype Cryptography =
    | CryptographyNone
    | Cryptography(encrypted: bool, signer: Signer, verifier: Verifier, encryptor: Encryptor, decryptor: Decryptor)
  {
    predicate Valid() {
      Cryptography? ==> encryptor.Valid() && decryptor.Valid()
    }

    predicate IsEncrypted() {
      Cryptography? && encrypted
    }

    function PlainBlockSize(): (n: nat)
      requires Valid()
      ensures n > 0
    {
      if IsEncrypted() then encryptor.PlainBlockSize() else 1
    }

    function EncryptedBlockSize(): (n: nat)
      requires Valid()
      ensures n > 0
    {
      if IsEncrypted() then encryptor.EncryptedBlockSize() else 1
    }

    function MinPaddingSize(): nat {
      if IsEncrypted() then 1 else 0
    }

    function SignatureSize(): nat {
      if Cryptography? then signer.SignatureSize() else 0
    }

    function VSignatureSize(): nat {
      if Cryptography? then verifier.SignatureSize() else 0
    }

    function Signature(lib: Library, data: Bytes): Bytes {
      if Cryptography? then signer.Signature(lib, data) else []
    }

    predicate Verify(lib: Library, data: Bytes, signature: Bytes) {
      Cryptography? ==> verifier.Verify(lib, data, signature)
    }

    /** The number each padding byte holds; a value above 255 does not fit it. */
    function PaddingByte(size: nat): nat
      requires Valid() && IsEncrypted()
    {
      var block := encryptor.PlainBlockSize();
      var rem := (size + SignatureSize() + 1) % block;
      if rem != 0 then block - rem else 0
    }

    function Padding(size: nat): Result<Bytes, Error>
      requires Valid()
    {
      if !IsEncrypted() then Ok([])
      else
        var rem := PaddingByte(size);
        if rem > 255 then Err(ValueError) else Ok(Repeat(rem as byte, rem + 1))
    }

    function RemovePadding(data: Bytes): Result<Bytes, Error> {
      if !IsEncrypted() then Ok(data)
      else if data == [] then Err(IndexError)
      else Ok(ButLastBytes(data, data[|data| - 1] as nat + 1))
    }

    function Encrypt(lib: Library, draw: nat, data: Bytes): Result<Bytes, Error>
      requires Valid()
    {
      if !IsEncrypted() then Ok(data)
      else if |data| % encryptor.PlainBlockSize() != 0 then Err(AssertionError)
      else Ok(encryptor.Encrypt(lib, draw, data))
    }

    function Decrypt(lib: Library, data: Bytes): Result<Bytes, Error>
      requires Valid()
    {
      if !IsEncrypted() then Ok(data)
      else
        var plain := decryptor.Decrypt(lib, data);
        if plain.None? then Err(DecryptionError) else Ok(plain.value)
    }
  }

  /** rx undoes what tx does: same mode, and each half holds the key that matches the other's. */
  predicate Paired(tx: Cryptography, rx: Cryptography) {
    && tx.Valid() && rx.Valid()
    && tx.Cryptography? == rx.Cryptography?
    && (tx.Cryptography? ==>
          && tx.encrypted == rx.encrypted
          && (match tx.signer
              case SignerRsa(rsa) => rx.verifier == VerifierRsa(rsa)
              case SignerAesCbc(key) => rx.verifier == VerifierAesCbc(key))
          && (match tx.encryptor
              case EncryptorRsa(rsa, scheme) => rx.decryptor == DecryptorRsa(rsa, scheme)
              case EncryptorAesCbc(key, iv) => rx.decryptor == DecryptorAesCbc(key, iv)))
  }

  /** Padding fills the last block exactly, and its removal gives back what was padded. */
  lemma PaddingFillsBlock(c: Cryptography, data: Bytes)
    requires c.Valid() && c.Padding(|data|).Ok?
    ensures (|data| + |c.Padding(|data|).value| + c.SignatureSize()) % c.PlainBlockSize() == 0
    ensures c.RemovePadding(data + c.Padding(|data|).value) == Ok(data)
  {
    if c.IsEncrypted() {
      var block := c.encryptor.PlainBlockSize();
      var n := |data| + c.SignatureSize() + 1;
      var rem := n % block;
      var pad := c.PaddingByte(|data|);
      RoundUp(n, block);
      assert n + pad == |data| + |c.Padding(|data|).value| + c.SignatureSize();
      var padded := data + c.Padding(|data|).value;
      assert padded[|padded| - 1] as nat == pad;
      assert ButLastBytes(padded, pad + 1) == data;
      assert c.RemovePadding(padded).value == data;
    } else {
      assert data + [] == data;
    }
  }

  lemma AesBlocks(lib: Library, key: Bytes, iv: Bytes, data: Bytes)
    requires lib.Lawful() && |data| % 16 == 0
    ensures |lib.aesEncrypt(key, iv, data)| == |data|
    ensures lib.aesDecrypt(key, iv, lib.aesEncrypt(key, iv, data)) == Some(data)
  {
  }

  /** A paired receiver decrypts every whole number of blocks, and the length is as encrypted_size says. */
  lemma DecryptEncrypt(lib: Library, tx: Cryptography, rx: Cryptography, draw: nat, data: Bytes)
    requires lib.Lawful() && Paired(tx, rx)
    requires |data| % tx.PlainBlockSize() == 0
    ensures tx.Encrypt(lib, draw, data).Ok?
    ensures rx.Decrypt(lib, tx.Encrypt(lib, draw, data).value) == Ok(data)
    ensures |tx.Encrypt(lib, draw, data).value| == |data| / tx.PlainBlockSize() * tx.EncryptedBlockSize()
  {
    hide Library.Lawful, EncryptBlocks, DecryptBlocks, CipherLength;
    if tx.IsEncrypted() {
      WholeBlocks(|data|, tx.PlainBlockSize());
      match tx.encryptor
      case EncryptorRsa(rsa, scheme) =>
        DecryptEncryptBlocks(lib, scheme, rsa, draw, data);
        EncryptedBlocksLength(lib, scheme, rsa, draw, data);
        CipherLengthOfBlocks(|data| / (rsa.size - scheme.PaddingSize()), rsa.size - scheme.PaddingSize(), rsa.size);
      case EncryptorAesCbc(key, iv) =>
        Multiple16(|data|, |key|);
        AesBlocks(lib, key, iv, data);
    }
  }

  lemma VerifySignature(lib: Library, tx: Cryptography, rx: Cryptography, data: Bytes)
    requires lib.Lawful() && Paired(tx, rx)
    ensures |tx.Signature(lib, data)| == tx.SignatureSize() == rx.VSignatureSize()
    ensures rx.Verify(lib, data, tx.Signature(lib, data))
  {
  }

  // ----- Key derivation -----

  /** A(i) of section 5 of RFC 2246. */
  function Accum(lib: Library, secret: Bytes, seed: Bytes, i: nat): Bytes {
    if i == 0 then seed else lib.hmacSha1(secret, Accum(lib, secret, seed, i - 1))
  }

  /** The first n blocks of P_SHA1. */
  function Stream(lib: Library, secret: Bytes, seed: Bytes, n: nat): Bytes {
    if n == 0 then []
    else Stream(lib, secret, seed, n - 1) + lib.hmacSha1(secret, Accum(lib, secret, seed, n) + seed)
  }

  lemma {:induction false} StreamPrefix(lib: Library, secret: Bytes, seed: Bytes, m: nat, n: nat)
    requires lib.Lawful() && m <= n
    ensures |Stream(lib, secret, seed, m)| == SHA1_SIZE * m
    ensures Stream(lib, secret, seed, m) <= Stream(lib, secret, seed, n)
    decreases n, m
  {
    if m > 0 {
      StreamPrefix(lib, secret, seed, m - 1, m - 1);
    }
    if m < n {
      StreamPrefix(lib, secret, seed, m, n - 1);
    }
  }

  /** The first two blocks of P_SHA1, written out. */
  lemma StreamStarts(lib: Library, secret: Bytes, seed: Bytes)
    ensures var first := lib.hmacSha1(secret, seed);
            var second := lib.hmacSha1(secret, first);
            Stream(lib, secret, seed, 2) == lib.hmacSha1(secret, first + seed) + lib.hmacSha1(secret, second + seed)
  {
    assert Accum(lib, secret, seed, 2) == lib.hmacSha1(secret, Accum(lib, secret, seed, 1));
    assert Accum(lib, secret, seed, 1) == lib.hmacSha1(secret, Accum(lib, secret, seed, 0));
    assert Stream(lib, secret, seed, 1) ==
           Stream(lib, secret, seed, 0) + lib.hmacSha1(secret, Accum(lib, secret, seed, 1) + seed);
    assert [] + lib.hmacSha1(secret, Accum(lib, secret, seed, 1) + seed) ==
           lib.hmacSha1(secret, Accum(lib, secret, seed, 1) + seed);
  }

  function Sum(sizes: seq<nat>): nat {
    if sizes == [] then 0 else sizes[0] + Sum(sizes[1..])
  }

  /** data cut into consecutive parts of the given sizes. */
  function Cut(data: Bytes, sizes: seq<nat>): (parts: seq<Bytes>)
    requires Sum(sizes) <= |data|
    ensures |parts| == |sizes|
    ensures forall i | 0 <= i < |sizes| :: |parts[i]| == sizes[i]
    ensures Join(parts) == data[..Sum(sizes)]
  {
    if sizes == [] then []
    else
      var tail := Cut(data[sizes[0]..], sizes[1..]);
      assert data[..Sum(sizes)] == data[..sizes[0]] + data[sizes[0]..][..Sum(sizes[1..])];
      [data[..sizes[0]]] + tail
  }

  /** The keys are cut, in order, from the front of the RFC 2246 stream. */
  method PSha1(lib: Library, secret: Bytes, seed: Bytes, sizes: seq<nat>) returns (parts: seq<Bytes>)
    requires lib.Lawful()
    ensures forall n: nat | Sum(sizes) <= SHA1_SIZE * n ::
              |Stream(lib, secret, seed, n)| >= Sum(sizes) && parts == Cut(Stream(lib, secret, seed, n), sizes)
  {
    var fullSize := 0;
    for i := 0 to |sizes|
      invariant fullSize + Sum(sizes[i..]) == Sum(sizes)
    {
      fullSize := fullSize + sizes[i];
    }
    assert fullSize == Sum(sizes) by { assert sizes[|sizes|..] == []; }

    var result, accum := [], seed;
    ghost var k := 0;
    while |result| < fullSize
      invariant accum == Accum(lib, secret, seed, k) && result == Stream(lib, secret, seed, k)
      invariant |result| == SHA1_SIZE * k
      decreases fullSize - |result|
    {
      accum := lib.hmacSha1(secret, accum);
      result := result + lib.hmacSha1(secret, accum + seed);
      k := k + 1;
    }

    ghost var stream := result;
    parts := CutKeys(result, sizes);
    forall n: nat | Sum(sizes) <= SHA1_SIZE * n
      ensures |Stream(lib, secret, seed, n)| >= Sum(sizes)
              && Cut(stream, sizes) == Cut(Stream(lib, secret, seed, n), sizes)
    {
      StreamPrefix(lib, secret, seed, n, n);
      if n <= k {
        StreamPrefix(lib, secret, seed, n, k);
      } else {
        StreamPrefix(lib, secret, seed, k, n);
      }
      CutOfPrefix(stream, Stream(lib, secret, seed, n), sizes);
    }
  }

  /** The second loop of p_sha1. */
  method CutKeys(stream: Bytes, sizes: seq<nat>) returns (parts: seq<Bytes>)
    requires Sum(sizes) <= |stream|
    ensures parts == Cut(stream, sizes)
  {
    var result := stream;
    parts := [];
    for i := 0 to |sizes|
      invariant Sum(sizes[i..]) <= |result|
      invariant parts + Cut(result, sizes[i..]) == Cut(stream, sizes)
    {
      CutStep(result, sizes, i, parts);
      parts := parts + [result[..sizes[i]]];
      result := result[sizes[i]..];
    }
    assert sizes[|sizes|..] == [];
  }

  lemma CutStep(stream: Bytes, sizes: seq<nat>, i: nat, parts: seq<Bytes>)
    requires i < |sizes| && Sum(sizes[i..]) <= |stream|
    ensures sizes[i] <= |stream| && Sum(sizes[i + 1..]) <= |stream[sizes[i]..]|
    ensures parts + Cut(stream, sizes[i..]) == (parts + [stream[..sizes[i]]]) + Cut(stream[sizes[i]..], sizes[i + 1..])
  {
    assert sizes[i..][1..] == sizes[i + 1..];
    assert Cut(stream, sizes[i..]) == [stream[..sizes[i]]] + Cut(stream[sizes[i]..], sizes[i + 1..]);
    hide Cut, Sum;
    Pushed(parts, stream[..sizes[i]], Cut(stream[sizes[i]..], sizes[i + 1..]));
  }

  lemma Pushed(parts: seq<Bytes>, part: Bytes, rest: seq<Bytes>)
    ensures parts + ([part] + rest) == parts + [part] + rest
  {
  }

  lemma {:induction false} CutOfPrefix(a: Bytes, b: Bytes, sizes: seq<nat>)
    requires Sum(sizes) <= |a| && Sum(sizes) <= |b|
    requires a <= b || b <= a
    ensures Cut(a, sizes) == Cut(b, sizes)
  {
    if sizes != [] {
      var n := sizes[0];
      assert a[..n] == b[..n];
      assert a[n..] <= b[n..] || b[n..] <= a[n..];
      CutOfPrefix(a[n..], b[n..], sizes[1..]);
    }
  }

  /** The key lengths of the two policies: signature key, then cipher key. */
  datatype KeyLengths = Basic128Rsa15 | Basic256 {
    function Sizes(): seq<nat> {
      match this
      case Basic128Rsa15 => [16, 16, 16]
      case Basic256 => [24, 32, 16]
    }
  }

  // 80 bytes of stream are enough for both policies.
  const KEY_BLOCKS: nat := 4

  /** Signature key, cipher key and initial vector. */
  function DerivedKeys(lib: Library, policy: KeyLengths, secret: Bytes, seed: Bytes): (keys: seq<Bytes>)
    requires lib.Lawful()
    ensures |keys| == 3 && forall i | 0 <= i < 3 :: |keys[i]| == policy.Sizes()[i]
  {
    assert Sum(policy.Sizes()) <= 80 by { SumOfThree(policy.Sizes()); }
    StreamPrefix(lib, secret, seed, KEY_BLOCKS, KEY_BLOCKS);
    Cut(Stream(lib, secret, seed, KEY_BLOCKS), policy.Sizes())
  }

  lemma SumOfThree(sizes: seq<nat>)
    requires |sizes| == 3
    ensures Sum(sizes) == sizes[0] + sizes[1] + sizes[2]
  {
    assert Sum(sizes[1..][1..]) == sizes[2] by { assert sizes[1..][1..][1..] == []; }
  }

  /** The symmetric cryptography of an endpoint that holds nonce1 and was sent nonce2. */
  function SymmetricKeys(lib: Library, policy: KeyLengths, encrypted: bool, nonce1: Bytes, nonce2: Bytes)
    : (c: Cryptography)
    requires lib.Lawful()
    ensures c.Valid()
  {
    var out := DerivedKeys(lib, policy, nonce2, nonce1);
    var in_ := DerivedKeys(lib, policy, nonce1, nonce2);
    Cryptography(encrypted, SignerAesCbc(out[0]), VerifierAesCbc(in_[0]),
                 EncryptorAesCbc(out[1], out[2]), DecryptorAesCbc(in_[1], in_[2]))
  }

  /**
   The sending half is cut from one stream, the receiving half from the other: the signature key, then the
   cipher key, then an initial vector of 16 bytes.
   */
  predicate KeysFrom(c: Cryptography, sending: Bytes, receiving: Bytes, signatureKey: nat, cipherKey: nat) {
    var n := signatureKey + cipherKey;
    && |sending| >= n + 16 && |receiving| >= n + 16 && c.Cryptography?
    && c.signer == SignerAesCbc(sending[..signatureKey])
    && c.encryptor == EncryptorAesCbc(sending[signatureKey..n], sending[n..n + 16])
    && c.verifier == VerifierAesCbc(receiving[..signatureKey])
    && c.decryptor == DecryptorAesCbc(receiving[signatureKey..n], receiving[n..n + 16])
  }

  /** Sending keys come from the other side's nonce as the secret and the own one as the seed. */
  lemma KeysComeFromNonces(lib: Library, policy: KeyLengths, encrypted: bool, nonce1: Bytes, nonce2: Bytes)
    requires lib.Lawful()
    ensures var c := SymmetricKeys(lib, policy, encrypted, nonce1, nonce2);
            var sending := Stream(lib, nonce2, nonce1, 4);
            var receiving := Stream(lib, nonce1, nonce2, 4);
            && (policy == Basic128Rsa15 ==> KeysFrom(c, sending, receiving, 16, 16))
            && (policy == Basic256 ==> KeysFrom(c, sending, receiving, 24, 32))
            && c.encrypted == encrypted
  {
    hide Stream, Cut, Sum, Library.Lawful;
    var (sending, receiving) := (Stream(lib, nonce2, nonce1, 4), Stream(lib, nonce1, nonce2, 4));
    StreamPrefix(lib, nonce2, nonce1, 4, 4);
    StreamPrefix(lib, nonce1, nonce2, 4, 4);
    match policy
    case Basic128Rsa15 =>
      ThreeCuts(sending, policy.Sizes(), 16, 16, 16);
      ThreeCuts(receiving, policy.Sizes(), 16, 16, 16);
    case Basic256 =>
      ThreeCuts(sending, policy.Sizes(), 24, 32, 16);
      ThreeCuts(receiving, policy.Sizes(), 24, 32, 16);
  }

  lemma ThreeCuts(data: Bytes, sizes: seq<nat>, a: nat, b: nat, c: nat)
    requires sizes == [a, b, c] && a + b + c <= |data|
    ensures Sum(sizes) == a + b + c
    ensures Cut(data, sizes)[0] == data[..a]
    ensures Cut(data, sizes)[1] == data[a..a + b]
    ensures Cut(data, sizes)[2] == data[a + b..a + b + c]
  {
    hide Cut;
    SumOfThree(sizes);
    CutFirst(data, sizes);
    CutNext(data, sizes, 1);
    CutNext(data, sizes, 2);
    assert sizes[1..] == [b, c];
    TwoCuts(data[a..], sizes[1..], b, c);
    Shifted(data, a, 0, b);
    Shifted(data, a, b, c);
  }

  lemma TwoCuts(data: Bytes, sizes: seq<nat>, b: nat, c: nat)
    requires sizes == [b, c] && b + c <= |data|
    ensures Sum(sizes) == b + c
    ensures Cut(data, sizes)[0] == data[..b] && Cut(data, sizes)[1] == data[b..b + c]
  {
    hide Cut;
    assert sizes[1..] == [c] && sizes[1..][1..] == [];
    assert Sum(sizes) == b + Sum(sizes[1..]) && Sum(sizes[1..]) == c + Sum(sizes[1..][1..]);
    CutFirst(data, sizes);
    CutNext(data, sizes, 1);
    CutFirst(data[b..], sizes[1..]);
    Shifted(data, b, 0, c);
  }

  lemma Shifted(data: Bytes, a: nat, from: nat, n: nat)
    requires a + from + n <= |data|
    ensures data[a..][from..from + n] == data[a + from..a + from + n]
  {
  }

  lemma CutFirst(data: Bytes, sizes: seq<nat>)
    requires sizes != [] && Sum(sizes) <= |data|
    ensures Cut(data, sizes)[0] == data[..sizes[0]]
  {
  }

  lemma CutNext(data: Bytes, sizes: seq<nat>, i: nat)
    requires 0 < i < |sizes| && Sum(sizes) <= |data|
    ensures Cut(data, sizes)[i] == Cut(data[sizes[0]..], sizes[1..])[i - 1]
  {
  }

  method MakeSymmetricKey(lib: Library, policy: KeyLengths, encrypted: bool, nonce1: Bytes, nonce2: Bytes)
    returns (c: Cryptography)
    requires lib.Lawful()
    ensures c == SymmetricKeys(lib, policy, encrypted, nonce1, nonce2)
    ensures c.encrypted == encrypted
    ensures var (sending, receiving) := (Stream(lib, nonce2, nonce1, 4), Stream(lib, nonce1, nonce2, 4));
            && (policy == Basic128Rsa15 ==> KeysFrom(c, sending, receiving, 16, 16))
            && (policy == Basic256 ==> KeysFrom(c, sending, receiving, 24, 32))
  {
    KeysComeFromNonces(lib, policy, encrypted, nonce1, nonce2);
    assert Sum(policy.Sizes()) <= SHA1_SIZE * KEY_BLOCKS by { SumOfThree(policy.Sizes()); }
    var keys := PSha1(lib, nonce2, nonce1, policy.Sizes());
    assert keys == DerivedKeys(lib, policy, nonce2, nonce1);
    var signer, encryptor := SignerAesCbc(keys[0]), EncryptorAesCbc(keys[1], keys[2]);
    keys := PSha1(lib, nonce1, nonce2, policy.Sizes());
    assert keys == DerivedKeys(lib, policy, nonce1, nonce2);
    c := Cryptography(encrypted, signer, VerifierAesCbc(keys[0]), encryptor, DecryptorAesCbc(keys[1], keys[2]));
  }

  /** What a block holds: the RSA key less 11 or 42 bytes of padding, or as many bytes as the AES key has. */
  lemma BlockSizes(rsa: RsaKey, key: Bytes, iv: Bytes)
    ensures rsa.size > 11 ==>
              var e := EncryptorRsa(rsa, Rsa15);
              e.Valid() && e.PlainBlockSize() == rsa.size - 11 && e.EncryptedBlockSize() == rsa.size
    ensures rsa.size > 42 ==>
              var e := EncryptorRsa(rsa, RsaOaep);
              e.Valid() && e.PlainBlockSize() == rsa.size - 42 && e.EncryptedBlockSize() == rsa.size
    ensures |key| in {16, 32} && |iv| == 16 ==>
              var e := EncryptorAesCbc(key, iv);
              e.Valid() && e.PlainBlockSize() == |key| && e.EncryptedBlockSize() == |key|
  {
  }

  /** Two endpoints that swap their nonces can read each other, in both directions. */
  lemma KeyAgreement(lib: Library, policy: KeyLengths, encrypted: bool, nonceA: Bytes, nonceB: Bytes)
    requires lib.Lawful()
    ensures var a := SymmetricKeys(lib, policy, encrypted, nonceA, nonceB);
            var b := SymmetricKeys(lib, policy, encrypted, nonceB, nonceA);
            Paired(a, b) && Paired(b, a) && a.PlainBlockSize() <= 32 && b.PlainBlockSize() <= 32
  {
  }
}
