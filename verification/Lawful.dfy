/** A library that meets every law the proofs ask of the foreign one. */
module Lawful {
  import opened Wrappers
  import opened Bytes
  import opened Crypto

  function Zeros(n: nat): (r: Bytes)
    ensures |r| == n
  {
    seq(n, _ => 0)
  }

  /** A stand-in for RSA: the block, a one, and zeros up to the size of the key. */
  function Filled(size: nat, block: Bytes): Bytes {
    if |block| < size then block + [1] + Zeros(size - |block| - 1) else Zeros(size)
  }

  function Unfilled(data: Bytes): Option<Bytes> {
    if data == [] then None
    else if data[|data| - 1] == 0 then Unfilled(data[..|data| - 1])
    else Some(data[..|data| - 1])
  }

  lemma {:induction false} UnfilledFilled(block: Bytes, n: nat)
    ensures Unfilled(block + [1] + Zeros(n)) == Some(block)
    decreases n
  {
    var data := block + [1] + Zeros(n);
    if n > 0 {
      assert data[..|data| - 1] == block + [1] + Zeros(n - 1);
      UnfilledFilled(block, n - 1);
    } else {
      assert data == block + [1];
    }
  }

  function StandIn(): Library {
    Library(
      (key: Bytes, data: Bytes) => Zeros(SHA1_SIZE),
      (data: Bytes) => Zeros(SHA1_SIZE),
      (key: Bytes, iv: Bytes, data: Bytes) => data,
      (key: Bytes, iv: Bytes, data: Bytes) => Some(data),
      (scheme: RsaScheme, rsa: RsaKey, draw: nat, block: Bytes) => Filled(rsa.size, block),
      (scheme: RsaScheme, rsa: RsaKey, data: Bytes) => Unfilled(data),
      (rsa: RsaKey, data: Bytes) => Zeros(rsa.size),
      (rsa: RsaKey, data: Bytes, signature: Bytes) => true)
  }

  /** What the proofs ask of the foreign library can be met, so no theorem about lawful ones is empty. */
  lemma LawfulIsSatisfiable()
    ensures StandIn().Lawful()
  {
    var lib := StandIn();
    forall scheme: RsaScheme, key: RsaKey, draw: nat, block: Bytes | |block| + scheme.PaddingSize() <= key.size
      ensures |lib.rsaEncrypt(scheme, key, draw, block)| == key.size
      ensures lib.rsaDecrypt(scheme, key, lib.rsaEncrypt(scheme, key, draw, block)) == Some(block)
    {
      UnfilledFilled(block, key.size - |block| - 1);
    }
  }

  type LawfulLibrary = lib: Library | lib.Lawful() ghost witness (LawfulIsSatisfiable(); StandIn())
}
