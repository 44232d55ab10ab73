/** Division with remainder, in the forms the block sizes and bit masks need. */
module Arithmetic {

  lemma RoundUp(n: nat, block: nat)
    requires block > 0
    ensures var rem := n % block;
            var up := if rem != 0 then n + (block - rem) else n;
            up % block == 0 && up / block * block == up && n <= up < n + block
  {
    var q, rem := n / block, n % block;
    assert n == q * block + rem;
    if rem == 0 {
      assert q * block == n;
    } else {
      var up := n + (block - rem);
      assert up == (q + 1) * block;
      MultipleDivides(q + 1, block);
    }
  }

  lemma MultipleDivides(q: nat, block: nat)
    requires block > 0
    ensures (q * block) / block == q && (q * block) % block == 0
  {
    DivisionIsUnique(q * block, block, q, 0);
  }

  /** Quotient and remainder are determined by n == q * block + r with 0 <= r < block. */
  lemma DivisionIsUnique(n: int, block: nat, q: int, r: int)
    requires block > 0 && n == q * block + r && 0 <= r < block
    ensures n / block == q && n % block == r
  {
    var d := q - n / block;
    assert n == n / block * block + n % block;
    assert d * block == n % block - r by { assert d * block == q * block - n / block * block; }
    ProductBound(d, block);
  }

  lemma ProductBound(d: int, block: nat)
    ensures d >= 1 ==> d * block >= block
    ensures d <= -1 ==> d * block <= 0 - block
  {
    if d >= 1 {
      assert (d - 1) * block >= 0;
    } else if d <= -1 {
      assert (-1 - d) * block >= 0;
    }
  }

  lemma WholeBlocks(n: nat, block: nat)
    requires block > 0 && n % block == 0
    ensures n / block * block == n
  {
  }

  lemma Multiple16(n: nat, block: nat)
    requires block in {16, 32} && n % block == 0
    ensures n % 16 == 0
  {
  }

  lemma OneBlockLess(blocks: nat, size: nat)
    requires blocks > 0
    ensures blocks * size == (blocks - 1) * size + size && (blocks - 1) * size >= 0
  {
  }
}
