/** Powers of two, natural alignment and the bit scans of the hal. */
module Powers {
  function Pow2(k: nat): nat {
    if k == 0 then 1 else 2 * Pow2(k - 1)
  }

  lemma {:induction false} Pow2Add(i: nat, j: nat)
    ensures Pow2(i + j) == Pow2(i) * Pow2(j)
  {
    if i > 0 {
      Pow2Add(i - 1, j);
      assert Pow2(i) * Pow2(j) == 2 * (Pow2(i - 1) * Pow2(j));
    }
  }

  lemma {:induction false} Pow2Grows(i: nat, j: nat)
    requires i <= j
    ensures 1 <= Pow2(i) <= Pow2(j)
  {
    if i < j { Pow2Grows(i, j - 1); } else if i > 0 { Pow2Grows(i - 1, j - 1); }
  }

  /** The low k bits of x are zero: x & ((1 << k) - 1) == 0. */
  predicate Aligned(x: nat, k: nat) {
    k == 0 || (x % 2 == 0 && Aligned(x / 2, k - 1))
  }

  lemma {:induction false} AlignedLess(x: nat, i: nat, j: nat)
    requires i <= j && Aligned(x, j)
    ensures Aligned(x, i)
  {
    if i > 0 { AlignedLess(x / 2, i - 1, j - 1); }
  }

  /** The halves of an aligned block. */
  lemma {:induction false} AlignedHalf(x: nat, k: nat)
    requires Aligned(x, k + 1)
    ensures Aligned(x, k) && Aligned(x + Pow2(k), k) && !Aligned(x + Pow2(k), k + 1)
  {
    if k > 0 {
      AlignedHalf(x / 2, k - 1);
      assert (x + Pow2(k)) / 2 == x / 2 + Pow2(k - 1);
    }
  }

  /** A multiple of 2^k that is not one of 2^(k+1) is the right half of one. */
  lemma {:induction false} AlignedOdd(x: nat, k: nat)
    requires Aligned(x, k) && !Aligned(x, k + 1)
    ensures Pow2(k) <= x && Aligned(x - Pow2(k), k + 1)
  {
    if k > 0 {
      AlignedOdd(x / 2, k - 1);
      assert (x - Pow2(k)) / 2 == x / 2 - Pow2(k - 1);
    }
  }

  /** Aligned blocks are nested or disjoint. */
  lemma {:induction false} AlignedNested(x: nat, i: nat, y: nat, j: nat)
    requires i <= j && Aligned(x, i) && Aligned(y, j) && y <= x < y + Pow2(j)
    ensures x + Pow2(i) <= y + Pow2(j)
  {
    if i > 0 {
      AlignedNested(x / 2, i - 1, y / 2, j - 1);
    }
  }

  /** The highest bit of s. */
  function LastBit(s: nat): (k: nat)
    requires s > 0
    ensures Pow2(k) <= s < Pow2(k + 1)
  {
    if s == 1 then 0 else 1 + LastBit(s / 2)
  }

  /** The lowest bit of s. */
  function FirstBit(s: nat): (k: nat)
    requires s > 0
    ensures Aligned(s, k) && !Aligned(s, k + 1)
  {
    if s % 2 == 1 then 0 else 1 + FirstBit(s / 2)
  }

  /** Highest and lowest bit are the same exactly for powers of two. */
  lemma {:induction false} OneBit(s: nat)
    requires s > 0
    ensures FirstBit(s) <= LastBit(s)
    ensures FirstBit(s) == LastBit(s) <==> s == Pow2(LastBit(s))
  {
    if s > 1 && s % 2 == 0 { OneBit(s / 2); }
    if s > 1 && s % 2 == 1 { assert LastBit(s) > 0; }
  }

  /** The least power of two that holds s, as the allocators find it. */
  function RoundUp(s: nat): (k: nat)
    requires s > 0
    ensures s <= Pow2(k) && (k > 0 ==> Pow2(k - 1) < s)
  {
    OneBit(s);
    if FirstBit(s) < LastBit(s) then LastBit(s) + 1 else LastBit(s)
  }

  /** Rounding keeps the order of powers. */
  lemma RoundUpBounds(s: nat, lo: nat, hi: nat)
    requires 0 < s && Pow2(lo) <= s <= Pow2(hi)
    ensures lo <= RoundUp(s) <= hi
  {
    var k := RoundUp(s);
    if k < lo { Pow2Grows(k + 1, lo); }
    if k > hi { Pow2Grows(hi, k - 1); }
  }
}
