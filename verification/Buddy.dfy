/**
 The tiling of a contiguous page array into naturally aligned power-of-two blocks
 (vm/page.c).  base is the page number of the first page; idx[h] is log2 of the size in
 bytes of the block that begins at page h; owner[i] is the first page of the block that
 page i lies in.
 */
module Buddy {
  import opened Powers

  const SHIFT: nat := 12

  /** (1 << x) / SIZE_PAGE. */
  function Span(x: nat): nat {
    if x < SHIFT then 0 else Pow2(x - SHIFT)
  }

  /** A block of at least one page begins at h, is naturally aligned, and owns its pages. */
  ghost predicate Block(base: nat, idx: seq<nat>, owner: seq<nat>, h: nat)
    requires |idx| == |owner|
  {
    && h < |owner| && SHIFT <= idx[h] && h + Span(idx[h]) <= |owner| && Aligned(base + h, idx[h] - SHIFT)
    && forall j | h <= j < h + Span(idx[h]) :: owner[j] == h
  }

  /** Page i lies in the block of its owner. */
  ghost predicate Owned(base: nat, idx: seq<nat>, owner: seq<nat>, i: nat)
    requires |idx| == |owner| && i < |owner|
  {
    owner[i] <= i && Block(base, idx, owner, owner[i]) && i < owner[i] + Span(idx[owner[i]])
  }

  ghost predicate Tiled(base: nat, idx: seq<nat>, owner: seq<nat>) {
    |idx| == |owner| && forall i {:trigger Owned(base, idx, owner, i)} | 0 <= i < |owner| :: Owned(base, idx, owner, i)
  }

  /** Pages a up to b go to h. */
  ghost function Hand(owner: seq<nat>, a: nat, b: nat, h: nat): seq<nat> {
    seq(|owner|, i requires 0 <= i < |owner| => if a <= i < b then h else owner[i])
  }

  /** The two tilings differ at most in the pages from a up to b. */
  ghost predicate Alike(owner: seq<nat>, idx: seq<nat>, owner': seq<nat>, idx': seq<nat>, a: int, b: int) {
    && |owner| == |idx| == |owner'| == |idx'|
    && forall j | 0 <= j < |owner| && !(a <= j < b) :: owner[j] == owner'[j] && idx[j] == idx'[j]
  }

  /** One change after the other. */
  lemma AlikeTwice(owner: seq<nat>, idx: seq<nat>, a: int, b: int, owner': seq<nat>, idx': seq<nat>, c: int, d: int,
                   owner'': seq<nat>, idx'': seq<nat>, e: int, f: int)
    requires Alike(owner, idx, owner', idx', a, b) && Alike(owner', idx', owner'', idx'', c, d)
    requires e <= a && e <= c && b <= f && d <= f
    ensures Alike(owner, idx, owner'', idx'', e, f)
  {
  }

  /** Distinct blocks are disjoint. */
  lemma BlocksApart(base: nat, idx: seq<nat>, owner: seq<nat>, g: nat, h: nat)
    requires Tiled(base, idx, owner) && g < |owner| && h < |owner| && owner[g] == g && owner[h] == h && g < h
    ensures g + Span(idx[g]) <= h
  {
    assert Owned(base, idx, owner, g) && Owned(base, idx, owner, h);
    Pow2Grows(0, idx[h] - SHIFT);
  }

  /** Splitting the block at h leaves a tiling. */
  lemma SplitTiled(base: nat, idx: seq<nat>, owner: seq<nat>, h: nat, r: nat)
    requires Tiled(base, idx, owner) && h < |owner| && owner[h] == h && SHIFT < idx[h] && r == h + Span(idx[h] - 1)
    ensures r < |owner| && h < r
    ensures var x := idx[h] - 1; Tiled(base, idx[h := x][r := x], Hand(owner, r, r + Span(x), r))
  {
    var x := idx[h] - 1;
    SplitHalves(base, idx, owner, h, r);
    var idx', owner' := idx[h := x][r := x], Hand(owner, r, r + Span(x), r);
    SplitAlike(idx', owner', idx, owner, h, r, x);
    forall i | 0 <= i < |owner'| ensures Owned(base, idx', owner', i) {
      assert Owned(base, idx, owner, i);
      if owner[i] != h {
        OwnedOutside(base, idx, owner, idx', owner', h, h + Span(x + 1), h, i);
      }
    }
  }

  /** The two halves are blocks. */
  lemma SplitHalves(base: nat, idx: seq<nat>, owner: seq<nat>, h: nat, r: nat)
    requires Tiled(base, idx, owner) && h < |owner| && owner[h] == h && SHIFT < idx[h] && r == h + Span(idx[h] - 1)
    ensures h < r && r + Span(idx[h] - 1) == h + Span(idx[h]) <= |owner|
    ensures forall j | h <= j < h + Span(idx[h]) :: owner[j] == h
    ensures var x := idx[h] - 1;
      var idx', owner' := idx[h := x][r := x], Hand(owner, r, r + Span(x), r);
      Block(base, idx', owner', h) && Block(base, idx', owner', r)
  {
    var x := idx[h] - 1;
    assert Owned(base, idx, owner, h);
    AlignedHalf(base + h, x - SHIFT);
    Pow2Grows(0, x - SHIFT);
    assert Span(idx[h]) == 2 * Span(x);
  }

  /** A split touches nothing outside the block. */
  lemma SplitAlike(idx': seq<nat>, owner': seq<nat>, idx: seq<nat>, owner: seq<nat>, h: nat, r: nat, x: nat)
    requires |idx| == |owner| && SHIFT <= x && h < r < |owner| && r == h + Span(x)
    requires idx' == idx[h := x][r := x] && owner' == Hand(owner, r, r + Span(x), r)
    ensures Alike(owner, idx, owner', idx', h, h + Span(x + 1))
  {
    assert Span(x + 1) == 2 * Span(x);
  }

  lemma MergeAlike(idx': seq<nat>, owner': seq<nat>, idx: seq<nat>, owner: seq<nat>, l: nat, r: nat, x: nat)
    requires |idx| == |owner| && SHIFT <= x && l < r < |owner| && r == l + Span(x)
    requires idx' == idx[r := SHIFT][l := x + 1] && owner' == Hand(owner, r, r + Span(x), l)
    ensures Alike(owner, idx, owner', idx', l, l + Span(x + 1))
  {
    assert Span(x + 1) == 2 * Span(x);
  }

  /** A block that is outside what changes is still there; the blocks of the changed pages are those from a on. */
  lemma OwnedOutside(base: nat, idx: seq<nat>, owner: seq<nat>, idx': seq<nat>, owner': seq<nat>, a: nat, b: nat,
                     last: nat, i: nat)
    requires Tiled(base, idx, owner) && Alike(owner, idx, owner', idx', a, b) && i < |owner|
    requires a <= last < |owner| && owner[a] == a && owner[last] == last && last + Span(idx[last]) == b
    requires owner[i] < a || owner[i] > last
    ensures Owned(base, idx', owner', i)
  {
    var g := owner[i];
    assert Owned(base, idx, owner, i) && Owned(base, idx, owner, g);
    if g < a { BlocksApart(base, idx, owner, g, a); } else { BlocksApart(base, idx, owner, last, g); }
  }

  /** Joining a block and its right-hand neighbour of the same size leaves a tiling if the pair is aligned. */
  lemma MergeTiled(base: nat, idx: seq<nat>, owner: seq<nat>, l: nat, r: nat)
    requires Tiled(base, idx, owner) && l < |owner| && owner[l] == l && r == l + Span(idx[l]) < |owner| && owner[r] == r
    requires idx[r] == idx[l] >= SHIFT && Aligned(base + l, idx[l] - SHIFT + 1)
    ensures Tiled(base, idx[r := SHIFT][l := idx[l] + 1], Hand(owner, r, r + Span(idx[r]), l))
  {
    var x := idx[l];
    assert Owned(base, idx, owner, l) && Owned(base, idx, owner, r);
    Pow2Grows(0, x - SHIFT);
    var idx', owner' := idx[r := SHIFT][l := x + 1], Hand(owner, r, r + Span(x), l);
    assert Span(x + 1) == 2 * Span(x);
    assert Block(base, idx', owner', l);
    forall i | 0 <= i < |owner'| ensures Owned(base, idx', owner', i) {
      assert Owned(base, idx, owner, i);
      var g := owner[i];
      if g != l && g != r {
        OwnedOutside(base, idx, owner, idx', owner', l, r + Span(x), r, i);
      }
    }
  }

  /** Where the buddy of an aligned block would begin there begins a block, whatever its size. */
  lemma BuddyIsHead(base: nat, idx: seq<nat>, owner: seq<nat>, p: nat, b: nat)
    requires Tiled(base, idx, owner) && p < |owner| && owner[p] == p && b < |owner|
    requires SHIFT <= idx[p]
    requires if Aligned(base + p, idx[p] - SHIFT + 1) then b == p + Span(idx[p]) else p == b + Span(idx[p])
    ensures owner[b] == b
  {
    assert Owned(base, idx, owner, p) && Owned(base, idx, owner, b);
    var k, g := idx[p] - SHIFT, owner[b];
    var j := idx[g] - SHIFT;
    var m := if p < b then p else b;
    if p < b { AlignedHalf(base + p, k); } else { AlignedOdd(base + p, k); AlignedHalf(base + b, k); }
    Pow2Grows(0, k);
    if j <= k {
      AlignedLess(base + b, j, k);
      AlignedNested(base + b, j, base + g, j);
    } else if g <= m {
      // a larger block around b would hold p as well
      AlignedNested(base + m, k + 1, base + g, j);
    } else {
      Pow2Grows(0, j);
      assert owner[g] == g;
    }
  }
}
