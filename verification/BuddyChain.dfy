/** Which buddies the loop of _page_free absorbs (vm/page.c), told from the blocks there are before the call. */
module BuddyChain {
  import opened Powers
  import opened Buddy
  import opened BuddyLists

  /** A free block of size 2^x begins at page b. */
  ghost predicate FreeAt(idx: seq<nat>, free: seq<bool>, owner: seq<nat>, b: int, x: nat) {
    |idx| == |free| == |owner| && 0 <= b < |owner| && owner[b] == b && free[b] && idx[b] == x
  }

  /**
   Where the block at p, of size 2^x, ends up and how large: the first buddy may lie on either side, but
   once something is absorbed only buddies on the right are.
   */
  ghost function Chain(base: nat, idx: seq<nat>, free: seq<bool>, owner: seq<nat>, p: nat, x: nat,
      merged: bool): (nat, nat)
    requires SHIFT <= x
    decreases LISTS - x
  {
    if x >= LISTS then (p, x)
    else if Aligned(base + p, x - SHIFT + 1) then
      if FreeAt(idx, free, owner, p + Span(x), x) then Chain(base, idx, free, owner, p, x + 1, true) else (p, x)
    else if !merged && FreeAt(idx, free, owner, p - Span(x), x) then
      Chain(base, idx, free, owner, p - Span(x), x + 1, true)
    else (p, x)
  }

  /** The block told by end, larger than 2^x, is a right half, and its left half is a free block. */
  ghost predicate RightOfFree(base: nat, idx: seq<nat>, free: seq<bool>, owner: seq<nat>, x: nat, end: (nat, nat))
    requires SHIFT <= x
  {
    && end.1 > x && !Aligned(base + end.0, end.1 - SHIFT + 1)
    && FreeAt(idx, free, owner, end.0 - Span(end.1), end.1)
  }

  /** The block that p grows into is a right half whose left half is a free block, and was not absorbed. */
  ghost predicate LeftBehind(base: nat, idx: seq<nat>, free: seq<bool>, owner: seq<nat>, p: nat, x: nat)
    requires SHIFT <= x
  {
    RightOfFree(base, idx, free, owner, x, Chain(base, idx, free, owner, p, x, false))
  }

  /**
   What is left of a block of size 2^hi when its first part of size 2^lo is split off: a free block of each
   size between.
   */
  ghost predicate Pieces(idx: seq<nat>, free: seq<bool>, owner: seq<nat>, h: nat, lo: nat, hi: nat) {
    forall k | lo <= k < hi :: FreeAt(idx, free, owner, h + Span(k), k)
  }

  /** One more split. */
  lemma PiecesMore(idx: seq<nat>, idx': seq<nat>, free: seq<bool>, owner: seq<nat>, owner': seq<nat>, h: nat, lo: nat,
      hi: nat)
    requires SHIFT < lo <= hi && Pieces(idx, free, owner, h, lo, hi) && Alike(owner, idx, owner', idx', h, h + Span(lo))
    requires FreeAt(idx', free, owner', h + Span(lo - 1), lo - 1)
    ensures Pieces(idx', free, owner', h, lo - 1, hi)
  {
    forall k | lo <= k < hi ensures FreeAt(idx', free, owner', h + Span(k), k) {
      assert FreeAt(idx, free, owner, h + Span(k), k);
      Pow2Grows(lo - SHIFT, k - SHIFT);
    }
  }

  /** Marking the block at h leaves the pieces alone. */
  lemma PiecesKept(idx: seq<nat>, free: seq<bool>, now: seq<bool>, owner: seq<nat>, h: nat, lo: nat, hi: nat)
    requires SHIFT <= lo && Pieces(idx, free, owner, h, lo, hi) && |now| == |free|
    requires forall j | 0 <= j < |owner| && j < |free| && owner[j] == j && j != h :: free[j] == now[j]
    ensures Pieces(idx, now, owner, h, lo, hi)
  {
    forall k | lo <= k < hi ensures FreeAt(idx, now, owner, h + Span(k), k) {
      assert FreeAt(idx, free, owner, h + Span(k), k);
      SpanDoubles(k);
    }
  }

  lemma SpanDoubles(x: nat)
    requires SHIFT <= x
    ensures Span(x + 1) == 2 * Span(x) && Span(x) > 0
  {
    Pow2Grows(0, x - SHIFT);
  }

  /** Whether a block is free and how large does not change by what happens elsewhere. */
  lemma FreeAlike(owner: seq<nat>, idx: seq<nat>, owner': seq<nat>, idx': seq<nat>, free: seq<bool>, a: int, c: int,
      b: int, x: nat)
    requires Alike(owner, idx, owner', idx', a, c) && !(a <= b < c)
    ensures FreeAt(idx, free, owner, b, x) <==> FreeAt(idx', free, owner', b, x)
  {
  }

  /** One turn of the loop, from the block at p to the block at q, is one link of the chain. */
  lemma ChainNext(base: nat, idx: seq<nat>, free: seq<bool>, owner: seq<nat>, p: nat, x: nat, merged: bool,
                  idx': seq<nat>, owner': seq<nat>, idx'': seq<nat>, owner'': seq<nat>, q: nat)
    requires SHIFT <= x < LISTS && Alike(owner, idx, owner', idx', p, p + Span(x))
    requires Alike(owner', idx', owner'', idx'', q, q + Span(x + 1))
    requires if Aligned(base + p, x - SHIFT + 1) then q == p && FreeAt(idx', free, owner', p + Span(x), x)
      else !merged && q == p - Span(x) && FreeAt(idx', free, owner', p - Span(x), x)
    ensures Alike(owner, idx, owner'', idx'', q, q + Span(x + 1))
    ensures Chain(base, idx, free, owner, p, x, merged) == Chain(base, idx, free, owner, q, x + 1, true)
  {
    SpanDoubles(x);
    var b := if q == p then p + Span(x) else q;
    FreeAlike(owner, idx, owner', idx', free, p, p + Span(x), b, x);
    AlikeTwice(owner, idx, p, p + Span(x), owner', idx', q, q + Span(x + 1), owner'', idx'', q, q + Span(x + 1));
  }

  /** Where the loop stops, the chain ends. */
  lemma ChainEnd(base: nat, idx: seq<nat>, free: seq<bool>, owner: seq<nat>, p: nat, y: nat,
                 idx': seq<nat>, owner': seq<nat>, q: nat, x: nat, b: int)
    requires SHIFT <= y <= x && Alike(owner, idx, owner', idx', q, q + Span(x))
    requires Chain(base, idx, free, owner, p, y, false) == Chain(base, idx, free, owner, q, x, y < x)
    requires b == if Aligned(base + q, x - SHIFT + 1) then q + Span(x) else q - Span(x)
    requires FreeAt(idx', free, owner', b, x) ==> y < x && !Aligned(base + q, x - SHIFT + 1)
    ensures Chain(base, idx, free, owner, p, y, false) == (q, x)
    ensures FreeAt(idx', free, owner', b, x) <==> LeftBehind(base, idx, free, owner, p, y)
  {
    SpanDoubles(x);
    FreeAlike(owner, idx, owner', idx', free, q, q + Span(x), b, x);
    assert Chain(base, idx, free, owner, q, x, y < x) == (q, x);
  }

  /** The chain covers the block it starts from and looks at no page of it. */
  lemma {:induction false} ChainSame(base: nat, idx: seq<nat>, free: seq<bool>, now: seq<bool>, owner: seq<nat>,
                                     h: nat, p: nat, x: nat, merged: bool)
    requires SHIFT <= x && p <= h < p + Span(x) && |free| == |now| == |idx| == |owner|
    requires forall j | 0 <= j < |owner| && owner[j] == j && j != h :: free[j] == now[j]
    ensures Chain(base, idx, free, owner, p, x, merged) == Chain(base, idx, now, owner, p, x, merged)
    ensures var (q, y) := Chain(base, idx, free, owner, p, x, merged); SHIFT <= x <= y && q <= h < q + Span(y)
    decreases LISTS - x
  {
    SpanDoubles(x);
    if x < LISTS {
      if Aligned(base + p, x - SHIFT + 1) {
        if FreeAt(idx, free, owner, p + Span(x), x) {
          ChainSame(base, idx, free, now, owner, h, p, x + 1, true);
        }
      } else if !merged && FreeAt(idx, free, owner, p - Span(x), x) {
        ChainSame(base, idx, free, now, owner, h, p - Span(x), x + 1, true);
      }
    }
  }

  lemma LeftBehindSame(base: nat, idx: seq<nat>, free: seq<bool>, now: seq<bool>, owner: seq<nat>, h: nat)
    requires h < |owner| == |idx| == |free| == |now| && SHIFT <= idx[h]
    requires forall j | 0 <= j < |owner| && owner[j] == j && j != h :: free[j] == now[j]
    ensures Chain(base, idx, free, owner, h, idx[h], false) == Chain(base, idx, now, owner, h, idx[h], false)
    ensures LeftBehind(base, idx, free, owner, h, idx[h]) <==> LeftBehind(base, idx, now, owner, h, idx[h])
  {
    SpanDoubles(idx[h]);
    ChainSame(base, idx, free, now, owner, h, h, idx[h], false);
    RightOfSame(base, idx, free, now, owner, h, idx[h], Chain(base, idx, free, owner, h, idx[h], false));
  }

  lemma RightOfSame(base: nat, idx: seq<nat>, free: seq<bool>, now: seq<bool>, owner: seq<nat>, h: nat, x: nat,
      end: (nat, nat))
    requires SHIFT <= x && |owner| == |idx| == |free| == |now| && end.0 <= h
    requires forall j | 0 <= j < |owner| && owner[j] == j && j != h :: free[j] == now[j]
    ensures RightOfFree(base, idx, free, owner, x, end) <==> RightOfFree(base, idx, now, owner, x, end)
  {
    if end.1 > x { SpanDoubles(end.1); }
  }
}
