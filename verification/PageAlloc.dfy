/** The page allocator (vm/page.c) over a contiguous array of pages. */
module PageAlloc {
  import opened Kernel
  import opened Powers
  import opened Buddy
  import opened BuddyLists
  import opened BuddyChain
  import opened Lists

  /** 2 GiB of memory: 1 << idx is a positive int for every block that fits. */
  const MAX_PAGES: nat := 524288

  lemma IdxBound(x: nat)
    requires Span(x) < MAX_PAGES
    ensures x < LISTS - 1
  {
    assert Pow2(1) == 2 && Pow2(2) == 4 && Pow2(3) == 8 && Pow2(4) == 16;
    Pow2Add(4, 4);
    Pow2Add(8, 8);
    Pow2Add(16, 3);
    if x >= SHIFT + 19 { Pow2Grows(19, x - SHIFT); }
  }

  class Pages {
    const base: nat
    const idx: array<nat>
    const free: array<bool>
    const sizes: array<seq<nat>>
    var freesz: nat
    var allocsz: nat
    ghost var owner: seq<nat>

    /** Blocks tile memory, the lists match the free blocks but for those in hand, and the totals add up. */
    ghost predicate Valid(held: set<nat>)
      reads this, idx, free, sizes
    {
      && idx.Length == free.Length == |owner| < MAX_PAGES && sizes.Length == LISTS
      && Tiled(base, idx[..], owner) && Uniform(free[..], owner)
      && Listing(sizes[..], idx[..], free[..], owner, held)
      && freesz == SIZE_PAGE * Count(free[..]) && freesz + allocsz == SIZE_PAGE * |owner|
    }

    /** h begins a block. */
    ghost predicate Head(h: int)
      reads this
    {
      0 <= h < |owner| && owner[h] == h
    }

    /** Nothing moved but in the pages from a up to b. */
    twostate predicate Beyond(a: int, b: int)
      reads this`owner, idx
    {
      Alike(old(owner), old(idx[..]), owner, idx[..], a, b)
    }

    /** A free block of size 2^x begins at page b. */
    ghost predicate FreeBlock(b: int, x: nat)
      reads this, idx, free
    {
      FreeAt(idx[..], free[..], owner, b, x)
    }

    lemma HeadFacts(h: int, held: set<nat>)
      requires Valid(held) && Head(h)
      ensures SHIFT <= idx[h] < LISTS - 1 && h + Span(idx[h]) <= |owner| && Span(idx[h]) > 0
      ensures Aligned(base + h, idx[h] - SHIFT)
      ensures forall j | h <= j < h + Span(idx[h]) :: owner[j] == h
    {
      assert Owned(base, idx[..], owner, h);
      Pow2Grows(0, idx[h] - SHIFT);
      IdxBound(idx[h]);
    }

    /** LIST_REMOVE: the block is in hand. */
    method Take(k: nat, p: nat, ghost held: set<nat>)
      requires Valid(held) && k < LISTS && p in sizes[k]
      modifies sizes
      ensures Valid(held + {p}) && Head(p) && free[p] && idx[p] == k
    {
      ListRemove(sizes[..], idx[..], free[..], owner, held, k, p);
      sizes[k] := Without(sizes[k], p);
      assert sizes[..] == old(sizes[..])[k := Without(old(sizes[k]), p)];
    }

    /** LIST_ADD: the block in hand is listed. */
    method Put(k: nat, p: nat, ghost held: set<nat>)
      requires Valid(held) && p in held && Head(p) && free[p] && k == idx[p]
      modifies sizes
      ensures Valid(held - {p}) && k < LISTS && p in sizes[k]
    {
      HeadFacts(p, held);
      ListAdd(sizes[..], idx[..], free[..], owner, held, p);
      sizes[k] := sizes[k] + [p];
      assert sizes[..] == old(sizes[..])[k := old(sizes[k]) + [p]];
    }

    /** A block in hand becomes two. */
    method Halve(h: nat) returns (r: nat)
      requires Valid({h}) && Head(h) && SHIFT < idx[h]
      modifies idx, this`owner
      ensures Valid({h, r}) && Head(h) && Head(r) && h < r && free[r] == free[h]
      ensures idx[h] == idx[r] == old(idx[h]) - 1 && r == h + Span(idx[h])
      ensures forall g | old(Head(g)) && g != h :: Head(g) && idx[g] == old(idx[g])
      ensures Beyond(h, h + Span(old(idx[h])))
    {
      HeadFacts(h, {h});
      ghost var x := idx[h] - 1;
      SplitKept(base, sizes[..], idx[..], free[..], owner, h, h + Span(x));
      r := WriteHalves(h);
      OtherHeads(h, h + Span(x + 1));
    }

    method WriteHalves(h: nat) returns (r: nat)
      requires h < idx.Length && SHIFT < idx[h] && h < h + Span(idx[h] - 1) < idx.Length
      modifies idx, this`owner
      ensures r == h + Span(old(idx[h]) - 1) && owner == Hand(old(owner), r, r + Span(old(idx[h]) - 1), r)
      ensures idx[..] == old(idx[..])[h := old(idx[h]) - 1][r := old(idx[h]) - 1]
    {
      idx[h] := idx[h] - 1;
      r := h + Span(idx[h]);
      idx[r] := idx[h];
      owner := Hand(owner, r, r + Span(idx[h]), r);
    }

    /** What happens inside one block leaves the others. */
    twostate lemma OtherHeads(new a: nat, new b: nat)
      requires Beyond(a, b) && forall j | a <= j < b && j < |old(owner)| :: old(owner)[j] == a
      requires idx.Length == |old(owner)|
      ensures forall g | old(Head(g)) && g != a :: Head(g) && idx[g] == old(idx[g])
    {
      forall g | old(Head(g)) && g != a ensures Head(g) && idx[g] == old(idx[g]) {
        assert idx[..][g] == old(idx[..])[g];
      }
    }

    /** Two buddies in hand become one. */
    method Join(l: nat, r: nat)
      requires Valid({l, r}) && Head(l) && Head(r) && free[l] && free[r] && SHIFT <= idx[l] == idx[r]
      requires r == l + Span(idx[l])
      requires Aligned(base + l, idx[l] - SHIFT + 1)
      modifies idx, this`owner
      ensures Valid({l}) && Head(l) && idx[l] == old(idx[l]) + 1 && idx[r] == SHIFT && Beyond(l, l + Span(idx[l]))
      ensures forall g | old(Head(g)) && g != l && g != r :: Head(g) && idx[g] == old(idx[g])
    {
      HeadFacts(l, {l, r});
      HeadFacts(r, {l, r});
      ghost var x := idx[l];
      MergeTiled(base, idx[..], owner, l, r);
      ListMerge(sizes[..], idx[..], free[..], owner, l, r, x);
      SpanDoubles(x);
      HandUniform(free[..], owner, r, r + Span(x), r, l);
      WriteJoined(l, r);
      MergeAlike(idx[..], owner, old(idx[..]), old(owner), l, r, x);
      OtherThanTwo(l, r);
    }

    method WriteJoined(l: nat, r: nat)
      requires l < r < idx.Length
      modifies idx, this`owner
      ensures idx[..] == old(idx[..])[r := SHIFT][l := old(idx[l]) + 1]
      ensures owner == Hand(old(owner), r, r + Span(old(idx[l])), l)
    {
      ghost var x := idx[l];
      idx[r] := SHIFT;
      idx[l] := idx[l] + 1;
      owner := Hand(owner, r, r + Span(x), l);
    }

    twostate lemma OtherThanTwo(new l: nat, new r: nat)
      requires l < r < idx.Length == |old(owner)| && idx[..] == old(idx[..])[r := SHIFT][l := old(idx[l]) + 1]
      requires owner == Hand(old(owner), r, r + Span(old(idx[l])), l)
      requires forall j | r <= j < r + Span(old(idx[l])) && j < |owner| :: old(owner)[j] == r
      ensures forall g | old(Head(g)) && g != l && g != r :: Head(g) && idx[g] == old(idx[g])
    {
      forall g | old(Head(g)) && g != l && g != r ensures Head(g) && idx[g] == old(idx[g]) {
        assert idx[..][g] == old(idx[..])[g];
      }
    }

    /** A pool of n pages, all of them allocated one by one. */
    constructor (base: nat, n: nat)
      requires n < MAX_PAGES
      ensures Valid({}) && |owner| == n && freesz == 0 && this.base == base && fresh(idx) && fresh(free) && fresh(sizes)
      ensures forall h | 0 <= h < n :: owner[h] == h && idx[h] == SHIFT && !free[h]
    {
      this.base, this.freesz, this.allocsz := base, 0, n * SIZE_PAGE;
      idx := new nat[n](i => SHIFT);
      free := new bool[n](i => false);
      sizes := new seq<nat>[LISTS](i => []);
      owner := seq(n, i requires 0 <= i < n => i);
      new;
      forall i | 0 <= i < n ensures Owned(base, idx[..], owner, i) {
        assert Aligned(base + i, 0);
      }
      NoneFree(free[..]);
    }

    /** All the pages of the block at p become free, or cease to be. */
    method Mark(p: nat, to: bool)
      requires Head(p) && idx.Length == free.Length == |owner| && p + Span(idx[p]) <= |owner|
      requires forall j | p <= j < p + Span(idx[p]) :: free[j] != to
      requires freesz == SIZE_PAGE * Count(free[..]) && freesz + allocsz == SIZE_PAGE * |owner|
      modifies free, this`freesz, this`allocsz
      ensures forall j | 0 <= j < |owner| :: free[j] == if p <= j < p + Span(idx[p]) then to else old(free[j])
      ensures freesz == SIZE_PAGE * Count(free[..]) && freesz + allocsz == SIZE_PAGE * |owner|
      ensures if to then freesz == old(freesz) + SIZE_PAGE * Span(idx[p])
        else freesz + SIZE_PAGE * Span(idx[p]) == old(freesz)
    {
      for i := 0 to Span(idx[p])
        invariant forall j | 0 <= j < |owner| :: free[j] == if p <= j < p + i then to else old(free[j])
        invariant freesz == SIZE_PAGE * Count(free[..]) && freesz + allocsz == SIZE_PAGE * |owner|
        invariant if to then freesz == old(freesz) + SIZE_PAGE * i else freesz + SIZE_PAGE * i == old(freesz)
      {
        MarkPage(p + i, to);
      }
    }

    /** One page, with the accounts. */
    method MarkPage(j: nat, to: bool)
      requires j < |owner| == free.Length && free[j] != to
      requires freesz == SIZE_PAGE * Count(free[..]) && freesz + allocsz == SIZE_PAGE * |owner|
      modifies free, this`freesz, this`allocsz
      ensures free[j] == to && forall k | 0 <= k < free.Length && k != j :: free[k] == old(free[k])
      ensures freesz == SIZE_PAGE * Count(free[..]) && freesz + allocsz == SIZE_PAGE * |owner|
      ensures if to then freesz == old(freesz) + SIZE_PAGE else freesz + SIZE_PAGE == old(freesz)
    {
      ghost var was := free[..];
      CountFlip(was, j);
      CountBound(was);
      free[j] := to;
      assert free[..] == was[j := to];
      CountBound(free[..]);
      if to {
        freesz, allocsz := freesz + SIZE_PAGE, allocsz - SIZE_PAGE;
      } else {
        freesz, allocsz := freesz - SIZE_PAGE, allocsz + SIZE_PAGE;
      }
    }

    /** The blocks in use are as they were. */
    twostate predicate LiveKept()
      reads this, idx, free
    {
      && idx.Length == free.Length == |owner| == |old(owner)|
      && forall h | old(Head(h)) && !old(free[h]) :: Head(h) && idx[h] == old(idx[h])
    }

    /** One turn of the splitting loop: the block becomes two, and both are listed. */
    method SplitOnce(lh: nat, stop: nat)
      requires Valid({}) && SHIFT < stop < LISTS && lh in sizes[stop]
      modifies idx, sizes, this`owner
      ensures Valid({}) && lh in sizes[stop - 1] && FreeBlock(lh + Span(stop - 1), stop - 1)
      ensures Beyond(lh, lh + Span(stop))
    {
      Take(stop, lh, {});
      assert Valid({lh}) by { assert {} + {lh} == {lh}; }
      var rh := Halve(lh);
      Put(stop - 1, lh, {lh, rh});
      assert Valid({rh}) by { assert {lh, rh} - {lh} == {rh}; }
      Put(stop - 1, rh, {rh});
      assert Valid({}) by { assert {rh} - {rh} == {}; }
    }

    /** The loop that splits the block at the head of list stop until it is as small as the request allows. */
    method SplitDown(lh: nat, start: nat, top: nat)
      requires Valid({}) && SHIFT <= start <= top < LISTS && lh in sizes[top]
      modifies idx, sizes, this`owner
      ensures Valid({}) && lh in sizes[start] && LiveKept() && Beyond(lh, lh + Span(top))
      ensures Pieces(idx[..], free[..], owner, lh, start, top)
    {
      var stop := top;
      Listed(top, lh);
      while stop > start
        invariant Valid({}) && start <= stop <= top && lh in sizes[stop] && Beyond(lh, lh + Span(top))
        invariant Pieces(idx[..], free[..], owner, lh, stop, top)
      {
        ghost var was, now := owner, idx[..];
        SplitOnce(lh, stop);
        PiecesMore(now, idx[..], free[..], was, owner, lh, stop, top);
        Pow2Grows(stop - SHIFT, top - SHIFT);
        AlikeTwice(old(owner), old(idx[..]), lh, lh + Span(top), was, now, lh, lh + Span(stop),
          owner, idx[..], lh, lh + Span(top));
        stop := stop - 1;
      }
      LiveOutside(lh, lh + Span(top));
    }

    /** A block on a list is a free block of its size. */
    lemma Listed(k: nat, p: nat)
      requires Valid({}) && k < LISTS && p in sizes[k]
      ensures Head(p) && free[p] && idx[p] == k && 0 < Span(k) && p + Span(k) <= |owner|
      ensures forall j | p <= j < p + Span(k) :: owner[j] == p
    {
      assert p in sizes[..][k];
      assert OnList(idx[..], free[..], owner, {}, k, p);
      HeadFacts(p, {});
    }

    /** What happens inside a free block touches no block in use. */
    twostate lemma LiveOutside(new a: nat, new b: nat)
      requires idx.Length == free.Length == |old(owner)| && Beyond(a, b) && a < b <= |owner| && old(free[a])
      requires forall j | a <= j < b :: old(owner)[j] == a
      ensures LiveKept()
    {
    }

    /** A block is of one colour, and so is every other block still. */
    lemma Repainted(was: seq<bool>, now: seq<bool>, p: nat, to: bool)
      requires |idx[..]| == |owner| == |was| == |now| && Tiled(base, idx[..], owner) && Uniform(was, owner)
      requires forall j | 0 <= j < |owner| :: now[j] == if owner[j] == p then to else was[j]
      ensures Uniform(now, owner)
    {
      forall j | 0 <= j < |owner| ensures owner[j] < |owner| && now[j] == now[owner[j]] {
        assert Owned(base, idx[..], owner, j);
        assert owner[owner[j]] == owner[j];
      }
    }

    /** A block in hand leaves the pool. */
    method Claim(p: nat)
      requires Valid({p}) && Head(p) && free[p]
      modifies free, this`freesz, this`allocsz
      ensures Valid({}) && freesz + SIZE_PAGE * Span(idx[p]) == old(freesz)
      ensures forall j | 0 <= j < |owner| :: free[j] == (old(free[j]) && owner[j] != p)
    {
      HeadFacts(p, {p});
      forall j | p <= j < p + Span(idx[p]) ensures free[j] { assert owner[j] == p; }
      Mark(p, false);
      forall j | 0 <= j < |owner| ensures p <= j < p + Span(idx[p]) <==> owner[j] == p
        { assert Owned(base, idx[..], owner, j); }
      Repainted(old(free[..]), free[..], p, false);
      forall k, h | 0 <= k < LISTS ensures h in sizes[..][k] <==> OnList(idx[..], free[..], owner, {}, k, h) {
        assert h in sizes[..][k] <==> OnList(idx[..], old(free[..]), owner, {p}, k, h);
      }
    }

    /** The first list from start on that is not empty. */
    method FindList(start: nat) returns (stop: nat)
      requires Valid({}) && start <= LISTS
      ensures start <= stop <= LISTS && (stop < LISTS ==> sizes[stop] != [])
      ensures forall h | Head(h) && free[h] :: idx[h] < start || (stop < LISTS && stop <= idx[h])
    {
      stop := start;
      while stop < LISTS && sizes[stop] == []
        invariant start <= stop <= LISTS
        invariant forall k | start <= k < stop :: sizes[k] == []
      {
        stop := stop + 1;
      }
      forall h | Head(h) && free[h] ensures idx[h] < start || (stop < LISTS && stop <= idx[h]) {
        HeadFacts(h, {});
        assert OnList(idx[..], free[..], owner, {}, idx[h], h);
        assert h in sizes[..][idx[h]];
      }
    }

    /**
     _page_alloc: a free block of the smallest power of two that covers the request, split off the front
     of the smallest free block that covers it; what is left of that one is a free block of each size
     between, and nothing else moves.  NULL (-1) only if every free block is smaller than the request,
     and then nothing changes at all.
     */
    method Alloc(size: nat) returns (p: int)
      requires Valid({}) && size < Pow2(32)
      modifies idx, free, sizes, this`owner, this`freesz, this`allocsz
      ensures Valid({}) && LiveKept()
      ensures p == -1 ==> unchanged(this) && unchanged(idx) && unchanged(free) && unchanged(sizes)
      ensures p == -1 <==> forall h | old(Head(h)) && old(free[h]) :: Pow2(old(idx[h])) < size
      ensures p != -1 ==> Head(p) && size <= Pow2(idx[p]) && (SHIFT < idx[p] ==> Pow2(idx[p] - 1) < size)
      ensures p != -1 ==> forall j | 0 <= j < |owner| :: free[j] == (old(free[j]) && owner[j] != p)
      ensures p != -1 ==> freesz + SIZE_PAGE * Span(idx[p]) == old(freesz)
      ensures p != -1 ==> old(Head(p)) && old(free[p]) && Beyond(p, p + Span(old(idx[p])))
      ensures p != -1 ==> Pieces(idx[..], free[..], owner, p, idx[p], old(idx[p]))
      ensures p != -1 ==>
        forall h | old(Head(h)) && old(free[h]) && size <= Pow2(old(idx[h])) :: old(idx[p]) <= old(idx[h])
    {
      var start := FirstList(size);
      var stop := FindList(start);
      LargeEnough(size, start);
      if stop == LISTS {
        return -1;
      }
      p := Carve(start, stop);
      assert idx[p] - 1 == start - 1;
    }

    /** The blocks that cover the request are those on the lists from start on. */
    lemma LargeEnough(size: nat, start: nat)
      requires Valid({}) && size <= Pow2(start) && (SHIFT < start ==> Pow2(start - 1) < size)
      ensures forall h | Head(h) && free[h] :: SHIFT <= idx[h] && (size <= Pow2(idx[h]) <==> start <= idx[h])
    {
      forall h | Head(h) && free[h] ensures SHIFT <= idx[h] && (size <= Pow2(idx[h]) <==> start <= idx[h]) {
        HeadFacts(h, {});
        if start <= idx[h] { Pow2Grows(start, idx[h]); } else { Pow2Grows(idx[h], start - 1); }
      }
    }

    /** Splits the first block of list stop down to the size of list start and takes it. */
    method Carve(start: nat, stop: nat) returns (p: nat)
      requires Valid({}) && SHIFT <= start <= stop < LISTS && sizes[stop] != []
      modifies idx, free, sizes, this`owner, this`freesz, this`allocsz
      ensures Valid({}) && LiveKept() && Head(p) && idx[p] == start && old(Head(p)) && old(free[p])
      ensures old(idx[p]) == stop
      ensures Beyond(p, p + Span(stop)) && Pieces(idx[..], free[..], owner, p, start, stop)
      ensures forall j | 0 <= j < |owner| :: free[j] == (old(free[j]) && owner[j] != p)
      ensures freesz + SIZE_PAGE * Span(idx[p]) == old(freesz)
    {
      p := sizes[stop][0];
      Listed(stop, p);
      SplitDown(p, start, stop);
      Take(start, p, {});
      assert Valid({p}) by { assert {} + {p} == {p}; }
      Claim(p);
      PiecesKept(idx[..], old(free[..]), free[..], owner, p, start, stop);
    }

    /** A block in use comes back to the pool, and is in hand. */
    method Release(p: nat)
      requires Valid({}) && Head(p) && !free[p]
      modifies free, this`freesz, this`allocsz
      ensures Valid({p}) && free[p] && freesz == old(freesz) + SIZE_PAGE * Span(idx[p])
      ensures forall j | 0 <= j < |owner| :: free[j] == (old(free[j]) || owner[j] == p)
    {
      HeadFacts(p, {});
      forall j | p <= j < p + Span(idx[p]) ensures !free[j] { assert owner[j] == p; }
      Mark(p, true);
      forall j | 0 <= j < |owner| ensures p <= j < p + Span(idx[p]) <==> owner[j] == p
        { assert Owned(base, idx[..], owner, j); }
      Repainted(old(free[..]), free[..], p, true);
      forall k, h | 0 <= k < LISTS ensures h in sizes[..][k] <==> OnList(idx[..], free[..], owner, {p}, k, h) {
        assert h in sizes[..][k] <==> OnList(idx[..], old(free[..]), owner, {}, k, h);
      }
    }

    /** Where the other half of the next larger aligned block begins. */
    ghost function BuddyOf(p: nat, x: nat): int
      requires SHIFT <= x
    {
      if Aligned(base + p, x - SHIFT + 1) then p + Span(x) else p - Span(x)
    }

    /** The buddy of the block at p is a free block of the same size. */
    ghost predicate BuddyFree(p: nat)
      reads this, idx, free
    {
      && idx.Length == free.Length == |owner| && p < |owner| && SHIFT <= idx[p]
      && var b := BuddyOf(p, idx[p]); Head(b) && free[b] && idx[b] == idx[p]
    }

    /**
     The pair of pages the loop of _page_free looks at: p and its buddy, or a pair that no longer belongs
     together.
     */
    ghost predicate Pair(p: nat, x: nat, lh: int, rh: int)
      requires SHIFT <= x
      reads this, idx
    {
      if Aligned(base + p, x - SHIFT + 1) then lh == p && rh == p + Span(x)
      else lh == p - Span(x) && rh == p
    }

    ghost predicate Stale(p: nat, x: nat, lh: int, rh: int)
      requires SHIFT <= x
      reads this, idx
    {
      !Aligned(base + p, x - SHIFT + 1) && lh == p - Span(x) && lh + 1 < rh < idx.Length && 0 <= rh && idx[rh] == SHIFT
    }

    predicate Joinable(lh: int, rh: int, x: nat)
      requires idx.Length == free.Length
      reads this, idx, free
    {
      lh >= 0 && 0 <= rh < idx.Length && lh < idx.Length && free[lh] && free[rh] && idx[lh] == idx[rh]
      && lh + Span(idx[lh]) == rh && x < LISTS
    }

    /** A stale pair is never joined; a pair that passes the test is a block and its free buddy. */
    lemma PairIsBuddies(p: nat, lh: int, rh: int)
      requires Valid({p}) && Head(p) && free[p] && SHIFT <= idx[p]
      requires (Pair(p, idx[p], lh, rh) || Stale(p, idx[p], lh, rh))
      ensures Joinable(lh, rh, idx[p]) ==>
        Pair(p, idx[p], lh, rh) && Head(lh) && Head(rh) && lh < rh && idx[lh] == idx[rh] == idx[p]
      ensures Joinable(lh, rh, idx[p]) ==>
        Aligned(base + lh, idx[p] - SHIFT + 1) && (if p == lh then rh else lh) in sizes[idx[p]]
      ensures Pair(p, idx[p], lh, rh) && BuddyFree(p) ==> Joinable(lh, rh, idx[p])
    {
      HeadFacts(p, {p});
      if Joinable(lh, rh, idx[p]) && Pair(p, idx[p], lh, rh) {
        var b := if p == lh then rh else lh;
        BuddyIsHead(base, idx[..], owner, p, b);
        assert OnList(idx[..], free[..], owner, {p}, idx[p], b);
        assert b in sizes[..][idx[p]];
        if p == rh { AlignedOdd(base + p, idx[p] - SHIFT); }
      }
    }

    /** The buddy leaves its list and the pair becomes one block. */
    method Absorb(p: nat, lh: nat, rh: nat, x: nat)
      requires Valid({p}) && Head(p) && free[p] && x == idx[p] && SHIFT <= x && Pair(p, x, lh, rh)
      requires Joinable(lh, rh, x)
      modifies sizes, idx, this`owner
      ensures Valid({lh}) && Head(lh) && free[lh] && idx[lh] == x + 1 && rh < idx.Length && idx[rh] == SHIFT
      ensures rh == lh + Span(x)
      ensures lh <= p && p + Span(x) <= lh + Span(x + 1) && Beyond(lh, lh + Span(x + 1))
    {
      PairIsBuddies(p, lh, rh);
      HeadFacts(p, {p});
      if p == lh {
        Take(x, rh, {p});
      } else {
        Take(x, lh, {p});
      }
      assert Valid({lh, rh}) by { assert {p} + {if p == lh then rh else lh} == {lh, rh}; }
      Join(lh, rh);
    }

    /** The pair to look at next; when p is now a right half, rh is left where it was. */
    method NextPair(p: nat, x: nat, lh0: int, rh0: int) returns (lh: int, rh: int)
      requires SHIFT <= x
      ensures lh == if Aligned(base + p, x - SHIFT + 1) then lh0 else p - Span(x)
      ensures rh == if Aligned(base + p, x - SHIFT + 1) then p + Span(x) else rh0
    {
      lh, rh := lh0, rh0;
      if !Aligned(base + p, x - SHIFT + 1) {
        lh := p - Span(x);
      } else {
        rh := p + Span(x);
      }
    }

    /** After a join, what is left in lh and rh is a pair, or is never joined. */
    lemma AfterJoin(p: nat, x: nat, rh: int)
      requires Valid({p}) && Head(p) && x == idx[p] && SHIFT < x && rh == p + Span(x - 1) < idx.Length
      requires idx[rh] == SHIFT
      ensures Aligned(base + p, x - SHIFT + 1) ==> Pair(p, x, p, p + Span(x))
      ensures !Aligned(base + p, x - SHIFT + 1) ==> Stale(p, x, p - Span(x), rh)
    {
      HeadFacts(p, {p});
      Pow2Grows(0, x - 1 - SHIFT);
    }

    /** The block q is in hand, and lh and rh are what the loop looks at. */
    ghost predicate Looking(q: nat, x: nat, lh: int, rh: int, merged: bool)
      reads this, idx, free, sizes
    {
      && Valid({q}) && Head(q) && free[q] && x == idx[q] && SHIFT <= x
      && (if merged && !Aligned(base + q, x - SHIFT + 1) then Stale(q, x, lh, rh) else Pair(q, x, lh, rh))
    }

    /** One turn of the loop of _page_free. */
    method Step(q0: nat, x0: nat, lh0: int, rh0: int, ghost merged: bool) returns (q: nat, x: nat, lh: int, rh: int)
      requires Looking(q0, x0, lh0, rh0, merged) && Joinable(lh0, rh0, x0)
      modifies sizes, idx, this`owner
      ensures Looking(q, x, lh, rh, true) && x == x0 + 1 && q <= q0 && q0 + Span(x0) <= q + Span(x)
      ensures if Aligned(base + q0, x0 - SHIFT + 1) then q == q0 && old(FreeBlock(q0 + Span(x0), x0))
        else !merged && q == q0 - Span(x0) && old(FreeBlock(q0 - Span(x0), x0))
      ensures Beyond(q, q + Span(x))
    {
      PairIsBuddies(q0, lh0, rh0);
      Absorb(q0, lh0, rh0, x0);
      x := x0 + 1;
      q := lh0;
      AfterJoin(q, x, rh0);
      lh, rh := NextPair(q, x, lh0, rh0);
    }

    /** If the loop ends while the buddy is free, then after a join, at a right half. */
    lemma Stopped(q: nat, x: nat, lh: int, rh: int, merged: bool)
      requires Looking(q, x, lh, rh, merged) && !Joinable(lh, rh, x)
      ensures x == idx[q] && (BuddyFree(q) ==> merged && !Aligned(base + q, idx[q] - SHIFT + 1))
      ensures BuddyFree(q) <==> FreeBlock(BuddyOf(q, x), x)
    {
      PairIsBuddies(q, lh, rh);
    }

    /** Only the block at q differs from the blocks told by ids and own, and the chain through it ends at end. */
    ghost predicate OnChain(ids: seq<nat>, own: seq<nat>, end: (nat, nat), q: nat, x: nat, merged: bool)
      requires SHIFT <= x
      reads this`owner, idx, free
    {
      Alike(own, ids, owner, idx[..], q, q + Span(x)) && end == Chain(base, ids, free[..], own, q, x, merged)
    }

    method Turn(q0: nat, x0: nat, lh0: int, rh0: int, ghost merged: bool, ghost ids: seq<nat>, ghost own: seq<nat>,
        ghost end: (nat, nat))
      returns (q: nat, x: nat, lh: int, rh: int)
      requires Looking(q0, x0, lh0, rh0, merged) && Joinable(lh0, rh0, x0) && OnChain(ids, own, end, q0, x0, merged)
      modifies sizes, idx, this`owner
      ensures Looking(q, x, lh, rh, true) && x == x0 + 1 && q <= q0 && q0 + Span(x0) <= q + Span(x)
      ensures OnChain(ids, own, end, q, x, true)
    {
      ghost var was, now := owner, idx[..];
      q, x, lh, rh := Step(q0, x0, lh0, rh0, merged);
      ChainNext(base, ids, free[..], own, q0, x0, merged, now, was, idx[..], owner, q);
    }

    /** The loop of _page_free. */
    method Grow(p0: nat) returns (q: nat, x: nat, lh: int, rh: int)
      requires Valid({p0}) && Head(p0) && free[p0]
      modifies sizes, idx, this`owner
      ensures Looking(q, x, lh, rh, old(idx[p0]) < x) && !Joinable(lh, rh, x) && q <= p0 < q + Span(x)
      ensures SHIFT <= old(idx[p0]) <= x
      ensures OnChain(old(idx[..]), old(owner), old(Chain(base, idx[..], free[..], owner, p0, idx[p0], false)), q, x,
        old(idx[p0]) < x)
    {
      HeadFacts(p0, {p0});
      q, x := p0, idx[p0];
      ghost var x0, ids, own := x, idx[..], owner;
      ghost var end := Chain(base, ids, free[..], own, p0, x0, false);
      lh, rh := NextPair(q, x, q, q);
      while Joinable(lh, rh, x)
        invariant Looking(q, x, lh, rh, x0 < x) && OnChain(ids, own, end, q, x, x0 < x)
        invariant q <= p0 < q + Span(x) && x0 <= x
        decreases LISTS - x
      {
        q, x, lh, rh := Turn(q, x, lh, rh, x0 < x, ids, own, end);
      }
    }

    /** Where the loop stops, the chain ends, and the buddy is told by the blocks there were. */
    lemma Ended(ids: seq<nat>, own: seq<nat>, p0: nat, y: nat, q: nat, x: nat, lh: int, rh: int)
      requires SHIFT <= y <= x && Looking(q, x, lh, rh, y < x) && !Joinable(lh, rh, x)
      requires OnChain(ids, own, Chain(base, ids, free[..], own, p0, y, false), q, x, y < x)
      ensures x == idx[q] && Chain(base, ids, free[..], own, p0, y, false) == (q, x)
      ensures BuddyFree(q) <==> LeftBehind(base, ids, free[..], own, p0, y)
    {
      Stopped(q, x, lh, rh, y < x);
      ChainEnd(base, ids, free[..], own, p0, y, idx[..], owner, q, x, BuddyOf(q, x));
    }

    /** The block at p0 absorbs its free buddies. */
    method Coalesce(p0: nat) returns (q: nat)
      requires Valid({p0}) && Head(p0) && free[p0]
      modifies sizes, idx, this`owner
      ensures Valid({q}) && Head(q) && free[q] && SHIFT <= old(idx[p0]) <= idx[q] && q <= p0 < q + Span(idx[q])
      ensures Beyond(q, q + Span(idx[q]))
      ensures (q, idx[q]) == old(Chain(base, idx[..], free[..], owner, p0, idx[p0], false))
      ensures BuddyFree(q) <==> old(LeftBehind(base, idx[..], free[..], owner, p0, idx[p0]))
    {
      HeadFacts(p0, {p0});
      ghost var ids, own, fr, y := idx[..], owner, free[..], idx[p0];
      var x, lh, rh;
      q, x, lh, rh := Grow(p0);
      assert free[..] == fr;
      Ended(ids, own, p0, y, q, x, lh, rh);
    }

    /**
     _page_free: the block comes back and grows by absorbing free buddies, the first of them on either
     side, the others on the right only.  Nothing moves outside the block it grows into.  Its buddy is
     left free and unjoined exactly if something was absorbed and the result is a right half with a free
     left half.
     */
    method Free(p0: nat) returns (p: nat)
      requires Valid({}) && Head(p0) && !free[p0]
      modifies free, sizes, idx, this`owner, this`freesz, this`allocsz
      ensures Valid({}) && |owner| == |old(owner)| && freesz == old(freesz + SIZE_PAGE * Span(idx[p0]))
      ensures forall j | 0 <= j < |owner| :: free[j] == (old(free[j]) || old(owner)[j] == p0)
      ensures Head(p) && SHIFT <= old(idx[p0]) && Beyond(p, p + Span(idx[p]))
      ensures (p, idx[p]) == Chain(base, old(idx[..]), old(free[..]), old(owner), p0, old(idx[p0]), false)
      ensures BuddyFree(p) <==> LeftBehind(base, old(idx[..]), old(free[..]), old(owner), p0, old(idx[p0]))
      ensures p <= p0 < p + Span(idx[p]) && old(idx[p0]) <= idx[p]
      ensures forall h | old(Head(h)) && !old(free[h]) && h != p0 :: Head(h) && idx[h] == old(idx[h])
    {
      HeadFacts(p0, {});
      Release(p0);
      LeftBehindSame(base, idx[..], old(free[..]), free[..], owner, p0);
      ChainSame(base, idx[..], old(free[..]), free[..], owner, p0, p0, idx[p0], false);
      p := Coalesce(p0);
      PutBack(p);
      OthersKept(p0, p);
    }

    /** The blocks in use but for p0, which is now part of the free block p. */
    twostate lemma OthersKept(new p0: nat, new p: nat)
      requires Valid({}) && Head(p) && free[p] && Beyond(p, p + Span(idx[p])) && p0 < |owner|
      requires forall j | 0 <= j < |owner| :: free[j] == (old(free[j]) || old(owner)[j] == p0)
      ensures forall h | old(Head(h)) && !old(free[h]) && h != p0 :: Head(h) && idx[h] == old(idx[h])
    {
      HeadFacts(p, {});
      forall h | old(Head(h)) && !old(free[h]) && h != p0 ensures Head(h) && idx[h] == old(idx[h]) {
        assert free[h] == free[owner[h]];
        assert old(idx[..])[h] == idx[..][h];
      }
    }

    method PutBack(p: nat)
      requires Valid({p}) && Head(p) && free[p]
      modifies sizes
      ensures Valid({})
    {
      Put(idx[p], p, {p});
      assert {p} - {p} == {};
    }
  }

  lemma {:induction false} NoneFree(free: seq<bool>)
    requires forall i | 0 <= i < |free| :: !free[i]
    ensures Count(free) == 0
  {
    if free != [] { NoneFree(free[..|free| - 1]); }
  }

  lemma CoverBounds(size: nat, s: nat, lo: nat, hi: nat)
    requires lo <= hi && size < Pow2(hi) && s == (if size < Pow2(lo) then Pow2(lo) else size) && s > 0
    ensures lo <= RoundUp(s) <= hi && size <= Pow2(RoundUp(s)) && (lo < RoundUp(s) ==> Pow2(RoundUp(s) - 1) < size)
  {
    Pow2Grows(lo, hi);
    RoundUpBounds(s, lo, hi);
    if lo < RoundUp(s) { Pow2Grows(lo, RoundUp(s) - 1); }
  }

  lemma PageSize()
    ensures SIZE_PAGE == Pow2(SHIFT)
  {
    assert Pow2(1) == 2 && Pow2(2) == 4 && Pow2(3) == 8 && Pow2(4) == 16;
    Pow2Add(4, 4);
    Pow2Add(8, 4);
  }

  /** The index of the smallest list whose blocks cover the request. */
  method FirstList(size: nat) returns (start: nat)
    requires size < Pow2(32)
    ensures SHIFT <= start <= LISTS && size <= Pow2(start) && (SHIFT < start ==> Pow2(start - 1) < size)
  {
    var s := if size < SIZE_PAGE then SIZE_PAGE else size;
    start := RoundUp(s);
    PageSize();
    CoverBounds(size, s, SHIFT, LISTS);
  }

  /** What joins what among four pages. */
  lemma FourChains(idx: seq<nat>, free: seq<bool>, owner: seq<nat>)
    requires |idx| == |free| == |owner| == 4
    ensures !free[1] ==> Chain(0, idx, free, owner, 0, 12, false) == (0, 12)
    ensures FreeAt(idx, free, owner, 0, 12) && !free[2] ==> Chain(0, idx, free, owner, 1, 12, false) == (0, 13)
    ensures !free[3] ==> Chain(0, idx, free, owner, 2, 12, false) == (2, 12)
    ensures FreeAt(idx, free, owner, 2, 12) ==> Chain(0, idx, free, owner, 3, 12, false) == (2, 13)
    ensures FreeAt(idx, free, owner, 2, 12) && FreeAt(idx, free, owner, 0, 13) ==>
      LeftBehind(0, idx, free, owner, 3, 12)
  {
    assert Span(12) == 1 && Span(13) == 2 && Span(14) == 4;
    assert Aligned(0, 1) && Aligned(0, 2) && !Aligned(1, 1) && Aligned(2, 1) && !Aligned(2, 2) && !Aligned(3, 1);
    if FreeAt(idx, free, owner, 0, 12) && !free[2] {
      assert Chain(0, idx, free, owner, 0, 13, true) == (0, 13);
    }
    if FreeAt(idx, free, owner, 2, 12) {
      assert Chain(0, idx, free, owner, 2, 13, true) == (2, 13);
    }
  }

  /** Four pages freed one after the other: two free blocks of two pages remain, buddies that were not joined. */
  method TwoPairs() returns (s: Pages, p: nat)
    ensures s.Valid({}) && s.FreeBlock(0, 13) && s.FreeBlock(2, 13) && p == 2 && s.BuddyFree(p)
  {
    s := new Pages(0, 4);
    assert Span(12) == 1 && Span(13) == 2;
    FourChains(s.idx[..], s.free[..], s.owner);
    p := s.Free(0);
    assert s.FreeBlock(0, 12) && s.idx[..][1] == s.idx[..][2] == s.idx[..][3] == 12;
    FourChains(s.idx[..], s.free[..], s.owner);
    p := s.Free(1);
    assert s.FreeBlock(0, 13) && s.idx[..][2] == s.idx[..][3] == 12;
    FourChains(s.idx[..], s.free[..], s.owner);
    p := s.Free(2);
    assert s.FreeBlock(0, 13) && s.FreeBlock(2, 12) && s.idx[..][3] == 12;
    FourChains(s.idx[..], s.free[..], s.owner);
    p := s.Free(3);
  }
}
