/** The free lists of vm/page.c: which pages are on which list, and how many pages are free. */
module BuddyLists {
  import opened Buddy
  import opened Lists

  const LISTS: nat := 32

  /** h begins a free block of size 2^k that is not in hand. */
  ghost predicate OnList(idx: seq<nat>, free: seq<bool>, owner: seq<nat>, held: set<nat>, k: nat, h: nat)
    requires |idx| == |free| == |owner|
  {
    h < |owner| && owner[h] == h && free[h] && idx[h] == k && h !in held
  }

  /** Each list holds exactly the free blocks of its size, once each, but for those in hand. */
  ghost predicate Listing(sizes: seq<seq<nat>>, idx: seq<nat>, free: seq<bool>, owner: seq<nat>, held: set<nat>)
  {
    && |idx| == |free| == |owner| && |sizes| == LISTS
    && (forall k | 0 <= k < LISTS :: Distinct(sizes[k]))
    && (forall k, h {:trigger h in sizes[k]} {:trigger OnList(idx, free, owner, held, k, h)} | 0 <= k < LISTS ::
          h in sizes[k] <==> OnList(idx, free, owner, held, k, h))
  }

  lemma ListAdd(sizes: seq<seq<nat>>, idx: seq<nat>, free: seq<bool>, owner: seq<nat>, held: set<nat>, p: nat)
    requires Listing(sizes, idx, free, owner, held) && p in held && p < |owner| && owner[p] == p && free[p]
    requires idx[p] < LISTS
    ensures Listing(sizes[idx[p] := sizes[idx[p]] + [p]], idx, free, owner, held - {p})
  {
    assert p !in sizes[idx[p]];
    var s' := sizes[idx[p] := sizes[idx[p]] + [p]];
    forall k, h | 0 <= k < LISTS ensures h in s'[k] <==> OnList(idx, free, owner, held - {p}, k, h) {
      assert h in sizes[k] <==> OnList(idx, free, owner, held, k, h);
    }
  }

  lemma ListRemove(sizes: seq<seq<nat>>, idx: seq<nat>, free: seq<bool>, owner: seq<nat>, held: set<nat>, k: nat,
      p: nat)
    requires Listing(sizes, idx, free, owner, held) && k < LISTS && p in sizes[k]
    ensures Listing(sizes[k := Without(sizes[k], p)], idx, free, owner, held + {p})
    ensures OnList(idx, free, owner, held, k, p)
  {
    WithoutAll(sizes[k], p);
    var s' := sizes[k := Without(sizes[k], p)];
    forall j, h | 0 <= j < LISTS ensures h in s'[j] <==> OnList(idx, free, owner, held + {p}, j, h) {
      assert h in sizes[j] <==> OnList(idx, free, owner, held, j, h);
    }
  }

  /** A block in hand is split: both halves are in hand. */
  lemma ListSplit(sizes: seq<seq<nat>>, idx: seq<nat>, free: seq<bool>, owner: seq<nat>, h: nat, r: nat, x: nat)
    requires Listing(sizes, idx, free, owner, {h}) && h < r < |owner| && owner[r] == h
    ensures Listing(sizes, idx[h := x][r := x], free, Hand(owner, r, r + Span(x), r), {h, r})
    requires forall j | r <= j < r + Span(x) && j < |owner| :: owner[j] == h
  {
    var idx', owner' := idx[h := x][r := x], Hand(owner, r, r + Span(x), r);
    forall k, g | 0 <= k < LISTS ensures g in sizes[k] <==> OnList(idx', free, owner', {h, r}, k, g) {
      assert g in sizes[k] <==> OnList(idx, free, owner, {h}, k, g);
    }
  }

  /** Two blocks in hand are joined. */
  lemma ListMerge(sizes: seq<seq<nat>>, idx: seq<nat>, free: seq<bool>, owner: seq<nat>, l: nat, r: nat, x: nat)
    requires Listing(sizes, idx, free, owner, {l, r}) && l < r < |owner| && owner[r] == r && owner[l] == l
    requires Span(x) > 0
    requires forall j | r <= j < r + Span(x) && j < |owner| :: owner[j] == r
    ensures Listing(sizes, idx[r := SHIFT][l := x + 1], free, Hand(owner, r, r + Span(x), l), {l})
  {
    var idx', owner' := idx[r := SHIFT][l := x + 1], Hand(owner, r, r + Span(x), l);
    forall k, g | 0 <= k < LISTS ensures g in sizes[k] <==> OnList(idx', free, owner', {l}, k, g) {
      assert g in sizes[k] <==> OnList(idx, free, owner, {l, r}, k, g);
    }
  }

  /** Every page of a block is free, or none is. */
  ghost predicate Uniform(free: seq<bool>, owner: seq<nat>) {
    |free| == |owner| && forall i | 0 <= i < |owner| :: owner[i] < |owner| && free[i] == free[owner[i]]
  }

  /** Handing pages to a page of their colour keeps blocks of one colour. */
  lemma HandUniform(free: seq<bool>, owner: seq<nat>, a: nat, b: nat, h: nat, to: nat)
    requires |free| == |owner| && Uniform(free, owner) && b <= |owner| && to < |owner| && h < |owner|
    requires free[to] == free[h] && forall j | a <= j < b :: owner[j] == h
    ensures Uniform(free, Hand(owner, a, b, to))
  {
    var now := Hand(owner, a, b, to);
    forall j | 0 <= j < |now| ensures now[j] < |now| && free[j] == free[now[j]] {
      assert free[j] == free[owner[j]];
    }
  }

  /** All that a split keeps. */
  lemma SplitKept(base: nat, sizes: seq<seq<nat>>, idx: seq<nat>, free: seq<bool>, owner: seq<nat>, h: nat, r: nat)
    requires Tiled(base, idx, owner) && Uniform(free, owner) && Listing(sizes, idx, free, owner, {h})
    requires h < |owner| && owner[h] == h && SHIFT < idx[h] && r == h + Span(idx[h] - 1)
    ensures h < r < |owner| && free[r] == free[h]
    ensures var x := idx[h] - 1;
      var idx', owner' := idx[h := x][r := x], Hand(owner, r, r + Span(x), r);
      && Tiled(base, idx', owner') && Uniform(free, owner') && Listing(sizes, idx', free, owner', {h, r})
      && Alike(owner, idx, owner', idx', h, h + Span(x + 1))
  {
    var x := idx[h] - 1;
    SplitHalves(base, idx, owner, h, r);
    SplitTiled(base, idx, owner, h, r);
    assert owner[r] == h;
    ListSplit(sizes, idx, free, owner, h, r, x);
    HandUniform(free, owner, r, r + Span(x), h, r);
    SplitAlike(idx[h := x][r := x], Hand(owner, r, r + Span(x), r), idx, owner, h, r, x);
  }

  ghost function Count(free: seq<bool>): nat {
    if free == [] then 0 else Count(free[..|free| - 1]) + if free[|free| - 1] then 1 else 0
  }

  lemma {:induction false} CountBound(free: seq<bool>)
    ensures Count(free) <= |free|
  {
    if free != [] { CountBound(free[..|free| - 1]); }
  }

  /** Flipping one page changes the count by one. */
  lemma {:induction false} CountFlip(free: seq<bool>, i: nat)
    requires i < |free|
    ensures Count(free[i := true]) == Count(free) + if free[i] then 0 else 1
    ensures Count(free[i := false]) == Count(free) - if free[i] then 1 else 0
  {
    var n := |free| - 1;
    if i < n {
      CountFlip(free[..n], i);
      assert free[i := true][..n] == free[..n][i := true];
      assert free[i := false][..n] == free[..n][i := false];
    } else {
      assert free[i := true][..n] == free[..n] && free[i := false][..n] == free[..n];
    }
  }
}
