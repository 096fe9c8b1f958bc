/**
 The id allocators of proc/resource.c, proc/process.c and proc/threads.c.  Their trees are gap trees
 whose entries are one id long; what they keep of a summary is one bit, whether it is positive.
 */
module IdSearch {
  import opened GapTree
  import opened RbAugment

  /** MAX_PID and MAX_TID. */
  const MAX_ID: nat := 0x7fff_ffff

  /** A red-black tree of ids, with exact summaries; 0 is not an id. */
  ghost predicate Ids(t: Tree)
    reads t`root, t`order, t`nodes, t`gaps, t.order`vaddr, t.order`size, t.nodes`left, t.nodes`right, t.nodes`parent
    reads t.nodes`lo, t.nodes`idx, t.nodes`hi, t.nodes`color, t.nodes`bh, t.nodes`lmaxgap, t.nodes`rmaxgap
  {
    && t.RedBlack() && Keyed(t) && t.Disjoint() && t.start == 0 && t.stop == MAX_ID
    && forall i | 0 <= i < |t.order| :: 0 < t.order[i].vaddr <= MAX_ID && t.order[i].size == 1
  }

  ghost predicate Used(t: Tree, id: nat)
    reads t`order, t.order`vaddr
  {
    exists i :: 0 <= i < |t.order| && t.order[i].vaddr == id
  }

  /** The ids of gap k begin here ... */
  ghost function IdLo(t: Tree, k: int): nat
    requires 0 <= k <= |t.order|
    reads t`order, t.order`vaddr
  {
    if k == 0 then 0 else t.order[k - 1].vaddr + 1
  }

  /**
   Gap k has an id at or above the one asked for.  The last gap counts if its size is not zero, even if that
   is because it wrapped around.
   */
  ghost predicate Offers(t: Tree, id: nat, k: int)
    requires 0 <= k <= |t.order|
    reads t`order, t.order`vaddr
  {
    if k == |t.order| then IdLo(t, k) != MAX_ID else Max(id, IdLo(t, k)) < t.order[k].vaddr
  }

  ghost predicate NoOffer(t: Tree, id: nat, k: int)
    requires k <= |t.order| + 1
    reads t`order, t.order`vaddr
  {
    forall j {:trigger Offers(t, id, j)} | 0 <= j < k :: !Offers(t, id, j)
  }

  /** What the size of a gap says. */
  lemma IdGap(t: Tree, k: int)
    requires Ids(t) && 0 <= k <= |t.order|
    ensures |t.gaps| == |t.order| + 1
    ensures k < |t.order| ==> IdLo(t, k) <= t.order[k].vaddr && t.gaps[k] == t.order[k].vaddr - IdLo(t, k)
    ensures k == |t.order| ==> (t.gaps[k] == 0 <==> IdLo(t, k) == MAX_ID)
  {
    assert 0 < k < |t.order| ==> Ends(t.order, k - 1, k);
    assert t.gaps[k] == t.GapAt(k);
  }

  /** A stretch of empty gaps offers nothing. */
  lemma AllEmpty(t: Tree, id: nat, i: int, j: int)
    requires Ids(t) && 0 <= i <= j <= |t.order| && |t.gaps| == |t.order| + 1 && MaxGap(t.gaps, i, j) == 0
    requires NoOffer(t, id, i)
    ensures NoOffer(t, id, j + 1)
  {
    var m := MaxGapOf(t.gaps, i, j);
    forall k | 0 <= k < j + 1 ensures !Offers(t, id, k) {
      if i <= k { IdGap(t, k); }
    }
  }

  /** Nor do gaps below the id asked for. */
  lemma AllBelow(t: Tree, id: nat, j: int)
    requires Ids(t) && 0 <= j < |t.order| && t.order[j].vaddr <= id
    ensures NoOffer(t, id, j + 1)
  {
    forall k | 0 <= k < j + 1 ensures !Offers(t, id, k) {
      if k < j { assert Starts(t.order, k, j); }
    }
  }

  /** Where the search stands at r. */
  ghost predicate Seeking(t: Tree, r: Entry, id: nat)
    reads t`order, t`nodes, t.order`vaddr, t.nodes`lo, t.nodes`hi, t.nodes`idx
  {
    && r in t.nodes && 0 <= r.lo <= r.idx < r.hi <= |t.order| && NoOffer(t, id, r.lo)
    && (r.hi < |t.order| ==> id < t.order[r.hi].vaddr)
  }

  lemma Left(t: Tree, r: Entry, id: nat)
    requires Ids(t) && Seeking(t, r, id) && r.lmaxgap > 0 && id < r.vaddr
    ensures r.left != null ==> Seeking(t, r.left, id) && r.left.lo == r.lo && r.left.hi < r.hi
    ensures r.left == null ==> !Used(t, r.vaddr - 1) && FirstGap(t, id, r.lo, r.vaddr - 1)
  {
    assert t.Down(r) && t.Exact(r);
    if r.left != null {
      assert t.Down(r.left);
    } else {
      IdGap(t, r.idx);
      t.Around(r.idx);
      forall i | 0 <= i < |t.order| ensures t.order[i].vaddr != r.vaddr - 1 {
        if i < r.idx - 1 { assert Starts(t.order, i, r.idx - 1); }
      }
    }
  }

  lemma NotLeft(t: Tree, r: Entry, id: nat)
    requires Ids(t) && Seeking(t, r, id) && !(r.lmaxgap > 0 && id < r.vaddr)
    ensures NoOffer(t, id, r.idx + 1)
  {
    assert t.Down(r) && t.Exact(r);
    if id < r.vaddr {
      AllEmpty(t, id, r.lo, r.idx);
    } else {
      AllBelow(t, id, r.idx);
    }
  }

  lemma NotRight(t: Tree, r: Entry, id: nat)
    requires Ids(t) && r in t.nodes && r.rmaxgap == 0 && 0 <= r.idx < r.hi <= |t.order| && NoOffer(t, id, r.idx + 1)
    ensures NoOffer(t, id, r.hi + 1)
  {
    assert t.Exact(r);
    AllEmpty(t, id, r.idx + 1, r.hi);
  }

  /** To the right of r: either on, or the answer is at hand. */
  lemma Right(t: Tree, r: Entry, id: nat)
    requires Ids(t) && r in t.nodes && r.rmaxgap > 0 && 0 <= r.idx < r.hi <= |t.order| && NoOffer(t, id, r.idx + 1)
    requires r.hi < |t.order| ==> id < t.order[r.hi].vaddr
    ensures r.right != null ==> Seeking(t, r.right, id) && r.right.lo == r.idx + 1
    ensures r.right == null ==> !Used(t, Max(id, r.vaddr + 1)) && r.hi == r.idx + 1
    ensures r.right == null ==> FirstGap(t, id, r.idx + 1, Max(id, r.vaddr + 1))
    ensures r.right == null && Max(id, r.vaddr + 1) == MAX_ID ==> !Used(t, MAX_ID - 1)
  {
    assert t.Down(r) && t.Exact(r);
    if r.right != null {
      assert t.Down(r.right);
    } else {
      IdGap(t, r.hi);
      t.Around(r.idx);
      forall i | 0 <= i < |t.order| ensures t.order[i].vaddr != Max(id, r.vaddr + 1) {
        if r.hi < i { assert Starts(t.order, r.hi, i); }
      }
      if Max(id, r.vaddr + 1) == MAX_ID {
        assert r.hi == |t.order|;
        forall i | 0 <= i < |t.order| ensures t.order[i].vaddr != MAX_ID - 1 {}
      }
    }
  }

  /** If no gap below number k offers anything, every id from the one asked for up to entry k-1 is used. */
  lemma AllUsed(t: Tree, id: nat, k: int, w: nat)
    requires Ids(t) && 0 < k <= |t.order| && NoOffer(t, id, k) && id <= w <= t.order[k - 1].vaddr
    ensures Used(t, w)
  {
    var j := 0;
    while t.order[j].vaddr < w
      invariant 0 <= j < k && (0 < j ==> t.order[j - 1].vaddr < w)
      decreases k - j
    {
      j := j + 1;
    }
    assert !Offers(t, id, j);
  }

  /** Every id from lo up to, but not including, hi is used. */
  ghost predicate Full(t: Tree, lo: nat, hi: nat)
    reads t`order, t.order`vaddr
  {
    forall w: nat | lo <= w < hi :: Used(t, w)
  }

  /** From lo on the only id left is the last one, and the one before it is used. */
  ghost predicate OnlyLast(t: Tree, lo: nat)
    reads t`order, t.order`vaddr
  {
    Full(t, lo, MAX_ID) && Used(t, MAX_ID - 1) && !Used(t, MAX_ID)
  }

  /** x is the first or the last id of gap k from the one asked for on, and no gap before offers any. */
  ghost predicate FirstGap(t: Tree, id: nat, k: int, x: nat)
    reads t`order, t.order`vaddr
  {
    && 0 <= k <= |t.order| && NoOffer(t, id, k) && (k < |t.order| ==> x < t.order[k].vaddr)
    && Max(id, IdLo(t, k)) <= x && (x == Max(id, IdLo(t, k)) || (k < |t.order| && x == t.order[k].vaddr - 1))
  }

  ghost predicate Nearest(t: Tree, id: nat, x: nat)
    reads t`order, t.order`vaddr
  {
    exists k {:trigger FirstGap(t, id, k, x)} :: FirstGap(t, id, k, x)
  }

  /** Then everything from the id asked for up to that gap is used. */
  lemma UsedBefore(t: Tree, id: nat, k: int, x: nat)
    requires Ids(t) && FirstGap(t, id, k, x)
    ensures Full(t, id, IdLo(t, k))
  {
    forall w: nat | id <= w < IdLo(t, k) ensures Used(t, w) { AllUsed(t, id, k, w); }
  }

  /**
   What the search promises: an unused id at or above the one asked for, at an end of the nearest gap.  It lies
   beyond the range exactly if nothing is left in range, and 0 comes back exactly if what is left is the last id
   behind a used one.
   */
  ghost predicate Answer(t: Tree, id: nat, x: nat)
    reads t`order, t.order`vaddr
  {
    && (x == 0 <==> OnlyLast(t, id))
    && (x != 0 ==> id <= x && !Used(t, x) && Nearest(t, id, x))
    && (x > MAX_ID <==> Full(t, id, MAX_ID + 1))
  }

  lemma Found(t: Tree, id: nat, k: int, x: nat)
    requires Ids(t) && 0 < id <= MAX_ID && 0 <= k <= |t.order| && FirstGap(t, id, k, x) && !Used(t, x)
    requires x > MAX_ID ==> 0 < k && t.order[k - 1].vaddr == MAX_ID
    requires x == MAX_ID ==> !Used(t, MAX_ID - 1)
    ensures Answer(t, id, x)
  {
    if x > MAX_ID {
      forall w: nat | id <= w < MAX_ID + 1 ensures Used(t, w) { AllUsed(t, id, k, w); }
    }
  }

  lemma NoneLeft(t: Tree, id: nat)
    requires Ids(t) && 0 < id <= MAX_ID && NoOffer(t, id, |t.order| + 1)
    ensures Answer(t, id, 0)
  {
    assert !Offers(t, id, |t.order|);
    var n := |t.order|;
    forall w: nat | id <= w < MAX_ID ensures Used(t, w) { AllUsed(t, id, n, w); }
    assert t.order[n - 1].vaddr == MAX_ID - 1;
    forall i | 0 <= i < n ensures t.order[i].vaddr != MAX_ID {
      if i < n - 1 { assert Starts(t.order, i, n - 1); }
    }
    assert !Used(t, MAX_ID);
  }

  lemma EmptyAnswer(t: Tree, id: nat)
    requires Ids(t) && 0 < id <= MAX_ID && t.root == null
    ensures Answer(t, id, id)
  {
    assert !Used(t, id) && FirstGap(t, id, 0, id);
    Found(t, id, 0, id);
  }

  method Climb(t: Tree, r0: Entry, id: nat) returns (r: Entry?)
    requires Ids(t) && r0 in t.nodes && 0 <= r0.lo < r0.hi <= |t.order| && NoOffer(t, id, r0.hi + 1)
    requires r0.hi < |t.order| ==> id < t.order[r0.hi].vaddr
    ensures r == null ==> NoOffer(t, id, |t.order| + 1)
    ensures r != null ==>
      r in t.nodes && r.rmaxgap > 0 && r0.lo < r.idx < r.hi <= |t.order| && NoOffer(t, id, r.idx + 1) && id < r.vaddr
    ensures r != null && r.hi < |t.order| ==> id < t.order[r.hi].vaddr
  {
    r := r0;
    assert t.Up(r);
    while true
      invariant r != null && r in t.nodes && t.Up(r) && r0.hi <= r.hi && r.lo <= r0.lo && NoOffer(t, id, r.hi + 1)
      invariant r.hi < |t.order| ==> id < t.order[r.hi].vaddr
      decreases |t.order| - (r.hi - r.lo)
    {
      if r.parent == null {
        return null;
      }
      var p := r.parent;
      assert t.Up(p) && t.Down(p);
      if r == p.left {
        assert p.hi < |t.order| ==> Starts(t.order, p.idx, p.hi);
        if p.rmaxgap > 0 {
          return p;
        }
        NotRight(t, p, id);
      }
      r := p;
    }
  }

  lemma GoLeft(t: Tree, r: Entry, id: nat)
    requires Ids(t) && 0 < id <= MAX_ID && Seeking(t, r, id) && r.lmaxgap > 0 && id < r.vaddr
    ensures r.left != null ==> Seeking(t, r.left, id) && r.left.lo == r.lo && r.left.hi < r.hi
    ensures r.left == null ==> Answer(t, id, Max(id, r.vaddr - 1))
  {
    Left(t, r, id);
    assert t.Down(r);
    if r.left == null { Found(t, id, r.lo, r.vaddr - 1); }
  }

  lemma GoRight(t: Tree, r: Entry, id: nat)
    requires Ids(t) && 0 < id <= MAX_ID && r in t.nodes && r.rmaxgap > 0 && 0 <= r.idx < r.hi <= |t.order|
    requires NoOffer(t, id, r.idx + 1)
    requires r.hi < |t.order| ==> id < t.order[r.hi].vaddr
    ensures r.right != null ==> Seeking(t, r.right, id) && r.right.lo == r.idx + 1
    ensures r.right == null ==> Answer(t, id, Max(id, r.vaddr + 1))
  {
    Right(t, r, id);
    assert t.Down(r);
    if r.right == null { Found(t, id, r.idx + 1, Max(id, r.vaddr + 1)); }
  }

  /** Nothing at or below r: the search goes on to the right of an ancestor, or there is no id left. */
  method Backtrack(t: Tree, r: Entry, id: nat) returns (p: Entry?)
    requires Ids(t) && 0 < id <= MAX_ID && Seeking(t, r, id) && NoOffer(t, id, r.idx + 1) && r.rmaxgap == 0
    ensures p == null ==> Answer(t, id, 0)
    ensures p != null && p.right != null ==> Seeking(t, p.right, id) && r.lo < p.right.lo
    ensures p != null && p.right == null ==> Answer(t, id, p.vaddr + 1)
  {
    NotRight(t, r, id);
    p := Climb(t, r, id);
    if p == null {
      NoneLeft(t, id);
    } else {
      GoRight(t, p, id);
    }
  }

  /** _resource_alloc, _process_alloc and _thread_alloc. */
  method Alloc(t: Tree, id: nat) returns (x: nat)
    requires Ids(t) && 0 < id <= MAX_ID
    ensures Answer(t, id, x)
  {
    if t.root == null {
      EmptyAnswer(t, id);
      return id;
    }
    var r: Entry := t.root;
    assert t.Up(r);
    while true
      invariant Seeking(t, r, id)
      decreases |t.order| - r.lo, r.hi
    {
      if r.lmaxgap > 0 && id < r.vaddr {
        GoLeft(t, r, id);
        if r.left == null {
          return Max(id, r.vaddr - 1);
        }
        r := r.left;
        continue;
      }
      NotLeft(t, r, id);
      if r.rmaxgap > 0 {
        GoRight(t, r, id);
        if r.right == null {
          return Max(id, r.vaddr + 1);
        }
        r := r.right;
        continue;
      }
      var p := Backtrack(t, r, id);
      if p == null {
        return 0;
      }
      if p.right == null {
        return p.vaddr + 1;
      }
      r := p.right;
    }
  }
}
