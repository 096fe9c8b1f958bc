/** _map_find (vm/map.c): the backtracking first-fit search over the gap summaries. */
module MapFind {
  import opened GapTree
  import opened RbAugment

  /** Every entry lies inside [start, stop). */
  ghost predicate Bounded(t: Tree)
    reads t`order, t.order`vaddr, t.order`size
  {
    forall i | 0 <= i < |t.order| :: t.start <= t.order[i].vaddr && t.order[i].vaddr + t.order[i].size <= t.stop
  }

  /** A map between calls: a red-black tree with exact summaries over disjoint entries inside [start, stop). */
  ghost predicate Sound(t: Tree)
    reads t`root, t`order, t`nodes, t`gaps, t.order`vaddr, t.order`size, t.nodes`left, t.nodes`right, t.nodes`parent
    reads t.nodes`lo, t.nodes`idx, t.nodes`hi, t.nodes`color, t.nodes`bh, t.nodes`lmaxgap, t.nodes`rmaxgap
  {
    t.RedBlack() && Keyed(t) && t.Disjoint() && Bounded(t) && 0 < t.start <= t.stop < WORD
  }

  /** Gap k begins where entry k-1 ends ... */
  ghost function GapLo(t: Tree, k: int): nat
    requires 0 <= k <= |t.order|
    reads t`order, t.order`vaddr, t.order`size
  {
    if k == 0 then t.start else t.order[k - 1].vaddr + t.order[k - 1].size
  }

  /** ... and ends where entry k begins. */
  ghost function GapHi(t: Tree, k: int): nat
    requires 0 <= k <= |t.order|
    reads t`order, t.order`vaddr
  {
    if k == |t.order| then t.stop else t.order[k].vaddr
  }

  /** size bytes fit in gap k at or above the hint. */
  ghost predicate Fits(t: Tree, hint: nat, size: nat, k: int)
    requires 0 <= k <= |t.order|
    reads t`order, t.order`vaddr, t.order`size
  {
    Max(hint, GapLo(t, k)) + size <= GapHi(t, k)
  }

  /** None of the gaps below number k fits. */
  ghost predicate NoneBelow(t: Tree, hint: nat, size: nat, k: int)
    requires k <= |t.order| + 1
    reads t`order, t.order`vaddr, t.order`size
  {
    forall j {:trigger Fits(t, hint, size, j)} | 0 <= j < k :: !Fits(t, hint, size, j)
  }

  /** [v, v+size) lies inside the map and meets no entry. */
  ghost predicate Room(t: Tree, v: nat, size: nat)
    reads t`order, t.order`vaddr, t.order`size
  {
    && t.start <= v && v + size <= t.stop
    && forall i | 0 <= i < |t.order| :: v + size <= t.order[i].vaddr || t.order[i].vaddr + t.order[i].size <= v
  }

  /** prev and next are the entries on either side of v. */
  ghost predicate Beside(t: Tree, v: nat, size: nat, prev: Entry?, next: Entry?)
    reads t`order, t.order`vaddr, t.order`size
  {
    exists k {:trigger GapLo(t, k)} :: 0 <= k <= |t.order| && GapLo(t, k) <= v && v + size <= GapHi(t, k)
      && prev == (if k == 0 then null else t.order[k - 1]) && next == (if k == |t.order| then null else t.order[k])
  }

  /** v is the lowest place at or above the hint with room for size bytes, or 0 if there is no such place. */
  ghost predicate FirstFit(t: Tree, hint: nat, size: nat, v: nat, prev: Entry?, next: Entry?)
    reads t`order, t.order`vaddr, t.order`size
  {
    && (v == 0 ==> forall w: nat | hint <= w :: !Room(t, w, size))
    && (v != 0 ==>
          && hint <= v && Room(t, v, size) && Beside(t, v, size, prev, next)
          && forall w: nat | hint <= w < v :: !Room(t, w, size))
  }

  lemma GapSpan(t: Tree, k: int)
    requires Sound(t) && 0 <= k <= |t.order|
    ensures |t.gaps| == |t.order| + 1 && GapLo(t, k) <= GapHi(t, k) && t.gaps[k] == GapHi(t, k) - GapLo(t, k)
    ensures t.start <= GapLo(t, k) && GapHi(t, k) <= t.stop
  {
    assert 0 < k < |t.order| ==> Ends(t.order, k - 1, k);
    assert t.gaps[k] == t.GapAt(k);
  }

  lemma GapAbove(t: Tree, j: int, k: int)
    requires Sound(t) && 0 <= j <= k <= |t.order|
    ensures GapLo(t, j) <= GapLo(t, k) && GapHi(t, j) <= GapHi(t, k)
    ensures j < k ==> GapHi(t, j) <= GapLo(t, k)
  {
    if 0 < j { t.Around(j - 1); }
    if j < |t.order| { t.Around(j); }
  }

  /** Whatever range is free lies in one gap. */
  lemma RoomHasGap(t: Tree, w: nat, size: nat) returns (k: int)
    requires Sound(t) && Room(t, w, size)
    ensures 0 <= k <= |t.order| && GapLo(t, k) <= w && w + size <= GapHi(t, k)
  {
    k := 0;
    while k < |t.order| && t.order[k].vaddr + t.order[k].size <= w
      invariant 0 <= k <= |t.order| && GapLo(t, k) <= w
    {
      k := k + 1;
    }
  }

  /** A range inside a gap is free. */
  lemma GapHasRoom(t: Tree, w: nat, size: nat, k: int)
    requires Sound(t) && 0 <= k <= |t.order| && GapLo(t, k) <= w && w + size <= GapHi(t, k)
    ensures Room(t, w, size)
  {
    GapSpan(t, k);
    forall i | 0 <= i < |t.order| ensures w + size <= t.order[i].vaddr || t.order[i].vaddr + t.order[i].size <= w {
      if i < k - 1 { assert Ends(t.order, i, k - 1); }
      if i > k { assert Ends(t.order, k, i); }
    }
  }

  /** The lowest gap that fits gives the lowest address that fits. */
  lemma LowestGap(t: Tree, hint: nat, size: nat, k: int)
    requires Sound(t) && 0 <= k <= |t.order| && NoneBelow(t, hint, size, k) && Fits(t, hint, size, k)
    ensures FirstFit(t, hint, size, Max(hint, GapLo(t, k)),
                     if k == 0 then null else t.order[k - 1], if k == |t.order| then null else t.order[k])
  {
    var v := Max(hint, GapLo(t, k));
    GapSpan(t, k);
    GapHasRoom(t, v, size, k);
    forall w: nat | hint <= w < v ensures !Room(t, w, size) {
      if Room(t, w, size) {
        var j := RoomHasGap(t, w, size);
        if j < k { assert Fits(t, hint, size, j); } else { GapAbove(t, k, j); }
      }
    }
  }

  lemma NoGap(t: Tree, hint: nat, size: nat)
    requires Sound(t) && NoneBelow(t, hint, size, |t.order| + 1)
    ensures forall w: nat | hint <= w :: !Room(t, w, size)
  {
    forall w: nat | hint <= w ensures !Room(t, w, size) {
      if Room(t, w, size) {
        var j := RoomHasGap(t, w, size);
        assert Fits(t, hint, size, j);
      }
    }
  }

  /** A stretch of gaps whose largest is too small has no fit. */
  lemma TooSmall(t: Tree, hint: nat, size: nat, i: int, j: int)
    requires Sound(t) && 0 <= i <= j <= |t.order| && |t.gaps| == |t.order| + 1
    requires MaxGap(t.gaps, i, j) < size && NoneBelow(t, hint, size, i)
    ensures NoneBelow(t, hint, size, j + 1)
  {
    var m := MaxGapOf(t.gaps, i, j);
    forall k | 0 <= k < j + 1 ensures !Fits(t, hint, size, k) {
      if i <= k { GapSpan(t, k); }
    }
  }

  /** Gaps that end before hint + size have no fit. */
  lemma TooLow(t: Tree, hint: nat, size: nat, j: int)
    requires Sound(t) && 0 <= j <= |t.order| && GapHi(t, j) < hint + size
    ensures NoneBelow(t, hint, size, j + 1)
  {
    forall i | 0 <= i < j + 1 ensures !Fits(t, hint, size, i) {
      GapAbove(t, i, j);
    }
  }

  /** No gap is larger than the map. */
  lemma GapBound(t: Tree, i: int, j: int)
    requires Sound(t) && 0 <= i <= j <= |t.order| && |t.gaps| == |t.order| + 1
    ensures MaxGap(t.gaps, i, j) <= t.stop - t.start
  {
    var k := MaxGapOf(t.gaps, i, j);
    GapSpan(t, k);
  }

  /** Where the search stands: gaps below e's slice are ruled out, prev and next flank the slice. */
  ghost predicate Searching(t: Tree, e: Entry, hint: nat, size: nat, prev: Entry?, next: Entry?)
    reads t, t.nodes, t.order
  {
    && e in t.nodes && 0 <= e.lo <= e.idx < e.hi <= |t.order| && NoneBelow(t, hint, size, e.lo)
    && prev == (if e.lo == 0 then null else t.order[e.lo - 1])
    && next == (if e.hi == |t.order| then null else t.order[e.hi])
    && (size <= t.stop - t.start ==> hint + size <= GapHi(t, e.hi))
    && t.start <= hint < WORD
  }

  /** What the summary on the left of e says. */
  lemma LeftFacts(t: Tree, e: Entry)
    requires Sound(t) && e in t.nodes
    ensures 0 <= e.lo <= e.idx < e.hi <= |t.order| && t.order[e.idx] == e && e.lmaxgap <= t.stop - t.start
    ensures e.left == null ==> e.lo == e.idx && e.lmaxgap == GapHi(t, e.idx) - GapLo(t, e.idx)
    ensures e.left != null ==> e.left in t.nodes && e.left.lo == e.lo <= e.left.idx < e.left.hi == e.idx
  {
    assert t.Down(e) && t.Exact(e);
    GapBound(t, e.lo, e.idx);
    GapSpan(t, e.idx);
    if e.left != null { assert t.Down(e.left); }
  }

  /** What the summary on the right of e says. */
  lemma RightFacts(t: Tree, e: Entry)
    requires Sound(t) && e in t.nodes
    ensures 0 <= e.lo <= e.idx < e.hi <= |t.order| && t.order[e.idx] == e && e.rmaxgap <= t.stop - t.start
    ensures e.right == null ==> e.hi == e.idx + 1 && e.rmaxgap == GapHi(t, e.hi) - GapLo(t, e.hi)
    ensures e.right != null ==> e.right in t.nodes && e.idx + 1 == e.right.lo <= e.right.idx < e.right.hi == e.hi
  {
    assert t.Down(e) && t.Exact(e);
    GapBound(t, e.idx + 1, e.hi);
    GapSpan(t, e.hi);
    if e.right != null { assert t.Down(e.right); }
  }

  /** A right side too small for size has no fit. */
  lemma NotRight(t: Tree, e: Entry, hint: nat, size: nat)
    requires Sound(t) && e in t.nodes && e.rmaxgap < size && 0 <= e.idx < e.hi <= |t.order|
    requires NoneBelow(t, hint, size, e.idx + 1)
    ensures NoneBelow(t, hint, size, e.hi + 1)
  {
    assert t.Exact(e);
    TooSmall(t, hint, size, e.idx + 1, e.hi);
  }

  lemma LeftStep(t: Tree, e: Entry, hint: nat, size: nat, prev: Entry?, next: Entry?)
    requires Sound(t) && Searching(t, e, hint, size, prev, next)
    requires size <= e.lmaxgap && (hint + size) % WORD <= e.vaddr
    ensures e.left != null ==> Searching(t, e.left, hint, size, prev, e)
    ensures e.left == null ==> e.lmaxgap <= e.vaddr && FirstFit(t, hint, size, Max(hint, e.vaddr - e.lmaxgap), prev, e)
  {
    LeftFacts(t, e);
    GapSpan(t, e.hi);
    assert (hint + size) % WORD == hint + size;
    if e.left == null {
      LowestGap(t, hint, size, e.idx);
    }
  }

  /** Unless the left side is taken, none of its gaps fits. */
  lemma NotLeft(t: Tree, e: Entry, hint: nat, size: nat, prev: Entry?, next: Entry?)
    requires Sound(t) && Searching(t, e, hint, size, prev, next)
    requires !(size <= e.lmaxgap && (hint + size) % WORD <= e.vaddr)
    ensures NoneBelow(t, hint, size, e.idx + 1)
  {
    if size <= e.lmaxgap {
      LeftFacts(t, e);
      GapSpan(t, e.hi);
      assert (hint + size) % WORD == hint + size;
      TooLow(t, hint, size, e.idx);
    } else {
      assert t.Exact(e);
      TooSmall(t, hint, size, e.lo, e.idx);
    }
  }

  /** Going to the right of e, once the gaps up to e are ruled out and its right side is known to be large enough. */
  lemma RightStep(t: Tree, e: Entry, hint: nat, size: nat, next: Entry?)
    requires Sound(t) && e in t.nodes && size <= e.rmaxgap
    requires t.start <= hint < WORD && 0 < e.hi <= |t.order| && 0 <= e.idx < |t.order|
    requires NoneBelow(t, hint, size, e.idx + 1)
    requires size <= t.stop - t.start ==> hint + size <= GapHi(t, e.hi)
    requires next == (if e.hi == |t.order| then null else t.order[e.hi])
    ensures e.right != null ==> Searching(t, e.right, hint, size, e, next)
    ensures e.right == null ==> FirstFit(t, hint, size, Max(hint, e.vaddr + e.size), e, next)
  {
    RightFacts(t, e);
    if e.right == null {
      LowestGap(t, hint, size, e.hi);
    }
  }

  /** The entry after the slice of e: the first ancestor that has e on its left. */
  method After(t: Tree, e: Entry) returns (next: Entry?)
    requires t.Shape() && e in t.nodes
    ensures 0 < e.hi <= |t.order| && next == if e.hi == |t.order| then null else t.order[e.hi]
  {
    var n := e;
    assert t.Up(n);
    while n.parent != null && n != n.parent.left
      invariant n in t.nodes && n.hi == e.hi && t.Up(n)
      decreases n.lo
    {
      n := n.parent;
      assert t.Up(n) && t.Down(n);
    }
    next := n.parent;
    if n.parent != null { assert t.Down(n.parent); }
  }

  /**
   Climb from e, whose slice is ruled out, to the first ancestor that has it on the left
   and a large enough gap on the right.
   */
  method Climb(t: Tree, e0: Entry, hint: nat, size: nat) returns (e: Entry?)
    requires Sound(t) && e0 in t.nodes && 0 <= e0.lo < e0.hi <= |t.order| && NoneBelow(t, hint, size, e0.hi + 1)
    requires t.start <= hint
    requires size <= t.stop - t.start ==> hint + size <= GapHi(t, e0.hi)
    ensures e == null ==> NoneBelow(t, hint, size, |t.order| + 1)
    ensures e != null ==>
      e in t.nodes && size <= e.rmaxgap && 0 <= e0.hi <= e.idx < e.hi <= |t.order|
      && NoneBelow(t, hint, size, e.idx + 1)
    ensures e != null && size <= t.stop - t.start ==> hint + size <= e.vaddr && hint + size <= GapHi(t, e.hi)
  {
    e := e0;
    assert t.Up(e);
    while true
      invariant e != null && e in t.nodes && t.Up(e) && e0.hi <= e.hi && NoneBelow(t, hint, size, e.hi + 1)
      invariant size <= t.stop - t.start ==> hint + size <= GapHi(t, e.hi)
      decreases |t.order| - (e.hi - e.lo)
    {
      if e.parent == null {
        return null;
      }
      var p := e.parent;
      assert t.Up(p) && t.Down(p);
      GapAbove(t, e.hi, p.hi);
      if e == p.left {
        if p.rmaxgap >= size {
          return p;
        }
        NotRight(t, p, hint, size);
      }
      e := p;
    }
  }

  /** Raising the hint to start changes nothing. */
  lemma Raised(t: Tree, hint: nat, size: nat, v: nat, prev: Entry?, next: Entry?)
    requires FirstFit(t, Max(hint, t.start), size, v, prev, next)
    ensures FirstFit(t, hint, size, v, prev, next)
  {
    forall w: nat | hint <= w < t.start ensures !Room(t, w, size) {
    }
  }

  /** With stop - size below the hint there is no room, even when stop - size wraps around. */
  lemma PastTheEnd(t: Tree, hint: nat, size: nat)
    requires Sound(t) && size < WORD && (t.stop - size) % WORD < hint
    ensures FirstFit(t, hint, size, 0, null, null)
  {
    forall w: nat | hint <= w ensures !Room(t, w, size) {
      if size <= t.stop { assert (t.stop - size) % WORD == t.stop - size; }
    }
  }

  /** p and next are where the search may resume, e's slice being ruled out. */
  ghost predicate Resumes(t: Tree, e: Entry, hint: nat, size: nat, p: Entry?, next: Entry?)
    requires e.hi <= |t.order|
    reads t, t.nodes, t.order, e
  {
    && (p == null ==> NoneBelow(t, hint, size, |t.order| + 1))
    && (p != null ==>
          && p in t.nodes && size <= p.rmaxgap && e.hi <= p.idx < p.hi <= |t.order| && 0 <= p.idx
            && NoneBelow(t, hint, size, p.idx + 1)
          && (size <= t.stop - t.start ==> hint + size <= p.vaddr && hint + size <= GapHi(t, p.hi))
          && next == (if p.hi == |t.order| then null else t.order[p.hi]))
  }

  lemma Resume(t: Tree, e: Entry, p: Entry?, hint: nat, size: nat, next: Entry?)
    requires Sound(t) && e in t.nodes && 0 <= e.lo < e.hi <= |t.order| && t.start <= hint < WORD
    requires Resumes(t, e, hint, size, p, next)
    ensures p == null ==> FirstFit(t, hint, size, 0, null, null)
    ensures p != null && p.right != null ==> Searching(t, p.right, hint, size, p, next) && e.lo < p.right.lo
    ensures p != null && p.right == null ==> FirstFit(t, hint, size, p.vaddr + p.size, p, next)
  {
    if p == null {
      NoGap(t, hint, size);
    } else {
      RightFacts(t, p);
      RightStep(t, p, hint, size, next);
    }
  }

  /** Nothing at or below e fits: the search goes on to the right of an ancestor, or there is no room at all. */
  method Backtrack(t: Tree, e: Entry, hint: nat, size: nat) returns (p: Entry?, next: Entry?)
    requires Sound(t) && e in t.nodes && 0 <= e.lo < e.hi <= |t.order| && NoneBelow(t, hint, size, e.hi + 1)
    requires t.start <= hint
    requires size <= t.stop - t.start ==> hint + size <= GapHi(t, e.hi)
    ensures Resumes(t, e, hint, size, p, next)
  {
    next := null;
    p := Climb(t, e, hint, size);
    if p != null {
      next := After(t, p);
    }
  }

  method Retreat(t: Tree, e: Entry, hint: nat, size: nat) returns (p: Entry?, next: Entry?)
    requires Sound(t) && e in t.nodes && 0 <= e.lo < e.hi <= |t.order| && NoneBelow(t, hint, size, e.hi + 1)
    requires t.start <= hint < WORD
    requires size <= t.stop - t.start ==> hint + size <= GapHi(t, e.hi)
    ensures p == null ==> FirstFit(t, hint, size, 0, null, null)
    ensures p != null && p.right != null ==> Searching(t, p.right, hint, size, p, next) && e.lo < p.right.lo
    ensures p != null && p.right == null ==> FirstFit(t, hint, size, p.vaddr + p.size, p, next)
  {
    p, next := Backtrack(t, e, hint, size);
    Resume(t, e, p, hint, size, next);
  }

  /** The loop of _map_find, on a tree that is not empty. */
  method Search(t: Tree, vaddr: nat, size: nat) returns (v: nat, prev: Entry?, next: Entry?)
    requires Sound(t) && t.root != null && t.start <= vaddr < WORD
    requires (size <= t.stop - t.start ==> vaddr + size <= t.stop)
    ensures FirstFit(t, vaddr, size, v, prev, next)
  {
    var e: Entry := t.root;
    prev, next := null, null;
    assert t.Up(e);
    while true
      invariant Searching(t, e, vaddr, size, prev, next)
      decreases |t.order| - e.lo, e.hi
    {
      if size <= e.lmaxgap && (vaddr + size) % WORD <= e.vaddr {
        LeftFacts(t, e);
        LeftStep(t, e, vaddr, size, prev, next);
        next := e;
        if e.left == null {
          return Max(vaddr, e.vaddr - e.lmaxgap), prev, next;
        }
        e := e.left;
        continue;
      }
      NotLeft(t, e, vaddr, size, prev, next);
      RightFacts(t, e);
      if size <= e.rmaxgap {
        RightStep(t, e, vaddr, size, next);
        prev := e;
        if e.right == null {
          return Max(vaddr, e.vaddr + e.size), prev, next;
        }
        e := e.right;
        continue;
      }
      NotRight(t, e, vaddr, size);
      var p;
      p, next := Retreat(t, e, vaddr, size);
      if p == null {
        return 0, prev, next;
      }
      prev := p;
      if p.right == null {
        return p.vaddr + p.size, prev, next;
      }
      e := p.right;
    }
  }

  /**
   _map_find.  The test against stop comes before the hint is raised to start, and an empty
   tree is not tested again: that is the only case in which the answer is not the first fit.
   */
  method Find(t: Tree, hint: nat, size: nat) returns (v: nat, prev: Entry?, next: Entry?)
    requires Sound(t) && hint < WORD && size < WORD
    ensures t.root != null || size <= t.stop - t.start || (t.stop - size) % WORD < hint ==>
      FirstFit(t, hint, size, v, prev, next)
    ensures !(t.root != null || size <= t.stop - t.start || (t.stop - size) % WORD < hint) ==>
      v == Max(hint, t.start) && !Room(t, v, size) && prev == next == null
  {
    if (t.stop - size) % WORD < hint {
      PastTheEnd(t, hint, size);
      return 0, null, null;
    }
    var vaddr := if hint < t.start then t.start else hint;
    if size <= t.stop - t.start {
      assert (t.stop - size) % WORD == t.stop - size;
    }
    if t.root == null {
      if size <= t.stop - t.start {
        LowestGap(t, vaddr, size, 0);
        Raised(t, hint, size, vaddr, null, null);
      }
      return vaddr, null, null;
    }
    v, prev, next := Search(t, vaddr, size);
    Raised(t, hint, size, v, prev, next);
  }

  /** An empty map of one page, asked for two: the answer is not NULL. */
  method TooLarge() returns (t: Tree, v: nat)
    ensures t.start == 0x1000 && t.stop == 0x2000 && v == 0x1000 && !Room(t, v, 0x2000)
  {
    t := new Tree(0x1000, 0x2000);
    var prev, next;
    v, prev, next := Find(t, 0, 0x2000);
  }
}
