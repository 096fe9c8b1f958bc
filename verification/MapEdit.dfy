/** The steps by which _map_map and _vm_munmap (vm/map.c) move the edges of entries. */
module MapEdit {
  import opened GapTree
  import opened RbAugment
  import opened MapFind
  import opened MapTouch

  /** The entry after e, and the entry before it. */
  ghost function Follower(t: Tree, e: Entry): Entry?
    reads t`order, e`idx
  {
    if 0 <= e.idx + 1 < |t.order| then t.order[e.idx + 1] else null
  }

  ghost function Leader(t: Tree, e: Entry): Entry?
    reads t`order, e`idx
  {
    if 0 < e.idx <= |t.order| then t.order[e.idx - 1] else null
  }

  /** Gap k has a new size: the gap list is brought up to date. */
  ghost method Regap(t: Tree, k: int)
    requires t.Shape() && 0 <= k <= |t.order| && |t.gaps| == |t.order| + 1 && t.ExactOffGaps(k, k)
    requires forall j | 0 <= j <= |t.order| && j != k :: t.gaps[j] == t.GapAt(j)
    modifies t`gaps
    ensures t.GapsMatch() && t.ExactOffGaps(k, k)
  {
    t.gaps := t.gaps[k := t.GapAt(k)];
    forall m | m in t.nodes ensures t.GapExact(m, k, k) {
      assert old(t.GapExact(m, k, k));
      assert t.Down(m);
      Regapped(t, k, m, old(t.gaps));
    }
  }

  /** The summaries that do not look at gap k are as exact as before. */
  lemma Regapped(t: Tree, k: int, m: Entry, was: seq<nat>)
    requires 0 <= m.lo <= m.idx < m.hi < |t.gaps| == |was| && 0 <= k < |was| && t.gaps == was[k := t.gaps[k]]
    ensures !(m.lo <= k <= m.idx) ==> MaxGap(t.gaps, m.lo, m.idx) == MaxGap(was, m.lo, m.idx)
    ensures !(m.idx < k <= m.hi) ==> MaxGap(t.gaps, m.idx + 1, m.hi) == MaxGap(was, m.idx + 1, m.hi)
  {
    if !(m.lo <= k <= m.idx) { MaxGapSame(t.gaps, m.lo, m.idx, was, 0); }
    if !(m.idx < k <= m.hi) { MaxGapSame(t.gaps, m.idx + 1, m.hi, was, 0); }
  }

  /** One of the two entries beside a gap sees it directly. */
  lemma Held(t: Tree, k: int)
    requires t.Shape() && 0 <= k <= |t.order| && t.root != null
    ensures (k > 0 && t.Holds(t.order[k - 1], k)) || (k < |t.order| && t.Holds(t.order[k], k))
  {
    assert t.Up(t.root);
    if k == 0 { t.LeftEnd(t.root); } else if k == |t.order| { t.RightEnd(t.root); } else { t.Neighbours(t.root, k); }
  }

  /** The entries beside gap k are augmented, the later one first. */
  method TouchBoth(t: Tree, first: Entry?, second: Entry, ghost k: int)
    requires t.Shape() && Keyed(t) && t.ExactOffGaps(k, k) && second in t.nodes
    requires (k == second.idx || k == second.idx + 1)
    requires first != null ==> first in t.nodes && (k == first.idx || k == first.idx + 1)
    requires t.Holds(second, k) || (first != null && t.Holds(first, k))
    modifies t.nodes`lmaxgap, t.nodes`rmaxgap
    ensures t.Exacts()
  {
    if first != null {
      Touch(t, first, k);
    }
    Touch(t, second, k);
  }

  /** Entry i now runs from v to v + size, still between its neighbours. */
  twostate predicate Redrawn(t: Tree, e: Entry, new v: nat, new size: nat)
    reads t, t.nodes, t.order
  {
    && e in t.nodes && t.nodes == old(t.nodes) && t.order == old(t.order) && t.gaps == old(t.gaps)
    && 0 <= e.idx < |t.order| && t.order[e.idx] == e && e.vaddr == v && e.size == size && size > 0
    && (if e.idx == 0 then t.start else t.order[e.idx - 1].vaddr + t.order[e.idx - 1].size) <= v
    && v + size <= (if e.idx + 1 == |t.order| then t.stop else t.order[e.idx + 1].vaddr)
    && forall i | 0 <= i < |t.order| && i != e.idx ::
      t.order[i].vaddr == old(t.order[i].vaddr) && t.order[i].size == old(t.order[i].size)
  }

  /** Order, disjointness and bounds survive. */
  twostate lemma RedrawnApart(t: Tree, new e: Entry, new v: nat, new size: nat)
    requires e in old(t.nodes) && old(t.Disjoint()) && old(Bounded(t)) && Redrawn(t, e, v, size) && e.idx == old(e.idx)
    ensures t.Disjoint() && t.Ordered() && Bounded(t)
  {
    var x := e.idx;
    forall i, j | 0 <= i < j < |t.order| ensures Ends(t.order, i, j) && Starts(t.order, i, j) {
      if j == x && i < x - 1 { assert old(Ends(t.order, i, x - 1)); }
      if i == x && x + 1 < j { assert old(Ends(t.order, x + 1, j)); }
      if i != x && j != x { assert old(Ends(t.order, i, j)); }
    }
  }

  /** Only the gaps beside the entry change. */
  twostate lemma RedrawnGaps(t: Tree, new e: Entry, new v: nat, new size: nat)
    requires e in old(t.nodes) && old(t.GapsMatch()) && Redrawn(t, e, v, size) && e.idx == old(e.idx)
    ensures |t.gaps| == |t.order| + 1
    ensures forall j | 0 <= j <= |t.order| && j != e.idx && j != e.idx + 1 :: t.gaps[j] == t.GapAt(j)
    ensures v == old(e.vaddr) ==> t.gaps[e.idx] == t.GapAt(e.idx)
    ensures v + size == old(e.vaddr + e.size) ==> t.gaps[e.idx + 1] == t.GapAt(e.idx + 1)
  {
    forall j | 0 <= j <= |t.order| ensures t.gaps[j] == old(t.GapAt(j)) {
    }
  }

  /** Writing the summaries that look into gap k spoils no other. */
  twostate lemma SidesKept(t: Tree, new before: Entry?, new after: Entry?, new k: int)
    requires t.Shape() && t.nodes == old(t.nodes) && t.gaps == old(t.gaps) && old(t.ExactOffGaps(k, k))
    requires before != null ==> before in t.nodes && before.idx + 1 == k
    requires after != null ==> after in t.nodes && after.idx == k
    requires forall m | m in t.nodes :: m.lo == old(m.lo) && m.idx == old(m.idx) && m.hi == old(m.hi)
    requires forall m | m in t.nodes && m != before :: m.rmaxgap == old(m.rmaxgap)
    requires forall m | m in t.nodes && m != after :: m.lmaxgap == old(m.lmaxgap)
    ensures t.ExactOffGaps(k, k)
  {
    forall m | m in t.nodes ensures t.GapExact(m, k, k) {
      assert old(t.GapExact(m, k, k));
      assert t.Down(m);
    }
  }

  /** The end of an entry moves by delta, or its start by as much the other way, in the arithmetic of size_t. */
  method WriteEnd(e: Entry, delta: int)
    modifies e`size
    ensures e.size == (old(e.size) + delta) % WORD
  {
    e.size := (e.size + delta) % WORD;
  }

  method WriteStart(e: Entry, delta: int)
    modifies e`vaddr, e`size
    ensures e.vaddr == (old(e.vaddr) - delta) % WORD && e.size == (old(e.size) + delta) % WORD
  {
    e.vaddr := (e.vaddr - delta) % WORD;
    e.size := (e.size + delta) % WORD;
  }

  method DrawEnd(e: Entry, next: Entry?, delta: int)
    requires e != next && 0 < e.size + delta < WORD
    modifies e`size, e`rmaxgap, if next == null then {} else {next}`lmaxgap
    ensures e.size == old(e.size) + delta
  {
    WriteEnd(e, delta);
    e.rmaxgap := (e.rmaxgap - delta) % WORD;
    if next != null {
      next.lmaxgap := (next.lmaxgap - delta) % WORD;
    }
  }

  /** The end of e moves by delta: gaps other than the one behind it are as they were. */
  method ShiftEnd(t: Tree, e: Entry, next: Entry?, delta: int)
    requires t.Listed() && t.GapsMatch() && t.Disjoint() && Bounded(t) && t.stop < WORD
    requires e in t.nodes && 0 <= e.idx < |t.order| && t.order[e.idx] == e && next == Follower(t, e)
    requires e.size + delta > 0
    requires e.vaddr + e.size + delta <= if next == null then t.stop else next.vaddr
    modifies e`size, e`rmaxgap, if next == null then {} else {next}`lmaxgap
    ensures e.size == old(e.size) + delta && t.Ordered() && t.Disjoint() && Bounded(t) && |t.gaps| == |t.order| + 1
    ensures forall j | 0 <= j <= |t.order| && j != e.idx + 1 :: t.gaps[j] == t.GapAt(j)
  {
    assert e.idx > 0 ==> Ends(t.order, e.idx - 1, e.idx);
    DrawEnd(e, next, delta);
    assert Redrawn(t, e, e.vaddr, e.size);
    RedrawnApart(t, e, e.vaddr, e.size);
    RedrawnGaps(t, e, e.vaddr, e.size);
  }

  /** ... and the summaries of the gap behind it are left in doubt. */
  method DoubtEnd(t: Tree, e: Entry, next: Entry?, delta: int)
    requires t.Shape() && t.GapsMatch() && t.Disjoint() && Bounded(t) && t.stop < WORD
    requires t.ExactOffGaps(e.idx + 1, e.idx + 1)
    requires e in t.nodes && next == Follower(t, e) && e.size + delta > 0
    requires e.vaddr + e.size + delta <= if next == null then t.stop else next.vaddr
    modifies e`size, t.nodes`lmaxgap, t.nodes`rmaxgap
    ensures e.size == old(e.size) + delta && t.Ordered() && t.Disjoint() && Bounded(t) && |t.gaps| == |t.order| + 1
    ensures forall j | 0 <= j <= |t.order| && j != e.idx + 1 :: t.gaps[j] == t.GapAt(j)
    ensures t.ExactOffGaps(e.idx + 1, e.idx + 1)
  {
    assert t.Down(e);
    ShiftEnd(t, e, next, delta);
    SidesKept(t, e, next, e.idx + 1);
  }

  method RedrawEnd(t: Tree, e: Entry, next: Entry?, delta: int)
    requires t.Shape() && t.GapsMatch() && t.Disjoint() && Bounded(t) && t.stop < WORD
    requires t.ExactOffGaps(e.idx + 1, e.idx + 1)
    requires e in t.nodes && next == Follower(t, e) && e.size + delta > 0
    requires e.vaddr + e.size + delta <= if next == null then t.stop else next.vaddr
    modifies t`gaps, e`size, t.nodes`lmaxgap, t.nodes`rmaxgap
    ensures e.size == old(e.size) + delta && Keyed(t) && t.Disjoint() && Bounded(t)
    ensures t.ExactOffGaps(e.idx + 1, e.idx + 1)
  {
    assert t.Down(e);
    DoubtEnd(t, e, next, delta);
    Regap(t, e.idx + 1);
  }

  /** The end of e moves by delta. */
  method MoveEnd(t: Tree, e: Entry, next: Entry?, delta: int)
    requires Sound(t) && e in t.nodes && next == Follower(t, e) && e.size + delta > 0
    requires e.vaddr + e.size + delta <= if next == null then t.stop else next.vaddr
    modifies t`gaps, e`size, t.nodes`lmaxgap, t.nodes`rmaxgap
    ensures Sound(t) && e.size == old(e.size) + delta
  {
    DragEnd(t, e, next, delta);
  }

  method DragEnd(t: Tree, e: Entry, next: Entry?, delta: int)
    requires t.Shape() && t.Exacts() && Keyed(t) && t.Disjoint() && Bounded(t) && t.stop < WORD
    requires e in t.nodes && next == Follower(t, e) && e.size + delta > 0
    requires e.vaddr + e.size + delta <= if next == null then t.stop else next.vaddr
    modifies t`gaps, e`size, t.nodes`lmaxgap, t.nodes`rmaxgap
    ensures t.Exacts() && Keyed(t) && t.Disjoint() && Bounded(t) && e.size == old(e.size) + delta
  {
    assert t.Down(e);
    t.ExactIsExactOffGaps(e.idx + 1, e.idx + 1);
    RedrawEnd(t, e, next, delta);
    SettleBehind(t, e, next);
  }

  /** The entry behind e, then e, are augmented. */
  method SettleBehind(t: Tree, e: Entry, next: Entry?)
    requires t.Shape() && Keyed(t) && e in t.nodes && next == Follower(t, e) && t.ExactOffGaps(e.idx + 1, e.idx + 1)
    modifies t.nodes`lmaxgap, t.nodes`rmaxgap
    ensures t.Exacts()
  {
    assert t.Down(e);
    Held(t, e.idx + 1);
    TouchBoth(t, next, e, e.idx + 1);
  }

  method DrawStart(e: Entry, prev: Entry?, delta: int)
    requires e != prev && 0 < e.size + delta < WORD && 0 <= e.vaddr - delta < WORD
    modifies e`vaddr, e`size, e`lmaxgap, if prev == null then {} else {prev}`rmaxgap
    ensures e.vaddr == old(e.vaddr) - delta && e.size == old(e.size) + delta
  {
    WriteStart(e, delta);
    e.lmaxgap := (e.lmaxgap - delta) % WORD;
    if prev != null {
      prev.rmaxgap := (prev.rmaxgap - delta) % WORD;
    }
  }

  /** The start of e moves back by delta: gaps other than the one before it are as they were. */
  method ShiftStart(t: Tree, e: Entry, prev: Entry?, delta: int)
    requires t.Listed() && t.GapsMatch() && t.Disjoint() && Bounded(t) && t.stop < WORD
    requires e in t.nodes && 0 <= e.idx < |t.order| && t.order[e.idx] == e && prev == Leader(t, e) && e.size + delta > 0
    requires (if prev == null then t.start else prev.vaddr + prev.size) <= e.vaddr - delta
    modifies e`vaddr, e`size, e`lmaxgap, if prev == null then {} else {prev}`rmaxgap
    ensures e.vaddr == old(e.vaddr) - delta && e.size == old(e.size) + delta
    ensures t.Ordered() && t.Disjoint() && Bounded(t) && |t.gaps| == |t.order| + 1
    ensures forall j | 0 <= j <= |t.order| && j != e.idx :: t.gaps[j] == t.GapAt(j)
  {
    assert e.idx + 1 < |t.order| ==> Ends(t.order, e.idx, e.idx + 1);
    DrawStart(e, prev, delta);
    assert Redrawn(t, e, e.vaddr, e.size);
    RedrawnApart(t, e, e.vaddr, e.size);
    RedrawnGaps(t, e, e.vaddr, e.size);
  }

  /** ... and the summaries of the gap before it are left in doubt. */
  method DoubtStart(t: Tree, e: Entry, prev: Entry?, delta: int)
    requires t.Shape() && t.GapsMatch() && t.Disjoint() && Bounded(t) && t.stop < WORD && t.ExactOffGaps(e.idx, e.idx)
    requires e in t.nodes && prev == Leader(t, e) && e.size + delta > 0
    requires (if prev == null then t.start else prev.vaddr + prev.size) <= e.vaddr - delta
    modifies e`vaddr, e`size, t.nodes`lmaxgap, t.nodes`rmaxgap
    ensures e.vaddr == old(e.vaddr) - delta && e.size == old(e.size) + delta
    ensures t.Ordered() && t.Disjoint() && Bounded(t) && |t.gaps| == |t.order| + 1
    ensures forall j | 0 <= j <= |t.order| && j != e.idx :: t.gaps[j] == t.GapAt(j)
    ensures t.ExactOffGaps(e.idx, e.idx)
  {
    assert t.Down(e);
    ShiftStart(t, e, prev, delta);
    SidesKept(t, prev, e, e.idx);
  }

  method RedrawStart(t: Tree, e: Entry, prev: Entry?, delta: int)
    requires t.Shape() && t.GapsMatch() && t.Disjoint() && Bounded(t) && t.stop < WORD && t.ExactOffGaps(e.idx, e.idx)
    requires e in t.nodes && prev == Leader(t, e) && e.size + delta > 0
    requires (if prev == null then t.start else prev.vaddr + prev.size) <= e.vaddr - delta
    modifies t`gaps, e`vaddr, e`size, t.nodes`lmaxgap, t.nodes`rmaxgap
    ensures e.vaddr == old(e.vaddr) - delta && e.size == old(e.size) + delta
    ensures Keyed(t) && t.Disjoint() && Bounded(t) && t.ExactOffGaps(e.idx, e.idx)
  {
    assert t.Down(e);
    DoubtStart(t, e, prev, delta);
    Regap(t, e.idx);
  }

  /** The start of e moves back by delta. */
  method MoveStart(t: Tree, e: Entry, prev: Entry?, delta: int)
    requires Sound(t) && e in t.nodes && prev == Leader(t, e) && e.size + delta > 0
    requires (if prev == null then t.start else prev.vaddr + prev.size) <= e.vaddr - delta
    modifies t`gaps, e`vaddr, e`size, t.nodes`lmaxgap, t.nodes`rmaxgap
    ensures Sound(t) && e.vaddr == old(e.vaddr) - delta && e.size == old(e.size) + delta
  {
    DragStart(t, e, prev, delta);
  }

  method DragStart(t: Tree, e: Entry, prev: Entry?, delta: int)
    requires t.Shape() && t.Exacts() && Keyed(t) && t.Disjoint() && Bounded(t) && t.stop < WORD
    requires e in t.nodes && prev == Leader(t, e) && e.size + delta > 0
    requires (if prev == null then t.start else prev.vaddr + prev.size) <= e.vaddr - delta
    modifies t`gaps, e`vaddr, e`size, t.nodes`lmaxgap, t.nodes`rmaxgap
    ensures t.Exacts() && Keyed(t) && t.Disjoint() && Bounded(t)
    ensures e.vaddr == old(e.vaddr) - delta && e.size == old(e.size) + delta
  {
    assert t.Down(e);
    t.ExactIsExactOffGaps(e.idx, e.idx);
    RedrawStart(t, e, prev, delta);
    SettleBefore(t, e, prev);
  }

  /** The entry before e, then e, are augmented. */
  method SettleBefore(t: Tree, e: Entry, prev: Entry?)
    requires t.Shape() && Keyed(t) && e in t.nodes && prev == Leader(t, e) && t.ExactOffGaps(e.idx, e.idx)
    modifies t.nodes`lmaxgap, t.nodes`rmaxgap
    ensures t.Exacts()
  {
    assert t.Down(e);
    Held(t, e.idx);
    TouchBoth(t, prev, e, e.idx);
  }

  /** Only the end of entry k-1 moved: the other gaps are as they were. */
  twostate lemma EndMoved(t: Tree, new e: Entry)
    requires t.order == old(t.order) && t.gaps == old(t.gaps) && old(t.GapsMatch()) && 0 <= e.idx < |t.order|
    requires t.order[e.idx] == e
    requires forall i | 0 <= i < |t.order| :: t.order[i].vaddr == old(t.order[i].vaddr)
    requires forall i | 0 <= i < |t.order| && i != e.idx :: t.order[i].size == old(t.order[i].size)
    ensures |t.gaps| == |t.order| + 1
    ensures forall j | 0 <= j <= |t.order| && j != e.idx + 1 :: t.gaps[j] == t.GapAt(j)
  {
    forall j | 0 <= j <= |t.order| ensures t.gaps[j] == old(t.GapAt(j)) {
    }
  }

  method Overrun(e: Entry, next: Entry, size: nat)
    requires e != next
    modifies e`size, e`rmaxgap
    ensures e.size == old(e.size) + size + next.size
  {
    e.size := e.size + size + next.size;
    e.rmaxgap := next.rmaxgap;
  }

  /**
   The double merge of _map_map before the entry behind is dropped: e runs over it, so the gap
   between them wraps around to a huge number, and summaries over that gap are in doubt.
   */
  method Swallow(t: Tree, e: Entry, next: Entry, size: nat)
    requires t.Shape() && Keyed(t) && e in t.nodes && next == Follower(t, e) && t.ExactOffGaps(e.idx + 1, e.idx + 1)
    modifies t`gaps, e`size, t.nodes`lmaxgap, t.nodes`rmaxgap
    ensures e.size == old(e.size) + size + next.size && Keyed(t) && next in t.nodes && next.idx == e.idx + 1
    ensures t.ExactOffGaps(e.idx + 1, e.idx + 1)
  {
    SwallowStage(t, e, next, size);
    Touch(t, e, e.idx + 1);
  }

  method SwallowStage(t: Tree, e: Entry, next: Entry, size: nat)
    requires t.Shape() && Keyed(t) && e in t.nodes && next == Follower(t, e) && t.ExactOffGaps(e.idx + 1, e.idx + 1)
    modifies t`gaps, e`size, e`rmaxgap
    ensures e.size == old(e.size) + size + next.size && Keyed(t) && next in t.nodes && next.idx == e.idx + 1
    ensures t.Shape() && t.ExactOffGaps(e.idx + 1, e.idx + 1)
  {
    assert t.Down(e);
    Overrun(e, next, size);
    EndMoved(t, e);
    SidesKept(t, e, null, e.idx + 1);
    Regap(t, e.idx + 1);
  }
}
