/** _map_map and _vm_munmap (vm/map.c): every way of merging, trimming and splitting entries shows the same map. */
module MapSpace {
  import opened Kernel
  import opened GapTree
  import opened RbAugment
  import opened RbInsert
  import opened RbRemove
  import opened RbWalk
  import opened MapFind
  import opened MapEdit
  import opened MapView
  import opened MapSlots

  /** The addresses [lo, lo+size) now show m; everything else shows what it did. */
  twostate predicate Painted(t: Tree, new lo: nat, new size: nat, new m: Mapping)
    reads t`order, t.order`vaddr, t.order`size, t.order`obj, t.order`prot, t.order`flags
  {
    forall a: nat {:trigger At(t, a)} :: At(t, a) == if lo <= a < lo + size then m else old(At(t, a))
  }

  /** An entry that grew by n at one end shows that much more. */
  twostate lemma GrownPaints(t: Tree, new e: Entry, new x: int, new lo: nat, new n: nat)
    requires Reshaped(t, x) && t.Disjoint() && old(t.Disjoint()) && e == t.order[x] && e.size == old(e.size) + n
    requires if e.vaddr == old(e.vaddr) then lo == old(e.vaddr + e.size) else e.vaddr == lo && lo + n == old(e.vaddr)
    ensures Painted(t, lo, n, Mapped(CellOf(e)))
  {
    forall a: nat ensures At(t, a) == if lo <= a < lo + n then Mapped(CellOf(e)) else old(At(t, a)) {
      ReshapedAt(t, x, a);
      if old(Covers(e, a)) { WasEntry(t, a, x); }
    }
  }

  /** An entry that shrank by n at one end no longer shows that much. */
  twostate lemma CutPaints(t: Tree, new e: Entry, new x: int, new lo: nat, new n: nat)
    requires Reshaped(t, x) && t.Disjoint() && old(t.Disjoint()) && e == t.order[x] && e.size + n == old(e.size)
    requires if e.vaddr == old(e.vaddr) then lo == e.vaddr + e.size else lo == old(e.vaddr) && e.vaddr == lo + n
    ensures Painted(t, lo, n, Unmapped)
  {
    forall a: nat ensures At(t, a) == if lo <= a < lo + n then Unmapped else old(At(t, a)) {
      ReshapedAt(t, x, a);
      if old(Covers(e, a)) { WasEntry(t, a, x); }
    }
  }

  /** The entry before the new range grows over it. */
  method MergeLeft(t: Tree, e: Entry, next: Entry?, size: nat)
    requires Sound(t) && e in t.nodes && next == Follower(t, e) && size > 0
    requires e.vaddr + e.size + size <= if next == null then t.stop else next.vaddr
    modifies t`gaps, e`size, t.nodes`lmaxgap, t.nodes`rmaxgap
    ensures Sound(t) && Painted(t, old(e.vaddr + e.size), size, Mapped(CellOf(e))) && e.size == old(e.size) + size
    ensures old(Slotted(t)) ==>
      (Slotted(t) && Seated(t, old(Places(t)), old(e.vaddr + e.size), size) <==> old(LeftSlots(PlaceOf(e), size)))
  {
    assert t.Down(e);
    MoveEnd(t, e, next, size);
    assert Reshaped(t, e.idx);
    GrownPaints(t, e, e.idx, old(e.vaddr + e.size), size);
    if old(Slotted(t)) { GrownRight(t, e, size); }
  }

  method Reoffset(e: Entry, offs: int, size: nat)
    modifies e`offs, e`aoffs
    ensures e.offs == offs && e.aoffs == if old(e.aoffs) == 0 then 0 else (old(e.aoffs) - size) % WORD
  {
    e.offs := offs;
    if e.aoffs != 0 {
      e.aoffs := (e.aoffs - size) % WORD;
    }
  }

  method ReachBack(t: Tree, e: Entry, prev: Entry?, size: nat, offs: int)
    requires Sound(t) && e in t.nodes && prev == Leader(t, e) && size > 0
    requires (if prev == null then t.start else prev.vaddr + prev.size) + size <= e.vaddr
    modifies t`gaps, e`vaddr, e`size, t.nodes`lmaxgap, t.nodes`rmaxgap, e`offs, e`aoffs
    ensures Sound(t) && Painted(t, old(e.vaddr) - size, size, Mapped(CellOf(e)))
    ensures e.vaddr == old(e.vaddr) - size && e.size == old(e.size) + size && e.offs == offs
    ensures e.aoffs == if old(e.aoffs) == 0 then 0 else (old(e.aoffs) - size) % WORD
  {
    Reoffset(e, offs, size);
    GrowFront(t, e, prev, size);
  }

  /** The entry behind the new range grows over it. */
  method MergeRight(t: Tree, e: Entry, prev: Entry?, size: nat, offs: int)
    requires Sound(t) && e in t.nodes && prev == Leader(t, e) && size > 0
    requires (if prev == null then t.start else prev.vaddr + prev.size) + size <= e.vaddr
    modifies t`gaps, e`vaddr, e`size, t.nodes`lmaxgap, t.nodes`rmaxgap, e`offs, e`aoffs
    ensures Sound(t) && Painted(t, old(e.vaddr) - size, size, Mapped(CellOf(e)))
    ensures e.vaddr == old(e.vaddr) - size && e.size == old(e.size) + size && e.offs == offs
    ensures old(Slotted(t)) ==>
      (Slotted(t) && Seated(t, old(Places(t)), e.vaddr, size) <==> old(RightSlots(PlaceOf(e), size)))
  {
    assert t.Down(e);
    ReachBack(t, e, prev, size, offs);
    if old(Slotted(t)) { GrownLeft(t, e, size); }
  }

  method GrowFront(t: Tree, e: Entry, prev: Entry?, size: nat)
    requires Sound(t) && e in t.nodes && prev == Leader(t, e) && size > 0
    requires (if prev == null then t.start else prev.vaddr + prev.size) + size <= e.vaddr
    modifies t`gaps, e`vaddr, e`size, t.nodes`lmaxgap, t.nodes`rmaxgap
    ensures Sound(t) && Painted(t, old(e.vaddr) - size, size, Mapped(CellOf(e)))
    ensures e.vaddr == old(e.vaddr) - size && e.size == old(e.size) + size
  {
    assert t.Down(e);
    MoveStart(t, e, prev, size);
    assert Reshaped(t, e.idx);
    GrownPaints(t, e, e.idx, e.vaddr, size);
  }

  /** After a double merge: entry k-1 runs to the end of the former entry k, which is gone. */
  twostate predicate Bridged(t: Tree, new k: int)
    reads t`order, t.order`vaddr, t.order`size, t.order`obj, t.order`prot, t.order`flags
  {
    && 0 < k < |old(t.order)| && t.order == old(t.order)[..k] + old(t.order)[k + 1..]
    && var e, n := old(t.order)[k - 1], old(t.order)[k];
    && e in t.order && e.vaddr == old(e.vaddr) && e.vaddr + e.size == old(n.vaddr + n.size)
    && CellOf(e) == old(CellOf(e)) == old(CellOf(n))
    && forall x | x in t.order && x != e ::
      x.vaddr == old(x.vaddr) && x.size == old(x.size) && CellOf(x) == old(CellOf(x))
  }

  twostate lemma BridgedSound(t: Tree, new k: int)
    requires Bridged(t, k) && old(t.Disjoint()) && old(Bounded(t)) && old(t.Listed())
    ensures t.Disjoint() && Bounded(t)
  {
    var o := old(t.order);
    assert forall i | 0 <= i < |t.order| :: t.order[i] == o[if i < k then i else i + 1];
    assert old(Ends(t.order, k - 1, k));
    forall i | 0 <= i < |t.order| ensures t.order[i] != o[k - 1] <==> i != k - 1 {
      assert old(t.order[k - 1].idx == k - 1);
      assert old(t.order)[if i < k then i else i + 1] == t.order[i];
    }
    forall i | 0 <= i < |t.order|
      ensures t.start <= t.order[i].vaddr && t.order[i].vaddr + t.order[i].size <= t.stop && t.order[i].size > 0 {
      assert t.order[i] in t.order;
    }
    forall i, j | 0 <= i < j < |t.order| ensures Ends(t.order, i, j) {
      assert t.order[i] in t.order && t.order[j] in t.order;
      var x, y := if i < k then i else i + 1, if j < k then j else j + 1;
      assert old(Ends(t.order, x, y));
      if i == k - 1 { assert old(Ends(t.order, k, y)); }
    }
  }

  twostate lemma BridgedHole(t: Tree, new k: int, new a: nat)
    requires Bridged(t, k) && old(t.Disjoint()) && old(t.Listed())
    requires forall i | 0 <= i < |t.order| :: !Covers(t.order[i], a)
    ensures forall j | 0 <= j < |old(t.order)| :: !old(Covers(t.order[j], a))
  {
    var o := old(t.order);
    assert t.order[k - 1] == o[k - 1];
    assert old(Ends(t.order, k - 1, k));
    forall j | 0 <= j < |o| ensures !old(Covers(t.order[j], a)) {
      if j != k && j != k - 1 {
        var i := if j < k then j else j - 1;
        assert t.order[i] == o[j] && t.order[i] in t.order && !Covers(t.order[i], a);
        assert old(t.order[j].idx == j && t.order[k - 1].idx == k - 1);
      }
    }
  }

  /** Another entry shows what it did, and lies outside what joins the two. */
  twostate lemma BridgedOther(t: Tree, new k: int, new i: int, new a: nat)
    requires Bridged(t, k) && old(t.Disjoint()) && t.Disjoint() && 0 <= i < |t.order| && Covers(t.order[i], a)
    requires !Covers(old(t.order)[k - 1], a)
    ensures At(t, a) == old(At(t, a))
    ensures var e, n := old(t.order)[k - 1], old(t.order)[k]; !(old(e.vaddr + e.size) <= a < old(n.vaddr))
  {
    var x := if i < k then i else i + 1;
    AtEntry(t, a, i);
    assert t.order[i] in t.order && old(t.order)[x] == t.order[i];
    assert old(Covers(t.order[x], a));
    WasEntry(t, a, x);
    assert old(Ends(t.order, k - 1, k));
  }

  twostate lemma BridgedAt(t: Tree, new k: int, new a: nat)
    requires Bridged(t, k) && old(t.Disjoint()) && old(t.Listed()) && t.Disjoint()
    ensures var o := old(t.order); var e, n := o[k - 1], o[k];
      At(t, a) == if old(e.vaddr + e.size) <= a < old(n.vaddr) then Mapped(CellOf(e)) else old(At(t, a))
  {
    var o := old(t.order);
    var e, n := o[k - 1], o[k];
    assert forall i | 0 <= i < |t.order| :: t.order[i] == o[if i < k then i else i + 1];
    assert old(Ends(t.order, k - 1, k));
    if Covers(e, a) {
      AtEntry(t, a, k - 1);
      if old(Covers(e, a)) { WasEntry(t, a, k - 1); }
      if old(Covers(n, a)) { WasEntry(t, a, k); }
    } else if i :| 0 <= i < |t.order| && Covers(t.order[i], a) {
      BridgedOther(t, k, i, a);
    } else {
      AtHole(t, a);
      BridgedHole(t, k, a);
      WasHole(t, a);
    }
  }

  /** The writes of the double merge, and the removal that follows. */
  method Bridge(t: Tree, e: Entry, next: Entry, size: nat)
    requires Sound(t) && e in t.nodes && next == Follower(t, e) && size > 0 && CellOf(e) == CellOf(next)
    requires e.vaddr + e.size + size == next.vaddr
    modifies t`root, t`order, t`nodes, t`gaps, t.nodes`lo, t.nodes`idx, t.nodes`hi, e`size
    modifies t.nodes`left, t.nodes`right, t.nodes`parent, t.nodes`lmaxgap, t.nodes`rmaxgap, t.nodes`color, t.nodes`bh
    ensures t.RedBlack() && Keyed(t) && t.nodes == old(t.nodes) - {next} && Bridged(t, old(e.idx) + 1)
    ensures old(t.order)[old(e.idx)] == e && old(t.order)[old(e.idx) + 1] == next
  {
    ghost var k := e.idx + 1;
    assert t.Down(e);
    Overlay(t, e, next, size);
    Remove(t, next);
    assert e == old(t.order)[k - 1] && next == old(t.order)[k];
    OneOut(old(t.order), k);
  }

  lemma OneOut(o: seq<Entry>, k: int)
    requires 0 < k < |o|
    ensures o[k - 1] in o[..k] + o[k + 1..] && forall x | x in o[..k] + o[k + 1..] :: x in o
  {
    assert (o[..k] + o[k + 1..])[k - 1] == o[k - 1];
  }

  /** e runs over the entry behind it, which is then ready to be removed. */
  method Overlay(t: Tree, e: Entry, next: Entry, size: nat)
    requires t.RedBlack() && Keyed(t) && e in t.nodes && next == Follower(t, e)
    modifies t`gaps, e`size, t.nodes`lmaxgap, t.nodes`rmaxgap
    ensures Leaving(t, next) && next.idx == e.idx + 1 && e.size == old(e.size) + size + next.size
  {
    ghost var k := e.idx + 1;
    assert t.Down(e);
    t.ExactIsExactOffGaps(k, k);
    Swallow(t, e, next, size);
    RbRemove.Wider(t, k, k);
  }

  /** The range joins the entries on both sides into one. */
  method MergeBoth(t: Tree, e: Entry, next: Entry, size: nat)
    requires Sound(t) && e in t.nodes && next == Follower(t, e) && size > 0 && CellOf(e) == CellOf(next)
    requires e.vaddr + e.size + size == next.vaddr
    modifies t`root, t`order, t`nodes, t`gaps, t.nodes`lo, t.nodes`idx, t.nodes`hi, e`size
    modifies t.nodes`left, t.nodes`right, t.nodes`parent, t.nodes`lmaxgap, t.nodes`rmaxgap, t.nodes`color, t.nodes`bh
    ensures Sound(t) && Painted(t, old(e.vaddr + e.size), size, Mapped(CellOf(e))) && t.nodes == old(t.nodes) - {next}
    ensures e.size == old(e.size + size + next.size)
    ensures old(Slotted(t)) ==>
      (Slotted(t) && Seated(t, old(Places(t)), old(e.vaddr + e.size), size) <==> old(e.amap == next.amap))
  {
    ghost var k := e.idx + 1;
    assert t.Down(e);
    Bridge(t, e, next, size);
    BridgedSound(t, k);
    forall a: nat
      ensures At(t, a) == if old(e.vaddr + e.size) <= a < old(e.vaddr + e.size) + size then Mapped(CellOf(e))
      else old(At(t, a)) {
      BridgedAt(t, k, a);
    }
    if old(Slotted(t)) { Joined(t, e, next, size); }
  }

  lemma ReadyToAdd(t: Tree, e: Entry)
    requires t.RedBlack() && Keyed(t) && t.Disjoint() && e !in t.nodes && e.size > 0
    ensures Ready(t, e)
  {
    forall k | Between(t, e, k) ensures t.ExactOffGaps(k, k) {
      t.ExactIsExactOffGaps(k, k);
    }
  }

  lemma NoOverlap(t: Tree, e: Entry)
    requires t.Shape() && (t.root == null || Room(t, e.vaddr, e.size))
    ensures forall x | x in t.nodes :: !Overlap(x, e)
  {
    if t.root == null {
      t.EmptyTree();
    } else {
      forall x | x in t.nodes ensures !Overlap(x, e) {
        assert t.Down(x);
      }
    }
  }

  twostate lemma AddedBounded(t: Tree, new e: Entry, new k: int)
    requires 0 <= k <= |old(t.order)| && t.order == old(t.order)[..k] + [e] + old(t.order)[k..] && Kept(old(t.order))
    requires old(Bounded(t))
    ensures Bounded(t) <==> t.start <= e.vaddr && e.vaddr + e.size <= t.stop
  {
    assert t.order[k] == e;
    forall i | 0 <= i < |t.order| && i != k
      ensures t.start <= t.order[i].vaddr && t.order[i].vaddr + t.order[i].size <= t.stop {
      var j := if i < k then i else i - 1;
      assert t.order[i] == old(t.order)[j] && t.order[i] in old(t.order);
      assert old(t.start <= t.order[j].vaddr && t.order[j].vaddr + t.order[j].size <= t.stop);
    }
  }

  /** _map_add of an entry whose range is free, or into an empty map whatever its range. */
  method AddEntry(t: Tree, e: Entry)
    requires Ready(t, e) && Bounded(t) && 0 < t.start <= t.stop < WORD && (t.root == null || Room(t, e.vaddr, e.size))
    modifies t`root, t`order, t`nodes, t`gaps, e`left, e`right, e`parent, e`lo, e`idx, e`hi, e`lmaxgap, e`rmaxgap
    modifies e`color, e`bh
    modifies t.nodes`left, t.nodes`right, t.nodes`parent, t.nodes`lo, t.nodes`idx, t.nodes`hi, t.nodes`lmaxgap
    modifies t.nodes`rmaxgap
    modifies t.nodes`color, t.nodes`bh
    ensures Sound(t) <==> t.start <= e.vaddr && e.vaddr + e.size <= t.stop
    ensures t.nodes == old(t.nodes) + {e} && Painted(t, e.vaddr, e.size, Mapped(CellOf(e)))
  {
    NoOverlap(t, e);
    var r := Insert(t, e);
    ghost var k :| old(Between(t, e, k)) && t.order == old(t.order)[..k] + [e] + old(t.order)[k..];
    assert Kept(old(t.order));
    AddedBounded(t, e, k);
    forall a: nat ensures At(t, a) == if e.vaddr <= a < e.vaddr + e.size then Mapped(CellOf(e)) else old(At(t, a)) {
      AddedAt(t, e, k, a);
    }
  }

  /** The left neighbour could go on over [v, v+size): same cell, and an offset that continues where one is given. */
  ghost predicate LeftFits(l: Side, v: nat, c: Cell, offs: int) {
    l.Body? && v == l.place.vaddr + l.place.size && l.cell == c && (offs == -1 || offs == l.offs + l.place.size)
  }

  ghost predicate RightFits(r: Side, v: nat, size: nat, c: Cell, offs: int) {
    r.Body? && v + size == r.place.vaddr && r.cell == c && (offs == -1 || r.offs == offs + size)
  }

  /** Which of the neighbours take the range; both, if they are over one amap or over an object. */
  ghost predicate MergesLeft(l: Side, r: Side, v: nat, size: nat, c: Cell, offs: int) {
    LeftFits(l, v, c, offs) &&
    (c.obj != 0 || LeftSlots(l.place, size) || (RightFits(r, v, size, c, offs) && l.place.amap == r.place.amap))
  }

  ghost predicate MergesRight(l: Side, r: Side, v: nat, size: nat, c: Cell, offs: int) {
    RightFits(r, v, size, c, offs) &&
    (|| c.obj != 0 || (LeftFits(l, v, c, offs) && l.place.amap == r.place.amap)
     || (RightSlots(r.place, size) && !(LeftFits(l, v, c, offs) && LeftSlots(l.place, size))))
  }

  /** The entry that then holds the range, and the offset it begins with. */
  ghost function Taker(l: Side, r: Side, v: nat, size: nat, c: Cell, offs: int, prev: Entry?, next: Entry?,
      spare: Entry?): Entry? {
    if MergesLeft(l, r, v, size, c, offs) then prev else if MergesRight(l, r, v, size, c, offs) then next else spare
  }

  ghost function TakerOffs(l: Side, r: Side, v: nat, size: nat, c: Cell, offs: int): int {
    if MergesLeft(l, r, v, size, c, offs) then l.offs else offs
  }

  /** There are slots for the merge chosen. */
  ghost predicate MergeSlots(l: Side, r: Side, size: nat, lmerge: bool, rmerge: bool)
    requires (lmerge ==> l.Body?) && (rmerge ==> r.Body?)
  {
    if lmerge && rmerge then l.place.amap == r.place.amap else if rmerge then RightSlots(r.place, size)
    else lmerge ==> LeftSlots(l.place, size)
  }

  /** The amaps have room for what _map_map does; over an object it does not look. */
  ghost predicate Roomy(l: Side, r: Side, v: nat, size: nat, c: Cell, offs: int) {
    c.obj == 0 || MergeSlots(l, r, size, LeftFits(l, v, c, offs), RightFits(r, v, size, c, offs))
  }

  lemma RoomyIs(l: Side, r: Side, v: nat, size: nat, c: Cell, offs: int)
    ensures Roomy(l, r, v, size, c, offs) <==>
      MergeSlots(l, r, size, MergesLeft(l, r, v, size, c, offs), MergesRight(l, r, v, size, c, offs))
  {
  }

  /** The choice _map_map makes between growing a neighbour, joining two and taking a new entry. */
  method ChooseMerge(prev: Entry?, next: Entry?, v: nat, size: nat, obj: nat, offs: int, flags: nat, prot: nat)
    returns (lmerge: bool, rmerge: bool)
    ensures lmerge ==> LeftFits(SideOf(prev), v, Cell(obj, prot, flags), offs)
    ensures rmerge ==> RightFits(SideOf(next), v, size, Cell(obj, prot, flags), offs)
    ensures (prev != null ==> InAmap(prev)) ==>
      && lmerge == MergesLeft(SideOf(prev), SideOf(next), v, size, Cell(obj, prot, flags), offs)
      && rmerge == MergesRight(SideOf(prev), SideOf(next), v, size, Cell(obj, prot, flags), offs)
  {
    rmerge := next != null && v + size == next.vaddr && next.obj == obj && next.flags == flags && next.prot == prot;
    lmerge := prev != null && v == prev.vaddr + prev.size && prev.obj == obj && prev.flags == flags
      && prev.prot == prot;
    if offs != -1 {
      if rmerge {
        rmerge := next.offs == offs + size;
      }
      if lmerge {
        lmerge := offs == prev.offs + prev.size;
      }
    }
    if obj == 0 && !(lmerge && rmerge && next.amap == prev.amap) {
      if lmerge && prev.amap != null && (prev.amap.Length * SIZE_PAGE - prev.aoffs - prev.size) % WORD < size {
        lmerge := false;
      }
      if rmerge && next.amap != null && next.aoffs < size {
        rmerge := false;
      }
      if lmerge && rmerge {
        rmerge := false;
      }
    }
  }

  /** The fields of a new entry; anonymous memory shares a neighbour's amap where the arithmetic allows it. */
  method FillEntry(e: Entry, prev: Entry?, next: Entry?, v: nat, size: nat, obj: nat, offs: int, flags: nat, prot: nat,
      ghost l: Side, ghost r: Side)
    requires e != prev && e != next && l == SideOf(prev) && r == SideOf(next)
    modifies e`vaddr, e`size, e`obj, e`offs, e`flags, e`prot, e`amap, e`aoffs
    ensures e.vaddr == v && e.size == size && CellOf(e) == Cell(obj, prot, flags) && e.offs == offs
    ensures Tame(l, r, v, size) ==> Shares(e, Lender(l, r, v, size, obj))
    ensures e.amap == null || (prev != null && e.amap == prev.amap) || (next != null && e.amap == next.amap)
  {
    e.vaddr, e.size, e.obj, e.offs, e.flags, e.prot := v, size, obj, offs, flags, prot;
    e.amap, e.aoffs := null, 0;
    if obj == 0 {
      Borrow(e, prev, next, size, l, r);
    }
  }

  method Borrow(e: Entry, prev: Entry?, next: Entry?, size: nat, ghost l: Side, ghost r: Side)
    requires e != prev && e != next && e.amap == null && e.aoffs == 0 && l == SideOf(prev) && r == SideOf(next)
    modifies e`amap, e`aoffs
    ensures Tame(l, r, e.vaddr, size) ==> Shares(e, Lender(l, r, e.vaddr, size, 0))
    ensures e.amap == null || (prev != null && e.amap == prev.amap) || (next != null && e.amap == next.amap)
  {
    var lends, aoffs := false, 0;
    if next != null && next.amap != null {
      lends, aoffs := Before(next, e.vaddr, r);
    }
    if lends {
      e.amap, e.aoffs := next.amap, aoffs;
    } else if prev != null && prev.amap != null {
      lends, aoffs := Behind(prev, prev.amap.Length, e.vaddr, size, l);
      if lends {
        e.amap, e.aoffs := prev.amap, aoffs;
      }
    }
  }

  /** Whether the slots before those of next reach down to v, and how far into the amap v then is. */
  method Before(next: Entry, v: nat, ghost r: Side) returns (lends: bool, aoffs: nat)
    requires next.amap != null && r == SideOf(next)
    ensures Fitting(r.place) && v <= next.vaddr < WORD ==>
      lends == RightLends(r, v) && (lends ==> v - aoffs == r.place.base)
  {
    lends := v >= (next.vaddr - next.aoffs) % WORD;
    aoffs := (next.aoffs - (next.vaddr - v)) % WORD;
  }

  /** Whether those behind the slots of prev reach up to v + size. */
  method Behind(prev: Entry, slots: nat, v: nat, size: nat, ghost l: Side) returns (lends: bool, aoffs: nat)
    requires prev.amap != null && slots == prev.amap.Length && l == SideOf(prev)
    ensures Fitting(l.place) && prev.vaddr <= v && v + size < WORD ==>
      lends == LeftLends(l, v, size) && (lends ==> v - aoffs == l.place.base)
  {
    lends := (SIZE_PAGE * slots - prev.aoffs + prev.vaddr) % WORD >= (v + size) % WORD;
    aoffs := (prev.aoffs + (v - prev.vaddr)) % WORD;
  }

  /** The entries on either side of a free range are neighbours. */
  lemma Flanks(t: Tree, v: nat, size: nat, prev: Entry?, next: Entry?)
    requires Sound(t) && Beside(t, v, size, prev, next)
    ensures prev != null ==> prev in t.nodes && next == Follower(t, prev) && prev.vaddr + prev.size <= v
    ensures next != null ==> next in t.nodes && prev == Leader(t, next) && v + size <= next.vaddr
    ensures prev == null ==> t.start <= v
    ensures next == null ==> v + size <= t.stop
    ensures prev == null && next == null <==> t.root == null
  {
    if t.root != null { assert t.Down(t.root); }
  }

  /** _map_find answers with the first fit. */
  ghost predicate Answers(t: Tree, hint: nat, size: nat)
    reads t`root
  {
    t.root != null || size <= t.stop - t.start || (t.stop - size) % WORD < hint
  }

  /** Where a range goes: a free range between prev and next, or any range in an empty map. */
  ghost predicate Slot(t: Tree, v: nat, size: nat, prev: Entry?, next: Entry?)
    reads t, t.nodes, t.order, prev, next
  {
    if t.root == null then prev == null && next == null
    else (
        && Room(t, v, size) && (prev != null || next != null)
        && (prev != null ==> prev in t.nodes && next == Follower(t, prev) && prev.vaddr + prev.size <= v)
        && (next != null ==> next in t.nodes && prev == Leader(t, next) && v + size <= next.vaddr))
  }

  twostate lemma AddedSeated(t: Tree, new e: Entry)
    requires old(t.Shape()) && old(t.Disjoint()) && t.nodes == old(t.nodes) + {e}
    requires forall x | x in old(t.nodes) ::
      x.vaddr == old(x.vaddr) && x.size == old(x.size) && x.amap == old(x.amap) && x.aoffs == old(x.aoffs)
    ensures Seated(t, old(Places(t)), e.vaddr, e.size)
  {
    var was := old(Places(t));
    forall x, f, a: nat
      | x in t.nodes && f in was && !(e.vaddr <= a < e.vaddr + e.size) && Covers(x, a) && Spans(was[f], a)
      ensures Sits(x, was[f]) {
      assert old(Covers(x, a)) && old(Covers(f, a)) && was[f] == old(PlaceOf(f));
      WasOne(t, x, f, a);
    }
  }

  /** An entry that has its slots is added; l is the one that lent them. */
  method AddRoom(t: Tree, e: Entry, ghost l: Side)
    requires Sound(t) && e !in t.nodes && e.size > 0 && (t.root == null || Room(t, e.vaddr, e.size))
    modifies t`root, t`order, t`nodes, t`gaps, e`left, e`right, e`parent, e`lo, e`idx, e`hi, e`lmaxgap, e`rmaxgap
    modifies e`color, e`bh
    modifies t.nodes`left, t.nodes`right, t.nodes`parent, t.nodes`lo, t.nodes`idx, t.nodes`hi, t.nodes`lmaxgap
    modifies t.nodes`rmaxgap
    modifies t.nodes`color, t.nodes`bh
    ensures Sound(t) <==> t.start <= e.vaddr && e.vaddr + e.size <= t.stop
    ensures t.nodes == old(t.nodes) + {e} && Painted(t, e.vaddr, e.size, Mapped(CellOf(e)))
    ensures Slotted(t) == old(InSlots(t.nodes + {e})) && Seated(t, old(Places(t)), e.vaddr, e.size)
    ensures Shares(e, l) == old(Shares(e, l))
  {
    ReadyToAdd(t, e);
    AddEntry(t, e);
    AddedSeated(t, e);
  }

  /** Filling in an entry that is not in the map changes nothing in it. */
  method FillApart(t: Tree, e: Entry, prev: Entry?, next: Entry?, v: nat, size: nat, obj: nat, offs: int, flags: nat,
      prot: nat, ghost l: Side, ghost r: Side)
    requires l == SideOf(prev) && r == SideOf(next)
    requires Sound(t) && e !in t.nodes && (prev != null ==> prev in t.nodes) && (next != null ==> next in t.nodes)
    modifies e`vaddr, e`size, e`obj, e`offs, e`flags, e`prot, e`amap, e`aoffs
    ensures e.vaddr == v && e.size == size && CellOf(e) == Cell(obj, prot, flags) && e.offs == offs
    ensures Sound(t) && Places(t) == old(Places(t)) && Slotted(t) == old(Slotted(t))
    ensures forall a: nat {:trigger At(t, a)} :: At(t, a) == old(At(t, a))
    ensures e.amap == null || e.amap in old(Amaps(t))
    ensures Tame(l, r, v, size) ==> Shares(e, Lender(l, r, v, size, obj))
    ensures l == SideOf(prev) && r == SideOf(next)
  {
    assert e !in t.order;
    FillEntry(e, prev, next, v, size, obj, offs, flags, prot, l, r);
  }

  /** The fields of an entry that is to be added, with slots that nobody else has. */
  method Furnish(t: Tree, e: Entry, prev: Entry?, next: Entry?, v: nat, size: nat, obj: nat, offs: int, flags: nat,
      prot: nat, ghost l: Side, ghost r: Side)
    requires l == SideOf(prev) && r == SideOf(next)
    requires Sound(t) && e !in t.nodes && size > 0 && Slot(t, v, size, prev, next)
    modifies e`vaddr, e`size, e`obj, e`offs, e`flags, e`prot, e`amap, e`aoffs
    ensures e.vaddr == v && e.size == size && CellOf(e) == Cell(obj, prot, flags) && e.offs == offs
    ensures Sound(t) && Places(t) == old(Places(t))
    ensures forall a: nat {:trigger At(t, a)} :: At(t, a) == old(At(t, a))
    ensures e.amap == null || e.amap in old(Amaps(t))
    ensures old(Slotted(t)) && v + size < WORD ==>
      InSlots(t.nodes + {e}) && Shares(e, Lender(l, r, v, size, obj))
  {
    if Slotted(t) && v + size < WORD {
      assert prev != null ==> InAmap(prev);
      assert next != null ==> InAmap(next) && t.Down(next);
      assert Tame(l, r, v, size);
    }
    FillApart(t, e, prev, next, v, size, obj, offs, flags, prot, l, r);
    if Slotted(t) && v + size < WORD {
      NewSlots(t, e, prev, next, obj);
    }
  }

  /** A new entry for a range that no neighbour takes; its slots are those its neighbour has there. */
  method AddNew(t: Tree, e: Entry, prev: Entry?, next: Entry?, v: nat, size: nat, obj: nat, offs: int, flags: nat,
      prot: nat, ghost l: Side, ghost r: Side)
    requires l == SideOf(prev) && r == SideOf(next)
    requires Sound(t) && e !in t.nodes && size > 0 && Slot(t, v, size, prev, next)
    modifies t`root, t`order, t`nodes, t`gaps, e
    modifies t.nodes`left, t.nodes`right, t.nodes`parent, t.nodes`lo, t.nodes`idx, t.nodes`hi, t.nodes`lmaxgap
    modifies t.nodes`rmaxgap
    modifies t.nodes`color, t.nodes`bh
    ensures Sound(t) <==> t.start <= v && v + size <= t.stop
    ensures Painted(t, v, size, Mapped(Cell(obj, prot, flags)))
    ensures t.nodes == old(t.nodes) + {e} && e.vaddr == v && e.size == size && e.offs == offs
    ensures e.amap == null || e.amap in old(Amaps(t))
    ensures Seated(t, old(Places(t)), v, size)
    ensures old(Slotted(t)) && v + size < WORD ==> Slotted(t) && Shares(e, Lender(l, r, v, size, obj))
  {
    Furnish(t, e, prev, next, v, size, obj, offs, flags, prot, l, r);
    label F:
    AddRoom(t, e, Lender(l, r, v, size, obj));
    forall a: nat ensures At(t, a) == if v <= a < v + size then Mapped(Cell(obj, prot, flags)) else old(At(t, a)) {
      assert old@F(At(t, a)) == old(At(t, a));
    }
  }

  /** A neighbour, or both, take the range. */
  method MergeInto(t: Tree, v: nat, size: nat, offs: int, prev: Entry?, next: Entry?, lmerge: bool, rmerge: bool,
      ghost c: Cell)
    returns (e: Entry)
    requires Sound(t) && size > 0 && Slot(t, v, size, prev, next) && (lmerge || rmerge)
    requires lmerge ==> prev != null && v == prev.vaddr + prev.size && CellOf(prev) == c
    requires rmerge ==> next != null && v + size == next.vaddr && CellOf(next) == c
    modifies t`root, t`order, t`nodes, t`gaps, t.nodes`left, t.nodes`right, t.nodes`parent, t.nodes`lo, t.nodes`idx
    modifies t.nodes`hi
    modifies t.nodes`lmaxgap, t.nodes`rmaxgap, t.nodes`color, t.nodes`bh, t.nodes`vaddr, t.nodes`size, t.nodes`offs
    modifies t.nodes`aoffs
    ensures Sound(t) && t.start <= v && v + size <= t.stop && Painted(t, v, size, Mapped(c))
    ensures e in t.nodes && e == (if lmerge then prev else next) && e.vaddr <= v && v + size <= e.vaddr + e.size
    ensures e.offs == if lmerge then old(e.offs) else offs
    ensures old(Slotted(t)) ==> (Slotted(t) && Seated(t, old(Places(t)), v, size) <==>
      old(MergeSlots(SideOf(prev), SideOf(next), size, lmerge, rmerge)))
  {
    if rmerge && lmerge {
      MergeBoth(t, prev, next, size);
      e := prev;
    } else if rmerge {
      MergeRight(t, next, prev, size, offs);
      e := next;
    } else {
      MergeLeft(t, prev, next, size);
      e := prev;
    }
  }

  /** The range goes to the neighbours chosen, or gets an entry of its own. */
  method Carry(t: Tree, v: nat, size: nat, prot: nat, obj: nat, offs: int, flags: nat, prev: Entry?, next: Entry?,
      spare: Entry?, lmerge: bool, rmerge: bool, ghost l: Side, ghost r: Side)
    returns (ok: bool, e: Entry?)
    requires l == SideOf(prev) && r == SideOf(next)
    requires Sound(t) && size > 0 && (spare != null ==> spare !in t.nodes) && Slot(t, v, size, prev, next)
    requires lmerge ==> prev != null && v == prev.vaddr + prev.size && CellOf(prev) == Cell(obj, prot, flags)
    requires rmerge ==> next != null && v + size == next.vaddr && CellOf(next) == Cell(obj, prot, flags)
    modifies t`root, t`order, t`nodes, t`gaps, t.nodes`left, t.nodes`right, t.nodes`parent, t.nodes`lo, t.nodes`idx
    modifies t.nodes`hi
    modifies t.nodes`lmaxgap, t.nodes`rmaxgap, t.nodes`color, t.nodes`bh, t.nodes`vaddr, t.nodes`size, t.nodes`offs
    modifies t.nodes`aoffs
    modifies if spare == null then {} else {spare}
    ensures !ok ==> spare == null && unchanged(t) && unchanged(t.nodes)
    ensures ok ==>
      (Sound(t) <==> t.start <= v && v + size <= t.stop) && Painted(t, v, size, Mapped(Cell(obj, prot, flags)))
    ensures ok ==> e != null && e in t.nodes && e.vaddr <= v && v + size <= e.vaddr + e.size
    ensures ok ==> e == if lmerge then prev else if rmerge then next else spare
    ensures ok ==> e.offs == if lmerge then l.offs else offs
    ensures ok ==> e.amap == null || e.amap in old(Amaps(t))
    ensures ok && old(Slotted(t)) && v + size < WORD ==>
      (Slotted(t) && Seated(t, old(Places(t)), v, size) <==> MergeSlots(l, r, size, lmerge, rmerge))
    ensures ok && old(Slotted(t)) && v + size < WORD && e !in old(t.nodes) ==>
      Shares(e, Lender(l, r, v, size, obj))
  {
    ok := true;
    if lmerge || rmerge {
      e := MergeInto(t, v, size, offs, prev, next, lmerge, rmerge, Cell(obj, prot, flags));
    } else {
      if spare == null {
        return false, null;
      }
      AddNew(t, spare, prev, next, v, size, obj, offs, flags, prot, l, r);
      e := spare;
    }
  }

  /** Pages outside the range are as they were, and in it there are none unless e has an amap. */
  twostate predicate Blanked(t: Tree, new e: Entry, new v: nat, new size: nat)
    reads t`nodes, t.nodes`vaddr, t.nodes`size, t.nodes`amap, t.nodes`aoffs, Amaps(t), e`amap
  {
    forall a: nat {:trigger AnonAt(t, a)} ::
      if v <= a < v + size then e.amap == null ==> AnonAt(t, a) == 0 else AnonAt(t, a) == old(AnonAt(t, a))
  }

  /** Before the slots are cleared, pages outside the range are as they were; without an amap there are none in it. */
  twostate lemma Blank(t: Tree, new e: Entry, new v: nat, new size: nat, new m: Mapping)
    requires old(t.Shape()) && old(t.Disjoint()) && t.Shape() && t.Disjoint()
    requires e in t.nodes && e.vaddr <= v && v + size <= e.vaddr + e.size
    requires Seated(t, old(Places(t)), v, size) && Painted(t, v, size, m)
    requires forall m | m in old(Amaps(t)) :: m[..] == old(m[..])
    ensures Blanked(t, e, v, size)
  {
    forall a: nat | !(v <= a < v + size) ensures AnonAt(t, a) == old(AnonAt(t, a)) { PageKept(t, v, size, a); }
    forall a: nat | v <= a < v + size && e.amap == null ensures AnonAt(t, a) == 0 { AnonIs(t, e, a); }
  }

  /** The second half of _map_map: the range becomes part of a neighbour, joins two, or gets an entry of its own. */
  method Install(t: Tree, v: nat, size: nat, prot: nat, obj: nat, offs: int, flags: nat, prev: Entry?, next: Entry?,
      spare: Entry?, lmerge: bool, rmerge: bool, ghost l: Side, ghost r: Side)
    returns (ok: bool, e: Entry?)
    requires l == SideOf(prev) && r == SideOf(next)
    requires Sound(t) && size > 0 && (spare != null ==> spare !in t.nodes) && Slot(t, v, size, prev, next)
    requires lmerge ==> LeftFits(l, v, Cell(obj, prot, flags), offs)
    requires rmerge ==> RightFits(r, v, size, Cell(obj, prot, flags), offs)
    requires Slotted(t) ==> lmerge == MergesLeft(l, r, v, size, Cell(obj, prot, flags), offs)
    requires Slotted(t) ==> rmerge == MergesRight(l, r, v, size, Cell(obj, prot, flags), offs)
    modifies t`root, t`order, t`nodes, t`gaps, t.nodes`left, t.nodes`right, t.nodes`parent, t.nodes`lo, t.nodes`idx
    modifies t.nodes`hi
    modifies t.nodes`lmaxgap, t.nodes`rmaxgap, t.nodes`color, t.nodes`bh, t.nodes`vaddr, t.nodes`size, t.nodes`offs
    modifies t.nodes`aoffs
    modifies if spare == null then {} else {spare}
    ensures !ok ==> spare == null && unchanged(t) && unchanged(t.nodes)
    ensures ok ==>
      (Sound(t) <==> t.start <= v && v + size <= t.stop) && Painted(t, v, size, Mapped(Cell(obj, prot, flags)))
    ensures ok ==> e != null && e in t.nodes && e.vaddr <= v && v + size <= e.vaddr + e.size
    ensures ok ==> e == if lmerge then prev else if rmerge then next else spare
    ensures ok ==> e.offs == if lmerge then l.offs else offs
    ensures ok ==> e.amap == null || e.amap in old(Amaps(t))
    ensures ok && old(Slotted(t)) && v + size < WORD ==>
      (Slotted(t) && Seated(t, old(Places(t)), v, size) <==> Roomy(l, r, v, size, Cell(obj, prot, flags), offs))
    ensures ok && old(Slotted(t)) && t.start <= v && v + size <= t.stop ==>
      Roomy(l, r, v, size, Cell(obj, prot, flags), offs) ==> Blanked(t, e, v, size)
    ensures ok && old(Slotted(t)) && v + size < WORD && e !in old(t.nodes) ==>
      Shares(e, Lender(l, r, v, size, obj))
  {
    RoomyIs(l, r, v, size, Cell(obj, prot, flags), offs);
    ok, e := Carry(t, v, size, prot, obj, offs, flags, prev, next, spare, lmerge, rmerge, l, r);
    if ok && old(Slotted(t)) && t.start <= v && v + size <= t.stop
      && Roomy(l, r, v, size, Cell(obj, prot, flags), offs) {
      Blank(t, e, v, size, Mapped(Cell(obj, prot, flags)));
    }
  }

  ghost predicate NoRoom(t: Tree, hint: nat, size: nat)
    reads t`order, t.order`vaddr, t.order`size
  {
    forall w: nat | hint <= w :: !Room(t, w, size)
  }

  /** v is the lowest address at or above the hint with room for size bytes. */
  ghost predicate Lowest(t: Tree, hint: nat, size: nat, v: nat)
    reads t`order, t.order`vaddr, t.order`size
  {
    hint <= v && Room(t, v, size) && forall w: nat | hint <= w < v :: !Room(t, w, size)
  }

  /** v is where the range goes, between prev and next: the lowest place, if the search answers. */
  ghost predicate Chosen(t: Tree, hint: nat, size: nat, v: nat, prev: Entry?, next: Entry?)
    reads t, t.nodes, t.order, prev, next
  {
    && Slot(t, v, size, prev, next)
    && if Answers(t, hint, size) then Lowest(t, hint, size, v) else !(t.start <= v && v + size <= t.stop)
  }

  /** The first half of _map_map. */
  method FindSlot(t: Tree, hint: nat, size: nat) returns (v: nat, prev: Entry?, next: Entry?)
    requires Sound(t) && hint < WORD && 0 < size < WORD
    ensures v == 0 ==> NoRoom(t, hint, size)
    ensures v != 0 ==> Chosen(t, hint, size, v, prev, next)
  {
    v, prev, next := MapFind.Find(t, hint, size);
    if v != 0 && Answers(t, hint, size) {
      Flanks(t, v, size, prev, next);
    }
  }

  method Choose(t: Tree, hint: nat, size: nat, v: nat, prev: Entry?, next: Entry?, prot: nat, obj: nat, offs: int,
      flags: nat)
    returns (lmerge: bool, rmerge: bool, ghost l: Side, ghost r: Side)
    requires Chosen(t, hint, size, v, prev, next)
    ensures Chosen(t, hint, size, v, prev, next) && l == SideOf(prev) && r == SideOf(next)
    ensures lmerge ==> LeftFits(l, v, Cell(obj, prot, flags), offs)
    ensures rmerge ==> RightFits(r, v, size, Cell(obj, prot, flags), offs)
    ensures Slotted(t) ==> lmerge == MergesLeft(l, r, v, size, Cell(obj, prot, flags), offs)
    ensures Slotted(t) ==> rmerge == MergesRight(l, r, v, size, Cell(obj, prot, flags), offs)
  {
    lmerge, rmerge := ChooseMerge(prev, next, v, size, obj, offs, flags, prot);
    l, r := SideOf(prev), SideOf(next);
    assert Slotted(t) && prev != null ==> InAmap(prev);
  }

  /** ... and the choice of who takes the range. */
  method Decide(t: Tree, hint: nat, size: nat, prot: nat, obj: nat, offs: int, flags: nat)
    returns (v: nat, prev: Entry?, next: Entry?, lmerge: bool, rmerge: bool, ghost l: Side, ghost r: Side)
    requires Sound(t) && hint < WORD && 0 < size < WORD
    ensures v == 0 ==> NoRoom(t, hint, size) || (offs != -1 && offs % SIZE_PAGE != 0)
    ensures v != 0 ==> Chosen(t, hint, size, v, prev, next) && l == SideOf(prev) && r == SideOf(next)
    ensures v != 0 ==> (offs == -1 || offs % SIZE_PAGE == 0)
    ensures lmerge ==> LeftFits(l, v, Cell(obj, prot, flags), offs)
    ensures rmerge ==> RightFits(r, v, size, Cell(obj, prot, flags), offs)
    ensures v != 0 && Slotted(t) ==> lmerge == MergesLeft(l, r, v, size, Cell(obj, prot, flags), offs)
    ensures v != 0 && Slotted(t) ==> rmerge == MergesRight(l, r, v, size, Cell(obj, prot, flags), offs)
  {
    v, prev, next := FindSlot(t, hint, size);
    if v == 0 || (offs != -1 && offs % SIZE_PAGE != 0) {
      return 0, null, null, false, false, Nobody, Nobody;
    }
    lmerge, rmerge, l, r := Choose(t, hint, size, v, prev, next, prot, obj, offs, flags);
  }

  /** ... which changes nothing. */
  method Resolve(t: Tree, hint: nat, size: nat, prot: nat, obj: nat, offs: int, flags: nat)
    returns (v: nat, prev: Entry?, next: Entry?, lmerge: bool, rmerge: bool, ghost l: Side, ghost r: Side)
    requires Sound(t) && hint < WORD && 0 < size < WORD
    ensures Sound(t) && Places(t) == old(Places(t)) && Slotted(t) == old(Slotted(t))
    ensures forall a: nat {:trigger At(t, a)} :: At(t, a) == old(At(t, a))
    ensures forall a: nat {:trigger AnonAt(t, a)} :: AnonAt(t, a) == old(AnonAt(t, a))
    ensures v == 0 ==> old(NoRoom(t, hint, size)) || (offs != -1 && offs % SIZE_PAGE != 0)
    ensures (prev != null ==> prev in old(t.nodes)) && (next != null ==> next in old(t.nodes))
    ensures v != 0 ==> old(Chosen(t, hint, size, v, prev, next)) && l == old(SideOf(prev)) && r == old(SideOf(next))
    ensures v != 0 ==> Slot(t, v, size, prev, next) && l == SideOf(prev) && r == SideOf(next)
    ensures v != 0 ==> (offs == -1 || offs % SIZE_PAGE == 0)
    ensures lmerge ==> LeftFits(l, v, Cell(obj, prot, flags), offs)
    ensures rmerge ==> RightFits(r, v, size, Cell(obj, prot, flags), offs)
    ensures v != 0 && Slotted(t) ==> lmerge == MergesLeft(l, r, v, size, Cell(obj, prot, flags), offs)
    ensures v != 0 && Slotted(t) ==> rmerge == MergesRight(l, r, v, size, Cell(obj, prot, flags), offs)
  {
    v, prev, next, lmerge, rmerge, l, r := Decide(t, hint, size, prot, obj, offs, flags);
    if v == 0 {
      prev, next := null, null;
    }
    SamePages(t);
  }

  /** All of _map_map but the clearing of slots. */
  method Settle(t: Tree, hint: nat, size: nat, prot: nat, obj: nat, offs: int, flags: nat, spare: Entry?)
    returns (v: nat, e: Entry?, ghost prev: Entry?, ghost next: Entry?)
    requires Sound(t) && hint < WORD && 0 < size < WORD && (spare != null ==> spare !in t.nodes)
    modifies t`root, t`order, t`nodes, t`gaps, t.nodes`left, t.nodes`right, t.nodes`parent, t.nodes`lo, t.nodes`idx
    modifies t.nodes`hi
    modifies t.nodes`lmaxgap, t.nodes`rmaxgap, t.nodes`color, t.nodes`bh, t.nodes`vaddr, t.nodes`size, t.nodes`offs
    modifies t.nodes`aoffs
    modifies if spare == null then {} else {spare}
    ensures v == 0 ==> unchanged(t) && unchanged(t.nodes)
    ensures v == 0 ==> spare == null || (offs != -1 && offs % SIZE_PAGE != 0) || old(NoRoom(t, hint, size))
    ensures v != 0 ==> offs == -1 || offs % SIZE_PAGE == 0
    ensures (prev != null ==> prev in old(t.nodes)) && (next != null ==> next in old(t.nodes))
    ensures v != 0 ==> old(Chosen(t, hint, size, v, prev, next))
    ensures v != 0 && old(Answers(t, hint, size)) ==> Sound(t) && Painted(t, v, size, Mapped(Cell(obj, prot, flags)))
    ensures v != 0 && !old(Answers(t, hint, size)) ==> !Sound(t)
    ensures v != 0 ==> e != null && e in t.nodes && e.vaddr <= v && v + size <= e.vaddr + e.size
    ensures v != 0 && old(Slotted(t)) ==>
      e == Taker(old(SideOf(prev)), old(SideOf(next)), v, size, Cell(obj, prot, flags), offs, prev, next, spare)
    ensures v != 0 && old(Slotted(t)) ==>
      e.offs == TakerOffs(old(SideOf(prev)), old(SideOf(next)), v, size, Cell(obj, prot, flags), offs)
    ensures v != 0 && old(Slotted(t)) && old(Answers(t, hint, size)) ==>
      (Slotted(t) && Seated(t, old(Places(t)), v, size) <==>
        Roomy(old(SideOf(prev)), old(SideOf(next)), v, size, Cell(obj, prot, flags), offs))
    ensures v != 0 ==> e.amap == null || (e.amap in old(Amaps(t)) && old(Answers(t, hint, size)))
    ensures v != 0 && old(Slotted(t)) && old(Answers(t, hint, size)) ==>
      Roomy(old(SideOf(prev)), old(SideOf(next)), v, size, Cell(obj, prot, flags), offs) ==>
      Blanked(t, e, v, size)
  {
    var before, behind, lmerge, rmerge;
    ghost var l, r;
    v, before, behind, lmerge, rmerge, l, r := Resolve(t, hint, size, prot, obj, offs, flags);
    prev, next := before, behind;
    if v == 0 {
      return 0, null, null, null;
    }
    if t.root == null { t.EmptyTree(); }
    var ok;
    ok, e := Install(t, v, size, prot, obj, offs, flags, before, behind, spare, lmerge, rmerge, l, r);
    if !ok {
      v := 0;
    }
  }

  /**
   _map_map.  spare is what map_alloc returns.  The range chosen is the first fit and shows the new
   cell, nothing else changes, and the map is sound again; NULL means that nothing changed at all.
   When the search does not answer with the first fit the map is broken.  Every address keeps its slot, and
   its page, exactly if the amaps are roomy enough; the range itself is without pages.
   */
  method Map(t: Tree, hint: nat, size: nat, prot: nat, obj: nat, offs: int, flags: nat, spare: Entry?)
    returns (v: nat, e: Entry?, ghost prev: Entry?, ghost next: Entry?)
    requires Sound(t) && hint < WORD && 0 < size < WORD && (spare != null ==> spare !in t.nodes)
    modifies t`root, t`order, t`nodes, t`gaps, t.nodes`left, t.nodes`right, t.nodes`parent, t.nodes`lo, t.nodes`idx
    modifies t.nodes`hi
    modifies t.nodes`lmaxgap, t.nodes`rmaxgap, t.nodes`color, t.nodes`bh, t.nodes`vaddr, t.nodes`size, t.nodes`offs
    modifies t.nodes`aoffs
    modifies if spare == null then {} else {spare}
    modifies Amaps(t)
    ensures v == 0 ==> unchanged(t) && unchanged(t.nodes)
    ensures v == 0 ==> spare == null || (offs != -1 && offs % SIZE_PAGE != 0) || old(NoRoom(t, hint, size))
    ensures v != 0 ==> offs == -1 || offs % SIZE_PAGE == 0
    ensures (prev != null ==> prev in old(t.nodes)) && (next != null ==> next in old(t.nodes))
    ensures v != 0 ==> old(Chosen(t, hint, size, v, prev, next))
    ensures v != 0 && old(Answers(t, hint, size)) ==> Sound(t) && Painted(t, v, size, Mapped(Cell(obj, prot, flags)))
    ensures v != 0 && !old(Answers(t, hint, size)) ==> !Sound(t)
    ensures v != 0 ==> e != null && e in t.nodes && e.vaddr <= v && v + size <= e.vaddr + e.size
    ensures v != 0 && old(Slotted(t)) ==>
      e == Taker(old(SideOf(prev)), old(SideOf(next)), v, size, Cell(obj, prot, flags), offs, prev, next, spare)
    ensures v != 0 && old(Slotted(t)) ==>
      e.offs == TakerOffs(old(SideOf(prev)), old(SideOf(next)), v, size, Cell(obj, prot, flags), offs)
    ensures v != 0 && old(Slotted(t)) && old(Answers(t, hint, size)) ==>
      (Slotted(t) && Seated(t, old(Places(t)), v, size) <==>
        Roomy(old(SideOf(prev)), old(SideOf(next)), v, size, Cell(obj, prot, flags), offs))
    ensures v != 0 && old(Slotted(t)) && old(Answers(t, hint, size)) && v % SIZE_PAGE == 0 && size % SIZE_PAGE == 0 ==>
      Roomy(old(SideOf(prev)), old(SideOf(next)), v, size, Cell(obj, prot, flags), offs) ==>
      forall a: nat {:trigger AnonAt(t, a)} :: AnonAt(t, a) == if v <= a < v + size then 0 else old(AnonAt(t, a))
  {
    v, e, prev, next := Settle(t, hint, size, prot, obj, offs, flags, spare);
    if v != 0 && e.amap != null {
      ClearRange(t, e, v, size, old(Places(t)));
    }
  }

  lemma LoneSlots(e: Entry, s: set<Entry>)
    requires InAmap(e) && s == {}
    ensures InSlots(s + {e})
  {
  }

  method OneEntry() returns (e: Entry)
    ensures fresh(e) && e.amap != null && fresh(e.amap)
    ensures SideOf(e) == Body(Place(0x2000, 0x1000, e.amap, 0x2000), Cell(1, 1, 0), -1) && InAmap(e)
  {
    e := new Entry(0x2000, 0x1000);
    e.amap := new nat[1];
    e.obj, e.prot, e.flags, e.offs, e.aoffs := 1, 1, 0, -1, 0;
  }

  method NoEntry() returns (t: Tree)
    ensures fresh(t) && Sound(t) && t.nodes == {} && t.root == null && t.start == 0x1000 && t.stop == 0x10000
  {
    t := new Tree(0x1000, 0x10000);
  }

  lemma LoneRoom(t: Tree, e: Entry)
    requires Sound(t) && t.nodes == {e} && t.start == 0x1000 && t.stop == 0x10000 && e.vaddr == 0x2000
    ensures t.root != null && Room(t, 0x1000, 0x1000)
  {
    assert t.Down(e);
  }

  method EntryApart() returns (t: Tree, e: Entry)
    ensures fresh(t) && Sound(t) && t.nodes == {} && t.root == null && t.start == 0x1000 && t.stop == 0x10000
    ensures fresh(e) && e.amap != null && fresh(e.amap) && InSlots(t.nodes + {e})
    ensures SideOf(e) == Body(Place(0x2000, 0x1000, e.amap, 0x2000), Cell(1, 1, 0), -1)
  {
    e := OneEntry();
    t := NoEntry();
    LoneSlots(e, t.nodes);
  }

  /** A map with one page of an object, and slots of its own for it. */
  method OnePage() returns (t: Tree, e: Entry)
    ensures fresh(t) && t.nodes == {e} && fresh(e) && Sound(t) && Slotted(t) && t.root != null
    ensures Room(t, 0x1000, 0x1000)
    ensures e.amap != null && fresh(e.amap)
    ensures SideOf(e) == Body(Place(0x2000, 0x1000, e.amap, 0x2000), Cell(1, 1, 0), -1)
  {
    t, e := EntryApart();
    AddRoom(t, e, Nobody);
    LoneRoom(t, e);
  }

  /** A page before one of the same object that has an amap: the two are merged, and the slots are out of place. */
  method Misplaced() returns (t: Tree, ghost kept: bool)
    ensures fresh(t) && Sound(t) && !kept
  {
    var s := new Entry(0, 0);
    var e;
    t, e := OnePage();
    ghost var was := Places(t);
    ghost var prev, next;
    var v, f;
    assert t.Down(e);
    v, f, prev, next := Map(t, 0x1000, 0x1000, 1, 1, -1, 0, s);
    kept := Slotted(t) && Seated(t, was, v, 0x1000);
  }
}
