/** _vm_munmap (vm/map.c). */
module MapUnmap {
  import opened Kernel
  import opened GapTree
  import opened RbAugment
  import opened RbInsert
  import opened RbRemove
  import opened RbWalk
  import opened MapFind
  import opened MapTouch
  import opened MapEdit
  import opened MapView
  import opened MapSlots
  import opened MapSpace

  /** The end of e is cut off, and the gap behind it left in doubt. */
  method CutStage(t: Tree, e: Entry, cut: nat, gap: nat)
    requires t.Shape() && Keyed(t) && t.Disjoint() && Bounded(t) && t.ExactOffGaps(e.idx + 1, e.idx + 1)
    requires e in t.nodes && 0 < cut <= e.size && t.stop < WORD
    modifies t`gaps, e`size, e`rmaxgap
    ensures e.size == cut && Keyed(t) && t.Disjoint() && Bounded(t) && t.ExactOffGaps(e.idx + 1, e.idx + 1)
  {
    assert t.Down(e);
    CutDraw(e, cut, gap);
    CutApart(t, e);
    EndMoved(t, e);
    SidesKept(t, e, null, e.idx + 1);
    Regap(t, e.idx + 1);
  }

  /** ... even after e is augmented. */
  method CutEnd(t: Tree, e: Entry, cut: nat, gap: nat)
    requires t.Shape() && Keyed(t) && t.Disjoint() && Bounded(t) && t.ExactOffGaps(e.idx + 1, e.idx + 1)
    requires e in t.nodes && 0 < cut <= e.size && t.stop < WORD
    modifies t`gaps, e`size, t.nodes`lmaxgap, t.nodes`rmaxgap
    ensures e.size == cut && Keyed(t) && t.Disjoint() && Bounded(t) && t.ExactOffGaps(e.idx + 1, e.idx + 1)
  {
    CutStage(t, e, cut, gap);
    Touch(t, e, e.idx + 1);
  }

  /** An entry is cut short, in the arithmetic of size_t. */
  method WriteCut(e: Entry, cut: int)
    modifies e`size
    ensures e.size == cut % WORD
  {
    e.size := cut % WORD;
  }

  method CutDraw(e: Entry, cut: nat, gap: nat)
    requires cut < WORD
    modifies e`size, e`rmaxgap
    ensures e.size == cut
  {
    WriteCut(e, cut);
    e.rmaxgap := gap;
  }

  twostate lemma CutApart(t: Tree, new e: Entry)
    requires t.order == old(t.order) && e in t.order && 0 < e.size <= old(e.size) && old(t.Disjoint())
    requires old(Bounded(t))
    requires forall x | x in t.order :: x.vaddr == old(x.vaddr)
    requires forall x | x in t.order && x != e :: x.size == old(x.size)
    ensures t.Disjoint() && Bounded(t)
  {
    forall i | 0 <= i < |t.order|
      ensures t.start <= t.order[i].vaddr && t.order[i].vaddr + t.order[i].size <= t.stop && t.order[i].size > 0 {
      assert t.order[i] in t.order;
    }
    forall i, j | 0 <= i < j < |t.order| ensures Ends(t.order, i, j) {
      assert t.order[i] in t.order && t.order[j] in t.order;
      assert old(Ends(t.order, i, j));
    }
  }

  twostate lemma TakenApart(t: Tree, new k: int)
    requires 0 <= k < |old(t.order)| && t.order == old(t.order)[..k] + old(t.order)[k + 1..] && Kept(t.order)
    requires old(t.Disjoint()) && old(Bounded(t))
    ensures t.Disjoint() && Bounded(t)
  {
    forall i | 0 <= i < |t.order|
      ensures t.start <= t.order[i].vaddr && t.order[i].vaddr + t.order[i].size <= t.stop && t.order[i].size > 0 {
      assert t.order[i] in t.order && t.order[i] == old(t.order)[if i < k then i else i + 1];
    }
    t.StillApart(k);
  }

  /** The whole entry goes. */
  method DropEntry(t: Tree, e: Entry)
    requires Sound(t) && e in t.nodes
    modifies t`root, t`order, t`nodes, t`gaps, t.nodes`lo, t.nodes`idx, t.nodes`hi
    modifies t.nodes`left, t.nodes`right, t.nodes`parent, t.nodes`lmaxgap, t.nodes`rmaxgap, t.nodes`color, t.nodes`bh
    ensures Sound(t) && Painted(t, e.vaddr, e.size, Unmapped) && t.nodes == old(t.nodes) - {e}
    ensures old(Slotted(t)) ==> Slotted(t) && Seated(t, old(Places(t)), e.vaddr, e.size)
  {
    ghost var k := e.idx;
    t.ExactIsExactOffGaps(k, k + 1);
    Remove(t, e);
    assert Kept(t.order);
    TakenApart(t, k);
    forall a: nat ensures At(t, a) == if e.vaddr <= a < e.vaddr + e.size then Unmapped else old(At(t, a)) {
      TakenAt(t, k, a);
    }
    if old(Slotted(t)) { SeatsKept(t, null, e.vaddr, e.size); }
  }

  /** The front of e goes. */
  method TrimFront(t: Tree, e: Entry, size: nat)
    requires Sound(t) && e in t.nodes && 0 < size < e.size
    modifies t`gaps, e`vaddr, e`size, e`aoffs, t.nodes`lmaxgap, t.nodes`rmaxgap
    ensures Sound(t) && Painted(t, old(e.vaddr), size, Unmapped)
    ensures e.vaddr == old(e.vaddr) + size && e.size == old(e.size) - size
    ensures old(Slotted(t)) ==> Slotted(t) && Seated(t, old(Places(t)), old(e.vaddr), size)
  {
    ForwardStart(t, e, size);
    if old(Slotted(t)) { SeatsKept(t, null, old(e.vaddr), size); }
  }

  method ForwardStart(t: Tree, e: Entry, size: nat)
    requires Sound(t) && e in t.nodes && 0 < size < e.size
    modifies t`gaps, e`vaddr, e`size, e`aoffs, t.nodes`lmaxgap, t.nodes`rmaxgap
    ensures Sound(t) && Painted(t, old(e.vaddr), size, Unmapped)
    ensures e.vaddr == old(e.vaddr) + size && e.size == old(e.size) - size && e.aoffs == old(e.aoffs) + size
  {
    e.aoffs := e.aoffs + size;
    PullStart(t, e, size);
  }

  method PullStart(t: Tree, e: Entry, size: nat)
    requires Sound(t) && e in t.nodes && 0 < size < e.size
    modifies t`gaps, e`vaddr, e`size, t.nodes`lmaxgap, t.nodes`rmaxgap
    ensures Sound(t) && Painted(t, old(e.vaddr), size, Unmapped)
    ensures e.vaddr == old(e.vaddr) + size && e.size == old(e.size) - size
  {
    assert t.Down(e);
    assert e.idx > 0 ==> Ends(t.order, e.idx - 1, e.idx);
    var prev := Prev(t, e);
    var shift: int := size;
    MoveStart(t, e, prev, -shift);
    assert Reshaped(t, e.idx);
    CutPaints(t, e, e.idx, old(e.vaddr), size);
  }

  /** The tail of e goes. */
  method TrimTail(t: Tree, e: Entry, size: nat)
    requires Sound(t) && e in t.nodes && 0 < size < e.size
    modifies t`gaps, e`size, t.nodes`lmaxgap, t.nodes`rmaxgap
    ensures Sound(t) && Painted(t, old(e.vaddr + e.size) - size, size, Unmapped) && e.size == old(e.size) - size
    ensures old(Slotted(t)) ==> Slotted(t) && Seated(t, old(Places(t)), old(e.vaddr + e.size) - size, size)
  {
    PullEnd(t, e, size);
    if old(Slotted(t)) { SeatsKept(t, null, e.vaddr + e.size, size); }
  }

  method PullEnd(t: Tree, e: Entry, size: nat)
    requires Sound(t) && e in t.nodes && 0 < size < e.size
    modifies t`gaps, e`size, t.nodes`lmaxgap, t.nodes`rmaxgap
    ensures Sound(t) && Painted(t, old(e.vaddr + e.size) - size, size, Unmapped) && e.size == old(e.size) - size
  {
    assert t.Down(e);
    assert e.idx + 1 < |t.order| ==> Ends(t.order, e.idx, e.idx + 1);
    var next := Next(t, e);
    var shift: int := size;
    MoveEnd(t, e, next, -shift);
    assert Reshaped(t, e.idx);
    CutPaints(t, e, e.idx, e.vaddr + e.size, size);
  }

  /** How far into the object of e address a is. */
  ghost function OffsAt(e: Entry, a: nat): int
    reads e`offs, e`vaddr
  {
    if e.offs == -1 then -1 else e.offs + (a - e.vaddr)
  }

  /** The second half of a split takes over what e maps there. */
  method FillHalf(s: Entry, e: Entry, vaddr: nat, size: nat)
    requires s != e && e.vaddr < vaddr + size
    modifies s`flags, s`prot, s`obj, s`offs, s`vaddr, s`size, s`aoffs, s`amap
    ensures CellOf(s) == CellOf(e) && s.amap == e.amap
    ensures s.vaddr == (vaddr + size) % WORD && s.size == (e.vaddr + e.size - vaddr - size) % WORD
    ensures s.aoffs - e.aoffs == vaddr + size - e.vaddr
    ensures s.offs == OffsAt(e, vaddr + size)
  {
    s.flags, s.prot, s.obj := e.flags, e.prot, e.obj;
    s.offs := if e.offs == -1 then -1 else e.offs + (vaddr + size - e.vaddr);
    s.vaddr := (vaddr + size) % WORD;
    s.size := (e.vaddr + e.size - vaddr - size) % WORD;
    s.aoffs := e.aoffs + (vaddr + size - e.vaddr);
    s.amap := e.amap;
  }

  /** The middle of e is cut out along with its tail; the tail comes back as an entry of its own. */
  method CutMiddle(t: Tree, e: Entry, vaddr: nat, size: nat)
    requires Sound(t) && e in t.nodes && e.vaddr < vaddr && vaddr + size < e.vaddr + e.size
    modifies t`gaps, e`size, t.nodes`lmaxgap, t.nodes`rmaxgap
    ensures Keyed(t) && t.Disjoint() && Bounded(t) && t.ExactOffGaps(e.idx + 1, e.idx + 1)
    ensures e.vaddr + e.size == vaddr && Painted(t, vaddr, old(e.vaddr + e.size) - vaddr, Unmapped)
  {
    assert t.Down(e);
    t.ExactIsExactOffGaps(e.idx + 1, e.idx + 1);
    CutEnd(t, e, vaddr - e.vaddr, size);
    assert Reshaped(t, e.idx);
    CutPaints(t, e, e.idx, vaddr, old(e.vaddr + e.size) - vaddr);
  }

  /** Behind the cut there is room for the second half, and that is the only place it fits. */
  lemma RoomBehind(t: Tree, e: Entry, s: Entry)
    requires t.Shape() && t.Disjoint() && Bounded(t) && e in t.nodes && e.vaddr + e.size <= s.vaddr && s.size > 0
    requires s.vaddr + s.size <= if e.idx + 1 < |t.order| && 0 <= e.idx then t.order[e.idx + 1].vaddr else t.stop
    ensures Room(t, s.vaddr, s.size)
    ensures forall k | Between(t, s, k) :: k == e.idx + 1
  {
    assert t.Down(e);
    t.Around(e.idx);
    if e.idx + 1 < |t.order| { t.Around(e.idx + 1); }
  }

  lemma ReadyBehind(t: Tree, e: Entry, s: Entry)
    requires t.Shape() && t.Blacks(Settled) && t.Reds(null)
    requires (t.root != null ==> t.root in t.nodes && t.root.color == Black)
    requires Keyed(t) && t.Disjoint() && Bounded(t) && e in t.nodes && s !in t.nodes && s.size > 0
    requires e.vaddr + e.size <= s.vaddr && t.ExactOffGaps(e.idx + 1, e.idx + 1)
    requires s.vaddr + s.size <= if e.idx + 1 < |t.order| && 0 <= e.idx then t.order[e.idx + 1].vaddr else t.stop
    ensures Ready(t, s) && Room(t, s.vaddr, s.size)
  {
    RoomBehind(t, e, s);
  }

  /** The cut leaves the map ready for the second half s. */
  method CutReady(t: Tree, e: Entry, vaddr: nat, size: nat, ghost s: Entry)
    requires Sound(t) && e in t.nodes && s !in t.nodes && e.vaddr < vaddr && vaddr + size < e.vaddr + e.size
    requires s.vaddr == vaddr + size && s.vaddr + s.size == e.vaddr + e.size
    modifies t`gaps, e`size, t.nodes`lmaxgap, t.nodes`rmaxgap
    ensures Ready(t, s) && Bounded(t) && Room(t, s.vaddr, s.size) && e.size == vaddr - e.vaddr
    ensures Painted(t, vaddr, old(e.vaddr + e.size) - vaddr, Unmapped)
  {
    assert t.Down(e);
    assert e.idx + 1 < |t.order| ==> Ends(t.order, e.idx, e.idx + 1);
    CutMiddle(t, e, vaddr, size);
    ReadyBehind(t, e, s);
  }

  method SplitApart(t: Tree, e: Entry, vaddr: nat, size: nat, s: Entry)
    requires Sound(t) && e in t.nodes && s !in t.nodes && e.vaddr < vaddr && vaddr + size < e.vaddr + e.size
    requires s.vaddr == vaddr + size && s.vaddr + s.size == e.vaddr + e.size && CellOf(s) == CellOf(e)
    modifies t`root, t`order, t`nodes, t`gaps, s`left, s`right, s`parent, s`lo, s`idx, s`hi, s`lmaxgap, s`rmaxgap
    modifies s`color, s`bh
    modifies t.nodes`left, t.nodes`right, t.nodes`parent, t.nodes`lo, t.nodes`idx, t.nodes`hi, t.nodes`lmaxgap
    modifies t.nodes`rmaxgap
    modifies t.nodes`color, t.nodes`bh, e`size
    ensures Sound(t) && Painted(t, vaddr, size, Unmapped) && e.size == vaddr - e.vaddr && t.nodes == old(t.nodes) + {s}
  {
    assert t.Down(e);
    CutReady(t, e, vaddr, size, s);
    label C:
    AddEntry(t, s);
    forall a: nat ensures At(t, a) == if vaddr <= a < vaddr + size then Unmapped else old(At(t, a)) {
      assert old@C(At(t, a)) == if vaddr <= a < old(e.vaddr + e.size) then Unmapped else old(At(t, a));
      if old(Covers(e, a)) { WasEntry(t, a, old(e.idx)); }
    }
  }

  /** The middle of e goes; s is ready to take over behind it. */
  method SplitFilled(t: Tree, e: Entry, vaddr: nat, size: nat, s: Entry)
    requires Sound(t) && e in t.nodes && s !in t.nodes && e.vaddr < vaddr && vaddr + size < e.vaddr + e.size
    requires s.vaddr == vaddr + size && s.vaddr + s.size == e.vaddr + e.size && CellOf(s) == CellOf(e)
    modifies t`root, t`order, t`nodes, t`gaps, s`left, s`right, s`parent, s`lo, s`idx, s`hi, s`lmaxgap, s`rmaxgap
    modifies s`color, s`bh
    modifies t.nodes`left, t.nodes`right, t.nodes`parent, t.nodes`lo, t.nodes`idx, t.nodes`hi, t.nodes`lmaxgap
    modifies t.nodes`rmaxgap
    modifies t.nodes`color, t.nodes`bh, e`size
    ensures Sound(t) && Painted(t, vaddr, size, Unmapped) && e.size == vaddr - e.vaddr && t.nodes == old(t.nodes) + {s}
    ensures old(Slotted(t)) && s.amap == e.amap && Base(s) == Base(e) ==>
      Slotted(t) && Seated(t, old(Places(t)), vaddr, size)
  {
    SplitApart(t, e, vaddr, size, s);
    if old(Slotted(t)) && s.amap == e.amap && Base(s) == Base(e) { Halved(t, e, s, vaddr, size); }
  }

  /** Filling in the second half, which is not in the map yet, changes nothing in it. */
  method HalfApart(t: Tree, s: Entry, e: Entry, vaddr: nat, size: nat)
    requires Sound(t) && e in t.nodes && s !in t.nodes && e.vaddr < vaddr && vaddr + size < e.vaddr + e.size
    modifies s`flags, s`prot, s`obj, s`offs, s`vaddr, s`size, s`aoffs, s`amap
    ensures Sound(t) && Places(t) == old(Places(t)) && Slotted(t) == old(Slotted(t))
    ensures forall a: nat {:trigger At(t, a)} :: At(t, a) == old(At(t, a))
    ensures CellOf(s) == CellOf(e) && s.amap == e.amap && Base(s) == Base(e) && s.offs == OffsAt(e, vaddr + size)
    ensures s.vaddr == vaddr + size && s.vaddr + s.size == e.vaddr + e.size
  {
    assert s !in t.order && t.Down(e);
    FillHalf(s, e, vaddr, size);
  }

  method SplitEntry(t: Tree, e: Entry, vaddr: nat, size: nat, s: Entry)
    requires Sound(t) && e in t.nodes && s !in t.nodes && e.vaddr < vaddr && vaddr + size < e.vaddr + e.size
    modifies t`root, t`order, t`nodes, t`gaps, s
    modifies t.nodes`left, t.nodes`right, t.nodes`parent, t.nodes`lo, t.nodes`idx, t.nodes`hi, t.nodes`lmaxgap
    modifies t.nodes`rmaxgap
    modifies t.nodes`color, t.nodes`bh, e`size
    ensures Sound(t) && Painted(t, vaddr, size, Unmapped) && t.nodes == old(t.nodes) + {s}
    ensures e.size == vaddr - e.vaddr && s.vaddr == vaddr + size && s.size == old(e.vaddr + e.size) - s.vaddr
    ensures s.offs == OffsAt(e, s.vaddr)
    ensures old(Slotted(t)) ==> Slotted(t) && Seated(t, old(Places(t)), vaddr, size)
  {
    HalfApart(t, s, e, vaddr, size);
    label F:
    SplitFilled(t, e, vaddr, size, s);
    forall a: nat ensures At(t, a) == if vaddr <= a < vaddr + size then Unmapped else old(At(t, a)) {
      assert old@F(At(t, a)) == old(At(t, a));
    }
  }

  ghost predicate Meets(e: Entry, vaddr: nat, size: nat)
    reads e`vaddr, e`size
  {
    e.vaddr < vaddr + size && vaddr < e.vaddr + e.size
  }

  /** The range lies inside whatever entry it meets. */
  ghost predicate Within(t: Tree, vaddr: nat, size: nat)
    reads t`nodes, t.nodes`vaddr, t.nodes`size
  {
    forall e | e in t.nodes && Meets(e, vaddr, size) :: e.vaddr <= vaddr && vaddr + size <= e.vaddr + e.size
  }

  /** lib_rbFind with a probe on the stack. */
  method Lookup(t: Tree, vaddr: nat, size: nat) returns (e: Entry?)
    requires t.Shape() && t.Disjoint()
    ensures e != null ==> e in t.nodes && Meets(e, vaddr, size)
    ensures e == null ==> forall x | x in t.nodes :: !Meets(x, vaddr, size)
  {
    var probe := new Entry(vaddr, size);
    e := RbWalk.Find(t, probe);
    if e == null {
      forall x | x in t.nodes ensures !Meets(x, vaddr, size) {
        assert !Overlap(x, probe);
      }
    }
  }

  datatype Span = Span(vaddr: nat, size: nat)

  predicate InSpan(s: Span, a: nat) {
    s.vaddr <= a < s.vaddr + s.size
  }

  /** What the branches of _vm_munmap leave of an entry, in the arithmetic of size_t. */
  function Remains(e: Span, vaddr: nat, size: nat): seq<Span> {
    if e.vaddr == vaddr then
      if e.size == size then [] else [Span((e.vaddr + size) % WORD, (e.size - size) % WORD)]
    else if (e.vaddr + e.size) % WORD == (vaddr + size) % WORD then
      [Span(e.vaddr, (e.size - size) % WORD)]
    else
      [Span(e.vaddr, (vaddr - e.vaddr) % WORD), Span((vaddr + size) % WORD, (e.vaddr + e.size - vaddr - size) % WORD)]
  }

  /** Inside an entry of the map nothing wraps around. */
  lemma RemainsInside(t: Tree, e: Entry, vaddr: nat, size: nat)
    requires Sound(t) && e in t.nodes && Meets(e, vaddr, size) && e.vaddr <= vaddr && vaddr + size <= e.vaddr + e.size
    ensures Remains(Span(e.vaddr, e.size), vaddr, size) ==
      if e.vaddr == vaddr then if e.size == size then [] else [Span(e.vaddr + size, e.size - size)]
      else if e.vaddr + e.size == vaddr + size then [Span(e.vaddr, e.size - size)]
      else [Span(e.vaddr, vaddr - e.vaddr), Span(vaddr + size, e.vaddr + e.size - vaddr - size)]
  {
    assert t.Down(e);
    Wraps(e.vaddr + size);
    Wraps(e.size - size);
    Wraps(e.vaddr + e.size);
    Wraps(vaddr + size);
    Wraps(vaddr - e.vaddr);
    Wraps(e.vaddr + e.size - vaddr - size);
  }

  /** What is left of entry e: r[0] in e itself, r[1] in s. */
  ghost predicate LeftOf(t: Tree, e: Entry, s: Entry?, r: seq<Span>)
    reads t`nodes, e`vaddr, e`size, Just(s)`vaddr, Just(s)`size
  {
    && (|r| == 0 ==> e !in t.nodes)
    && (|r| > 0 ==> e in t.nodes && Span(e.vaddr, e.size) == r[0])
    && (|r| > 1 ==> s != null && s in t.nodes && Span(s.vaddr, s.size) == r[1])
  }

  /**
   What these branches write to the entries, for any range that meets the entry: it and the second half then
   cover what Remains says.  rest is the number of entries left of it.
   */
  method Narrow(e: Entry, vaddr: nat, size: nat, spare: Entry?) returns (r: int, rest: nat)
    requires e != spare && Meets(e, vaddr, size)
    modifies e`vaddr, e`size, Just(spare)`flags, Just(spare)`prot, Just(spare)`obj, Just(spare)`offs
    modifies Just(spare)`vaddr, Just(spare)`size, Just(spare)`aoffs, Just(spare)`amap
    ensures r == EOK || (r == ENOMEM && spare == null && unchanged(e))
    ensures r == EOK ==> rest == |old(Remains(Span(e.vaddr, e.size), vaddr, size))|
    ensures r == EOK && rest > 0 ==> Span(e.vaddr, e.size) == old(Remains(Span(e.vaddr, e.size), vaddr, size))[0]
    ensures r == EOK && rest > 1 ==>
      spare != null && Span(spare.vaddr, spare.size) == old(Remains(Span(e.vaddr, e.size), vaddr, size))[1]
  {
    r, rest := EOK, 1;
    if e.vaddr == vaddr {
      if e.size == size {
        rest := 0;
      } else {
        WriteStart(e, -(size as int));
      }
    } else if (e.vaddr + e.size) % WORD == (vaddr + size) % WORD {
      WriteEnd(e, -(size as int));
    } else {
      if spare == null {
        return ENOMEM, 0;
      }
      FillHalf(spare, e, vaddr, size);
      WriteCut(e, vaddr - e.vaddr);
      rest := 2;
    }
  }

  /** The branches of _vm_munmap for the entry found; spare is what map_alloc returns. */
  method CutOut(t: Tree, e: Entry, vaddr: nat, size: nat, spare: Entry?) returns (r: int)
    requires Sound(t) && e in t.nodes && Meets(e, vaddr, size) && e.vaddr <= vaddr && vaddr + size <= e.vaddr + e.size
    requires spare != null ==> spare !in t.nodes
    modifies t`root, t`order, t`nodes, t`gaps, t.nodes`left, t.nodes`right, t.nodes`parent, t.nodes`lo, t.nodes`idx
    modifies t.nodes`hi
    modifies t.nodes`lmaxgap, t.nodes`rmaxgap, t.nodes`color, t.nodes`bh, e`vaddr, e`size, e`aoffs, Just(spare)
    ensures r == EOK || (r == ENOMEM && spare == null && unchanged(t) && unchanged(t.nodes))
    ensures r == EOK ==> Sound(t) && Painted(t, vaddr, size, Unmapped)
    ensures r == EOK ==> LeftOf(t, e, spare, old(Remains(Span(e.vaddr, e.size), vaddr, size)))
    ensures r == EOK && spare != null && spare in t.nodes ==> spare.offs == OffsAt(e, spare.vaddr)
    ensures r == EOK && old(Slotted(t)) ==> Slotted(t) && Seated(t, old(Places(t)), vaddr, size)
  {
    RemainsInside(t, e, vaddr, size);
    r := EOK;
    if e.vaddr == vaddr {
      if e.size == size {
        DropEntry(t, e);
      } else {
        TrimFront(t, e, size);
      }
    } else if e.vaddr + e.size == vaddr + size {
      TrimTail(t, e, size);
    } else {
      if spare == null {
        return ENOMEM;
      }
      SplitEntry(t, e, vaddr, size, spare);
    }
  }

  /**
   _vm_munmap.  found is the entry that lib_rbFind gives.  A range inside one entry is unmapped and
   nothing else changes; a range that meets no entry is refused; on an error the entries are untouched.
   */
  method Unmap(t: Tree, vaddr: nat, size: nat, spare: Entry?) returns (r: int, ghost found: Entry?)
    requires Sound(t) && Within(t, vaddr, size) && (spare != null ==> spare !in t.nodes)
    modifies t`root, t`order, t`nodes, t`gaps, t.nodes`left, t.nodes`right, t.nodes`parent, t.nodes`lo, t.nodes`idx
    modifies t.nodes`hi
    modifies t.nodes`lmaxgap, t.nodes`rmaxgap, t.nodes`color, t.nodes`bh, t.nodes`vaddr, t.nodes`size, t.nodes`aoffs
    modifies Just(spare)
    ensures r == EOK || r == EINVAL || r == ENOMEM
    ensures r == EINVAL <==> forall e | e in old(t.nodes) :: !old(Meets(e, vaddr, size))
    ensures r == ENOMEM ==> spare == null
    ensures r != EOK ==> unchanged(t) && unchanged(t.nodes)
    ensures r == EOK ==> Sound(t) && Painted(t, vaddr, size, Unmapped) && found != null && found in old(t.nodes)
    ensures r == EOK ==> LeftOf(t, found, spare, old(Remains(Span(found.vaddr, found.size), vaddr, size)))
    ensures r == EOK && spare != null && spare in t.nodes ==> spare.offs == OffsAt(found, spare.vaddr)
    ensures r == EOK && old(Slotted(t)) ==> Slotted(t) && Seated(t, old(Places(t)), vaddr, size)
    ensures r == EOK && old(Slotted(t)) ==> forall a: nat {:trigger AnonAt(t, a)} ::
      AnonAt(t, a) == if vaddr <= a < vaddr + size then 0 else old(AnonAt(t, a))
  {
    var e := Lookup(t, vaddr, size);
    if e == null {
      return EINVAL, null;
    }
    found := e;
    r := CutOut(t, e, vaddr, size, spare);
    if r == EOK && old(Slotted(t)) { Vacated(t, vaddr, size); }
  }

  /** The pages of what is left are those it had. */
  twostate lemma Vacated(t: Tree, new vaddr: nat, new size: nat)
    requires old(t.Shape()) && old(t.Disjoint()) && t.Shape() && t.Disjoint()
    requires Seated(t, old(Places(t)), vaddr, size) && Painted(t, vaddr, size, Unmapped)
    requires forall m | m in old(Amaps(t)) :: m[..] == old(m[..])
    ensures forall a: nat {:trigger AnonAt(t, a)} ::
      AnonAt(t, a) == if vaddr <= a < vaddr + size then 0 else old(AnonAt(t, a))
  {
    forall a: nat ensures AnonAt(t, a) == if vaddr <= a < vaddr + size then 0 else old(AnonAt(t, a)) {
      if vaddr <= a < vaddr + size {
        assert At(t, a) == Unmapped;
        Uncovered(t, a);
      } else {
        PageKept(t, vaddr, size, a);
      }
    }
  }

  /* ---- ranges that do not lie inside the entry found ---- */

  /** The entry without the range is what is left, address by address. */
  ghost predicate Cleared(e: Span, vaddr: nat, size: nat) {
    forall a: nat {:trigger InSpan(e, a)} ::
      (exists i | 0 <= i < |Remains(e, vaddr, size)| :: InSpan(Remains(e, vaddr, size)[i], a)) <==>
        (InSpan(e, a) && !(vaddr <= a < vaddr + size))
  }

  lemma Wraps(x: int)
    requires 0 <= x + WORD && x <= WORD
    ensures x % WORD == if x < 0 then x + WORD else if x < WORD then x else 0
  {
  }

  lemma InsideCleared(e: Span, vaddr: nat, size: nat)
    requires 0 < e.size && e.vaddr + e.size < WORD && 0 < size && e.vaddr <= vaddr && vaddr + size <= e.vaddr + e.size
    ensures Cleared(e, vaddr, size)
  {
    var r := Remains(e, vaddr, size);
    Wraps(e.vaddr + size);
    Wraps(e.size - size);
    Wraps(e.vaddr + e.size);
    Wraps(vaddr + size);
    Wraps(vaddr - e.vaddr);
    Wraps(e.vaddr + e.size - vaddr - size);
    assert |r| == 2 ==> r == [Span(e.vaddr, vaddr - e.vaddr), Span(vaddr + size, e.vaddr + e.size - vaddr - size)];
    forall a: nat ensures (exists i | 0 <= i < |r| :: InSpan(r[i], a)) <==>
      (InSpan(e, a) && !(vaddr <= a < vaddr + size)) {
      assert |r| > 0 && InSpan(r[0], a) ==> exists i | 0 <= i < |r| :: InSpan(r[i], a);
      assert |r| > 1 && InSpan(r[1], a) ==> exists i | 0 <= i < |r| :: InSpan(r[i], a);
    }
  }

  lemma OutsideNotCleared(e: Span, vaddr: nat, size: nat)
    requires 0 < e.vaddr && 0 < e.size && e.vaddr + e.size < WORD && 0 < size && vaddr + size <= WORD
    requires e.vaddr < vaddr + size && vaddr < e.vaddr + e.size
    requires !(e.vaddr <= vaddr && vaddr + size <= e.vaddr + e.size)
    ensures !Cleared(e, vaddr, size)
  {
    var r := Remains(e, vaddr, size);
    Wraps(e.size - size);
    Wraps(e.vaddr + e.size);
    Wraps(vaddr + size);
    Wraps(vaddr - e.vaddr);
    Wraps(e.vaddr + e.size - vaddr - size);
    if e.vaddr <= vaddr {
      var x := (vaddr + size) % WORD;
      assert InSpan(r[|r| - 1], x);
      assert InSpan(e, x) ==> vaddr <= x < vaddr + size;
    } else {
      assert InSpan(r[0], e.vaddr);
      assert InSpan(e, e.vaddr) && vaddr <= e.vaddr < vaddr + size;
    }
  }

  /** Unmapping two pages where only the first is mapped leaves an entry that wraps around the end of memory. */
  lemma Overshoot()
    ensures Remains(Span(0x1000, 0x1000), 0x1000, 0x2000) == [Span(0x3000, WORD - 0x1000)]
    ensures !Cleared(Span(0x1000, 0x1000), 0x1000, 0x2000)
  {
    OutsideNotCleared(Span(0x1000, 0x1000), 0x1000, 0x2000);
  }

  /** The field arithmetic of _vm_munmap is right exactly for the ranges inside the entry. */
  lemma ClearedIffInside(e: Span, vaddr: nat, size: nat)
    requires 0 < e.vaddr && 0 < e.size && e.vaddr + e.size < WORD && 0 < size && vaddr + size <= WORD
    requires e.vaddr < vaddr + size && vaddr < e.vaddr + e.size
    ensures Cleared(e, vaddr, size) <==> e.vaddr <= vaddr && vaddr + size <= e.vaddr + e.size
  {
    if e.vaddr <= vaddr && vaddr + size <= e.vaddr + e.size {
      InsideCleared(e, vaddr, size);
    } else {
      OutsideNotCleared(e, vaddr, size);
    }
  }
}
