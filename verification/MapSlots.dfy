/**
 The slots that entries have in their amaps (vm/amap.c).  Neighbouring entries may share an amap; the page of
 address a is in the slot that lies as far from slot 0 as a lies from the base of its entry.
 */
module MapSlots {
  import opened Kernel
  import opened GapTree
  import opened MapFind
  import opened MapView

  /** The address that slot 0 of e's amap would be for. */
  ghost function Base(e: Entry): int
    reads e`vaddr, e`aoffs
  {
    e.vaddr - e.aoffs
  }

  ghost function SlotOf(e: Entry, a: nat): int
    reads e`vaddr, e`aoffs
  {
    (a - Base(e)) / SIZE_PAGE
  }

  /** Where an entry is, and its slots. */
  datatype Place = Place(vaddr: nat, size: nat, amap: array?<nat>, base: int)

  ghost predicate Spans(p: Place, a: nat) {
    p.vaddr <= a < p.vaddr + p.size
  }

  ghost function PlaceOf(e: Entry): Place
    reads e`vaddr, e`size, e`amap, e`aoffs
  {
    Place(e.vaddr, e.size, e.amap, Base(e))
  }

  /** The slots of an entry at p lie inside its amap. */
  ghost predicate Fitting(p: Place) {
    p.amap != null ==>
      p.vaddr + p.size - p.base <= SIZE_PAGE * p.amap.Length < WORD && p.base <= p.vaddr && p.base % SIZE_PAGE == 0
  }

  ghost predicate InAmap(e: Entry)
    reads e`vaddr, e`size, e`amap, e`aoffs
  {
    Fitting(PlaceOf(e))
  }

  /** Entries that share an amap share its base. */
  ghost predicate Agree(e: Entry, f: Entry)
    reads e`vaddr, e`amap, e`aoffs, f`vaddr, f`amap, f`aoffs
  {
    e.amap == f.amap && e.amap != null ==> Base(e) == Base(f)
  }

  ghost predicate InSlots(s: set<Entry>)
    reads s`vaddr, s`size, s`amap, s`aoffs
  {
    && (forall e {:trigger InAmap(e)} | e in s :: InAmap(e))
    && (forall e, f {:trigger Agree(e, f)} | e in s && f in s :: Agree(e, f))
  }

  ghost predicate Slotted(t: Tree)
    reads t`nodes, t.nodes`vaddr, t.nodes`size, t.nodes`amap, t.nodes`aoffs
  {
    InSlots(t.nodes)
  }

  /** Two addresses have the same slot of an amap exactly if they are on the same page, and it is a slot it has. */
  lemma SlotsApart(t: Tree, e: Entry, a: nat, f: Entry, b: nat)
    requires Slotted(t) && e in t.nodes && f in t.nodes && Covers(e, a) && Covers(f, b)
    requires e.amap == f.amap && e.amap != null
    ensures 0 <= SlotOf(e, a) < e.amap.Length
    ensures SlotOf(e, a) == SlotOf(f, b) <==> a / SIZE_PAGE == b / SIZE_PAGE
  {
    assert InAmap(e) && Agree(e, f);
    var k := Base(e) / SIZE_PAGE;
    assert Base(e) == SIZE_PAGE * k;
  }

  /** e now stands where f stood: over the same amap, with the same base. */
  twostate predicate SameSeat(new e: Entry, f: Entry)
    reads e`vaddr, e`amap, e`aoffs
  {
    e.amap == old(f.amap) && (e.amap != null ==> Base(e) == old(Base(f)))
  }

  ghost function Places(t: Tree): map<Entry, Place>
    reads t`nodes, t.nodes`vaddr, t.nodes`size, t.nodes`amap, t.nodes`aoffs
  {
    map e | e in t.nodes :: PlaceOf(e)
  }

  /** e has the slots that an entry at p had. */
  ghost predicate Sits(e: Entry, p: Place)
    reads e`vaddr, e`amap, e`aoffs
  {
    e.amap == p.amap && (e.amap != null ==> Base(e) == p.base)
  }

  /** Outside [lo, lo+size) every address that is still covered has the slot it had. */
  ghost predicate Seated(t: Tree, was: map<Entry, Place>, lo: nat, size: nat)
    reads t`nodes, t.nodes`vaddr, t.nodes`size, t.nodes`amap, t.nodes`aoffs
  {
    forall e, f, a: nat {:trigger Covers(e, a), Spans(was[f], a)}
      | e in t.nodes && f in was && !(lo <= a < lo + size) && Covers(e, a) && Spans(was[f], a) :: Sits(e, was[f])
  }

  /** At most one entry covers an address. */
  lemma OneCovers(t: Tree, e: Entry, f: Entry, a: nat)
    requires t.Shape() && t.Disjoint() && e in t.nodes && f in t.nodes && Covers(e, a) && Covers(f, a)
    ensures e == f
  {
    assert t.Down(e) && t.Down(f);
    assert e.idx < f.idx ==> Ends(t.order, e.idx, f.idx);
    assert f.idx < e.idx ==> Ends(t.order, f.idx, e.idx);
  }

  /** x was there, covers no more than it did, and has the slots it had. */
  twostate predicate Shrunk(x: Entry)
    reads x`vaddr, x`size, x`amap, x`aoffs
  {
    SameSeat(x, x) && old(x.vaddr) <= x.vaddr && x.vaddr + x.size <= old(x.vaddr + x.size)
  }

  /** e, which may be new, fits in with the slots there were. */
  twostate predicate FitsIn(t: Tree, new e: Entry, new lo: nat, new size: nat)
    reads e`vaddr, e`size, e`amap, e`aoffs
  {
    && InAmap(e)
    && (forall f | f in old(t.nodes) && e.amap == old(f.amap) && e.amap != null :: Base(e) == old(Base(f)))
    && (forall f, a: nat {:trigger Covers(e, a), old(Covers(f, a))}
          | f in old(t.nodes) && !(lo <= a < lo + size) && Covers(e, a) && old(Covers(f, a)) :: SameSeat(e, f))
  }

  /** When entries go, shrink or stay, and one other fits in, the slots are as they should be. */
  twostate lemma SeatsKept(t: Tree, new e: Entry?, new lo: nat, new size: nat)
    requires old(t.Shape()) && old(t.Disjoint()) && old(Slotted(t))
    requires forall x | x in t.nodes && x != e :: x in old(t.nodes) && Shrunk(x)
    requires e != null && e in t.nodes ==> FitsIn(t, e, lo, size)
    ensures Slotted(t) && Seated(t, old(Places(t)), lo, size)
  {
    forall x | x in t.nodes ensures InAmap(x) {
      if x != e { assert Shrunk(x) && old(InAmap(x)); }
    }
    forall x, y | x in t.nodes && y in t.nodes ensures Agree(x, y) {
      if x != e { assert Shrunk(x); }
      if y != e { assert Shrunk(y); }
      if x != e && y != e { assert old(Agree(x, y)); }
    }
    var was := old(Places(t));
    forall x, f, a: nat | x in t.nodes && f in was && !(lo <= a < lo + size) && Covers(x, a) && Spans(was[f], a)
      ensures Sits(x, was[f]) {
      assert old(Covers(f, a)) && was[f] == old(PlaceOf(f));
      if x != e {
        assert Shrunk(x) && old(Covers(x, a));
        WasOne(t, x, f, a);
      }
    }
  }

  twostate lemma WasOne(t: Tree, new e: Entry, new f: Entry, new a: nat)
    requires old(t.Shape()) && old(t.Disjoint()) && e in old(t.nodes) && f in old(t.nodes)
    requires old(Covers(e, a)) && old(Covers(f, a))
    ensures e == f
  {
    assert old(t.Down(e)) && old(t.Down(f));
    assert old(e.idx < f.idx ==> Ends(t.order, e.idx, f.idx));
    assert old(f.idx < e.idx ==> Ends(t.order, f.idx, e.idx));
  }

  /** An entry that grew over the range, and perhaps over the entry behind it. */
  twostate lemma GrownFitsIn(t: Tree, new e: Entry, new next: Entry?, new lo: nat, new size: nat)
    requires old(t.Shape()) && old(t.Disjoint()) && old(Slotted(t)) && e in old(t.nodes) && SameSeat(e, e) && InAmap(e)
    requires next != null ==> next in old(t.nodes) && SameSeat(e, next)
    requires forall a: nat | Covers(e, a) && !(lo <= a < lo + size) ::
      old(Covers(e, a)) || (next != null && old(Covers(next, a)))
    ensures FitsIn(t, e, lo, size)
  {
    forall f | f in old(t.nodes) && e.amap == old(f.amap) && e.amap != null ensures Base(e) == old(Base(f)) {
      assert old(Agree(e, f));
    }
    forall f, a: nat | f in old(t.nodes) && !(lo <= a < lo + size) && Covers(e, a) && old(Covers(f, a))
      ensures SameSeat(e, f) {
      if old(Covers(e, a)) { WasOne(t, e, f, a); } else { WasOne(t, next, f, a); }
    }
  }

  /** There are slots for the range behind those of an entry at p, or before them. */
  ghost predicate LeftSlots(p: Place, size: nat) {
    p.amap == null || p.vaddr + p.size + size - p.base <= SIZE_PAGE * p.amap.Length
  }

  ghost predicate RightSlots(p: Place, size: nat) {
    p.amap == null || size <= p.vaddr - p.base
  }

  /** Of the entries only e changed its range. */
  twostate predicate OnlyMoved(t: Tree, new e: Entry)
    reads t`nodes, t.nodes`vaddr, t.nodes`size, t.nodes`amap, t.nodes`aoffs
  {
    && e in t.nodes && t.nodes <= old(t.nodes)
    && forall x | x in t.nodes ::
      x.amap == old(x.amap) && (x != e ==> x.vaddr == old(x.vaddr) && x.size == old(x.size) && x.aoffs == old(x.aoffs))
  }

  /** Growing an entry to the right keeps the slots exactly if its amap has slots for what it grows over. */
  twostate lemma GrownRight(t: Tree, new e: Entry, new size: nat)
    requires old(t.Shape()) && old(t.Disjoint()) && old(Slotted(t)) && OnlyMoved(t, e)
    requires e.vaddr == old(e.vaddr) && e.aoffs == old(e.aoffs) && e.size == old(e.size) + size
    ensures Slotted(t) && Seated(t, old(Places(t)), old(e.vaddr + e.size), size) <==> old(LeftSlots(PlaceOf(e), size))
  {
    assert old(InAmap(e));
    if old(LeftSlots(PlaceOf(e), size)) {
      GrownFitsIn(t, e, null, old(e.vaddr + e.size), size);
      SeatsKept(t, e, old(e.vaddr + e.size), size);
    } else {
      assert !InAmap(e);
    }
  }

  /** Growing it to the left does exactly if it has slots before those it covers. */
  twostate lemma GrownLeft(t: Tree, new e: Entry, new size: nat)
    requires old(t.Shape()) && old(t.Disjoint()) && old(Slotted(t)) && OnlyMoved(t, e) && 0 < size < WORD
    requires e.vaddr == old(e.vaddr) - size && e.size == old(e.size) + size && old(e.size) > 0
    requires e.aoffs == if old(e.aoffs) == 0 then 0 else (old(e.aoffs) - size) % WORD
    ensures Slotted(t) && Seated(t, old(Places(t)), e.vaddr, size) <==> old(RightSlots(PlaceOf(e), size))
  {
    assert old(InAmap(e));
    if old(RightSlots(PlaceOf(e), size)) {
      GrownFitsIn(t, e, null, e.vaddr, size);
      SeatsKept(t, e, e.vaddr, size);
    } else if old(e.aoffs) == 0 {
      var a := old(e.vaddr);
      assert Covers(e, a) && Spans(old(Places(t))[e], a) && !Sits(e, old(Places(t))[e]);
    } else {
      assert !InAmap(e);
    }
  }

  /** Joining two entries does exactly if they are over one amap. */
  twostate lemma Joined(t: Tree, new e: Entry, new next: Entry, new size: nat)
    requires old(t.Shape()) && old(t.Disjoint()) && old(Slotted(t)) && OnlyMoved(t, e) && next in old(t.nodes)
    requires e.vaddr == old(e.vaddr) && e.aoffs == old(e.aoffs) && e.size == old(e.size + size + next.size)
    requires old(e.vaddr + e.size) + size == old(next.vaddr) && old(next.size) > 0
    ensures Slotted(t) && Seated(t, old(Places(t)), old(e.vaddr + e.size), size) <==> old(e.amap == next.amap)
  {
    assert old(InAmap(next)) && old(Agree(e, next));
    if old(e.amap == next.amap) {
      GrownFitsIn(t, e, next, old(e.vaddr + e.size), size);
      SeatsKept(t, e, old(e.vaddr + e.size), size);
    } else {
      var a := old(next.vaddr);
      assert Covers(e, a) && Spans(old(Places(t))[next], a) && !Sits(e, old(Places(t))[next]);
    }
  }

  /** The neighbour of a range on one side, if any. */
  datatype Side = Nobody | Body(place: Place, cell: Cell, offs: int)

  ghost function SideOf(e: Entry?): Side
    reads Just(e)`vaddr, Just(e)`size, Just(e)`amap, Just(e)`aoffs
    reads Just(e)`obj, Just(e)`prot, Just(e)`flags, Just(e)`offs
  {
    if e == null then Nobody else Body(PlaceOf(e), CellOf(e), e.offs)
  }

  /** It has slots for [v, v+size) on this side; with wrap-around, the left one may look as if it had too few. */
  ghost predicate RightLends(r: Side, v: nat) {
    r.Body? && r.place.amap != null && 0 <= r.place.base <= v
  }

  ghost predicate LeftLends(l: Side, v: nat, size: nat) {
    && l.Body? && l.place.amap != null
    && var end := l.place.base + SIZE_PAGE * l.place.amap.Length;
    v + size <= if end < WORD then end else end - WORD
  }

  /** Whose amap a new entry shares, if any. */
  ghost function Lender(l: Side, r: Side, v: nat, size: nat, obj: nat): Side {
    if obj != 0 then Nobody else if RightLends(r, v) then r else if LeftLends(l, v, size) then l else Nobody
  }

  /** e has the amap of s, with the same base; or none. */
  ghost predicate Shares(e: Entry, s: Side)
    reads e`vaddr, e`amap, e`aoffs
  {
    if s.Nobody? then e.amap == null else Sits(e, s.place)
  }

  /** l and r lie on either side of [v, v+size), with their slots in order. */
  ghost predicate Tame(l: Side, r: Side, v: nat, size: nat) {
    && v + size < WORD && (l.Body? ==> Fitting(l.place) && l.place.vaddr + l.place.size <= v)
    && (r.Body? ==> Fitting(r.place) && v + size <= r.place.vaddr < WORD)
  }

  /** A new entry over the amap of a neighbour fits in. */
  lemma NewSlots(t: Tree, e: Entry, prev: Entry?, next: Entry?, obj: nat)
    requires Slotted(t) && Tame(SideOf(prev), SideOf(next), e.vaddr, e.size)
    requires Shares(e, Lender(SideOf(prev), SideOf(next), e.vaddr, e.size, obj))
    requires (prev != null ==> prev in t.nodes) && (next != null ==> next in t.nodes)
    ensures InSlots(t.nodes + {e})
  {
    if e.amap != null {
      var l := if RightLends(SideOf(next), e.vaddr) then next else prev;
      forall f | f in t.nodes ensures Agree(e, f) && Agree(f, e) { assert Agree(l, f); }
    }
  }

  /** The second half of a split entry has the slots the entry had there. */
  twostate lemma Halved(t: Tree, new e: Entry, new s: Entry, new vaddr: nat, new size: nat)
    requires old(t.Shape()) && old(t.Disjoint()) && old(Slotted(t)) && e in old(t.nodes)
    requires t.nodes == old(t.nodes) + {s}
    requires forall x | x in old(t.nodes) :: x.vaddr == old(x.vaddr) && x.amap == old(x.amap) && x.aoffs == old(x.aoffs)
    requires forall x | x in old(t.nodes) && x != e :: x.size == old(x.size)
    requires s !in old(t.nodes) && e.vaddr + e.size == vaddr && s.vaddr == vaddr + size
    requires s.vaddr + s.size == old(e.vaddr + e.size) && s.amap == e.amap && Base(s) == Base(e)
    ensures Slotted(t) && Seated(t, old(Places(t)), vaddr, size)
  {
    assert old(InAmap(e));
    forall f | f in old(t.nodes) && s.amap == old(f.amap) && s.amap != null ensures Base(s) == old(Base(f)) {
      assert old(Agree(e, f));
    }
    forall f, a: nat | f in old(t.nodes) && !(vaddr <= a < vaddr + size) && Covers(s, a) && old(Covers(f, a))
      ensures SameSeat(s, f) {
      assert old(Covers(e, a));
      WasOne(t, e, f, a);
    }
    SeatsKept(t, s, vaddr, size);
  }

  /* ---- the pages in the slots ---- */

  ghost function Amaps(t: Tree): set<array<nat>>
    reads t`nodes, t.nodes`amap
  {
    set e | e in t.nodes && e.amap != null :: e.amap
  }

  /** What slot i holds. */
  ghost function Content(m: array?<nat>, i: int): nat
    reads m
  {
    if m != null && 0 <= i < m.Length then m[i] else 0
  }

  ghost function AnonOf(e: Entry, a: nat): nat
    reads e`vaddr, e`amap, e`aoffs, e.amap
  {
    Content(e.amap, SlotOf(e, a))
  }

  /** The anonymous page behind address a, or 0. */
  ghost function AnonAt(t: Tree, a: nat): nat
    reads t`nodes, t.nodes`vaddr, t.nodes`size, t.nodes`amap, t.nodes`aoffs, Amaps(t)
  {
    if e :| e in t.nodes && Covers(e, a) then AnonOf(e, a) else 0
  }

  lemma AnonIs(t: Tree, e: Entry, a: nat)
    requires t.Shape() && t.Disjoint() && e in t.nodes && Covers(e, a)
    ensures AnonAt(t, a) == AnonOf(e, a)
  {
    forall f | f in t.nodes && Covers(f, a) ensures f == e { OneCovers(t, e, f, a); }
  }

  twostate lemma AnonWas(t: Tree, new e: Entry, new a: nat)
    requires old(t.Shape()) && old(t.Disjoint()) && e in old(t.nodes) && old(Covers(e, a))
    ensures old(AnonAt(t, a)) == old(AnonOf(e, a))
  {
    forall f | f in old(t.nodes) && old(Covers(f, a)) ensures f == e { WasOne(t, e, f, a); }
  }

  lemma Uncovered(t: Tree, a: nat)
    requires t.Shape() && t.Disjoint()
    ensures At(t, a) == Unmapped <==> forall e | e in t.nodes :: !Covers(e, a)
  {
    if e :| e in t.nodes && Covers(e, a) {
      assert t.Down(e);
      AtEntry(t, a, e.idx);
    }
  }

  /** Where an address has the slot it had, it has the page it had. */
  twostate lemma PageKept(t: Tree, new lo: nat, new size: nat, new a: nat)
    requires old(t.Shape()) && old(t.Disjoint()) && t.Shape() && t.Disjoint() && !(lo <= a < lo + size)
    requires Seated(t, old(Places(t)), lo, size) && At(t, a) == old(At(t, a))
    requires forall m | m in old(Amaps(t)) :: m[..] == old(m[..])
    ensures AnonAt(t, a) == old(AnonAt(t, a))
  {
    Uncovered(t, a);
    WasUncovered(t, a);
    if e :| e in t.nodes && Covers(e, a) {
      var f :| f in old(t.nodes) && old(Covers(f, a));
      AnonIs(t, e, a);
      AnonWas(t, f, a);
      assert Spans(old(Places(t))[f], a);
      if e.amap != null && 0 <= SlotOf(e, a) < e.amap.Length {
        var m := e.amap;
        assert m in old(Amaps(t)) && m[..][SlotOf(e, a)] == old(m[..])[SlotOf(e, a)];
      }
    }
  }

  /** Where nothing has changed, the pages are the same. */
  twostate lemma SamePages(t: Tree)
    requires old(t.Shape()) && old(t.Disjoint()) && t.Shape() && t.Disjoint() && Places(t) == old(Places(t))
    requires forall m | m in old(Amaps(t)) :: m[..] == old(m[..])
    ensures forall a: nat {:trigger AnonAt(t, a)} :: AnonAt(t, a) == old(AnonAt(t, a))
  {
    forall a: nat ensures AnonAt(t, a) == old(AnonAt(t, a)) {
      assert t.nodes == Places(t).Keys == old(Places(t)).Keys == old(t.nodes);
      if e :| e in t.nodes && Covers(e, a) {
        assert Places(t)[e] == old(Places(t))[e];
        AnonIs(t, e, a);
        AnonWas(t, e, a);
        if e.amap != null {
          var m := e.amap;
          assert m in old(Amaps(t)) && m[..] == old(m[..]);
          assert forall i | 0 <= i < m.Length :: m[i] == m[..][i] && old(m[i]) == old(m[..])[i];
        }
      } else {
        assert forall e | e in old(t.nodes) :: Places(t)[e] == old(Places(t))[e];
        assert AnonAt(t, a) == 0 == old(AnonAt(t, a));
      }
    }
  }

  twostate lemma WasUncovered(t: Tree, new a: nat)
    requires old(t.Shape()) && old(t.Disjoint())
    ensures old(At(t, a)) == Unmapped <==> forall e | e in old(t.nodes) :: !old(Covers(e, a))
  {
    if e :| e in old(t.nodes) && old(Covers(e, a)) {
      assert old(t.Down(e));
      WasEntry(t, a, old(e.idx));
    } else {
      forall i | 0 <= i < |old(t.order)| ensures !old(Covers(t.order[i], a)) { assert old(t.order[i] in t.nodes); }
      WasHole(t, a);
    }
  }

  /** amap_clear (vm/amap.c); a write beyond the end of the array is left out. */
  method Clear(m: array<nat>, offset: nat, size: nat)
    modifies m
    ensures forall i | 0 <= i < m.Length ::
      m[i] == if offset / SIZE_PAGE <= i < (offset + size) / SIZE_PAGE then 0 else old(m[i])
  {
    var i := offset / SIZE_PAGE;
    while i < (offset + size) / SIZE_PAGE && i < m.Length
      invariant offset / SIZE_PAGE <= i
      invariant i <= (offset + size) / SIZE_PAGE || i == offset / SIZE_PAGE
      invariant forall j | 0 <= j < m.Length :: m[j] == if offset / SIZE_PAGE <= j < i then 0 else old(m[j])
    {
      m[i] := 0;
      i := i + 1;
    }
  }

  /** The pages of the range are forgotten, and no others. */
  method ClearRange(t: Tree, e: Entry, v: nat, size: nat, ghost was: map<Entry, Place>)
    requires t.Shape() && t.Disjoint() && e in t.nodes && e.vaddr <= v && v + size <= e.vaddr + e.size
    modifies if e.amap == null then {} else {e.amap}
    ensures Sound(t) == old(Sound(t)) && forall a: nat {:trigger At(t, a)} :: At(t, a) == old(At(t, a))
    ensures Slotted(t) == old(Slotted(t)) && Seated(t, was, v, size) == old(Seated(t, was, v, size))
    ensures Slotted(t) && v % SIZE_PAGE == 0 && size % SIZE_PAGE == 0 ==> forall a: nat {:trigger AnonAt(t, a)} ::
      AnonAt(t, a) == if v <= a < v + size then 0 else old(AnonAt(t, a))
  {
    if e.amap != null {
      Clear(e.amap, e.aoffs + (v - e.vaddr), size);
    }
    if Slotted(t) && v % SIZE_PAGE == 0 && size % SIZE_PAGE == 0 {
      forall a: nat ensures AnonAt(t, a) == if v <= a < v + size then 0 else old(AnonAt(t, a)) {
        ClearedAt(t, e, v, size, a);
      }
    }
  }

  /** On aligned ranges the slots cleared are those of the range. */
  lemma InRange(base: int, v: nat, size: nat, a: nat)
    requires base % SIZE_PAGE == 0 && v % SIZE_PAGE == 0 && size % SIZE_PAGE == 0
    ensures (v - base) / SIZE_PAGE <= (a - base) / SIZE_PAGE < (v - base + size) / SIZE_PAGE <==> v <= a < v + size
  {
  }

  twostate lemma ClearedAt(t: Tree, new e: Entry, new v: nat, new size: nat, new a: nat)
    requires t.Shape() && t.Disjoint() && Slotted(t) && e in t.nodes && e.vaddr <= v && v + size <= e.vaddr + e.size
    requires v % SIZE_PAGE == 0 && size % SIZE_PAGE == 0 && unchanged(t) && unchanged(t.nodes)
    requires e.amap != null ==> forall i | 0 <= i < e.amap.Length ::
      e.amap[i] == if (v - Base(e)) / SIZE_PAGE <= i < (v - Base(e) + size) / SIZE_PAGE then 0 else old(e.amap[i])
    requires forall m | m in Amaps(t) && m != e.amap :: m[..] == old(m[..])
    ensures AnonAt(t, a) == if v <= a < v + size then 0 else old(AnonAt(t, a))
  {
    if f :| f in t.nodes && Covers(f, a) {
      AnonIs(t, f, a);
      AnonWas(t, f, a);
      if v <= a < v + size { OneCovers(t, e, f, a); }
      assert InAmap(f) && InAmap(e) && Agree(e, f);
      if e.amap != null { InRange(Base(e), v, size, a); }
      if f.amap != null && f.amap != e.amap {
        assert f.amap in Amaps(t);
        assert f.amap[..][SlotOf(f, a)] == old(f.amap[..])[SlotOf(f, a)];
      }
    } else {
      assert AnonAt(t, a) == 0;
    }
  }

  /** Slots of a new amap: those of the entry, and room to grow. */
  function NewSize(size: nat): (n: nat)
    ensures size / SIZE_PAGE <= n && (size < WORD && size % SIZE_PAGE == 0 ==> size <= SIZE_PAGE * n < WORD)
  {
    if size / SIZE_PAGE < AMAP_CHUNK then AMAP_CHUNK else size / SIZE_PAGE
  }

  /** The slots of a new amap hold what the entry had in its own. */
  method CopySlots(m: array?<nat>, offset: nat, k: nat, n: nat) returns (c: array<nat>)
    requires k <= n && (m != null ==> offset + k <= m.Length)
    ensures fresh(c) && c.Length == n
    ensures forall i | 0 <= i < n :: c[i] == if m != null && i < k then m[offset + i] else 0
  {
    c := new nat[n];
    var i := 0;
    while i < k
      invariant i <= k
      invariant forall j | 0 <= j < i :: c[j] == if m != null then m[offset + j] else 0
    {
      c[i] := if m == null then 0 else m[offset + i];
      i := i + 1;
    }
    while i < n
      invariant k <= i <= n
      invariant forall j | 0 <= j < i :: c[j] == if m != null && j < k then m[offset + j] else 0
    {
      c[i] := 0;
      i := i + 1;
    }
  }

  /** c holds what e has in its slots. */
  ghost predicate Holds(c: array<nat>, e: Entry)
    reads c, e`size, e`amap, e`aoffs, e.amap
  {
    && e.size <= SIZE_PAGE * c.Length < WORD
    && forall i | 0 <= i < e.size / SIZE_PAGE :: c[i] == Content(e.amap, e.aoffs / SIZE_PAGE + i)
  }

  /** Making a copy of the slots of e changes nothing. */
  method CopyApart(t: Tree, e: Entry) returns (c: array<nat>)
    requires t.Shape() && t.Disjoint() && Slotted(t) && e in t.nodes && e.size < WORD && e.size % SIZE_PAGE == 0
    ensures fresh(c) && Holds(c, e) && c !in Amaps(t) && t.Shape() && t.Disjoint() && Slotted(t)
    ensures forall a: nat {:trigger AnonAt(t, a)} :: AnonAt(t, a) == old(AnonAt(t, a))
  {
    assert InAmap(e);
    c := CopySlots(e.amap, e.aoffs / SIZE_PAGE, e.size / SIZE_PAGE, NewSize(e.size));
  }

  /** e turns to slots that hold the same and are nobody else's. */
  method Reseat(t: Tree, e: Entry, c: array<nat>)
    requires t.Shape() && t.Disjoint() && Slotted(t) && e in t.nodes && Holds(c, e) && c !in Amaps(t)
    requires e.vaddr % SIZE_PAGE == 0 && e.size % SIZE_PAGE == 0
    modifies e`amap, e`aoffs
    ensures Slotted(t) && e.amap == c && e.aoffs == 0
    ensures forall a: nat {:trigger AnonAt(t, a)} :: AnonAt(t, a) == old(AnonAt(t, a))
  {
    assert InAmap(e);
    e.amap, e.aoffs := c, 0;
    forall x | x in t.nodes ensures InAmap(x) { assert x != e ==> old(InAmap(x)); }
    forall x, y | x in t.nodes && y in t.nodes ensures Agree(x, y) { assert x != e && y != e ==> old(Agree(x, y)); }
    forall a: nat ensures AnonAt(t, a) == old(AnonAt(t, a)) { CopiedAt(t, e, a); }
  }

  /**
   amap_create for an entry (vm/map.c, _map_force); shared says that its amap has other references.  The entry has
   an amap of its own, unless it had, and every address has the page it had.
   */
  method OwnSlots(t: Tree, e: Entry, shared: bool)
    requires t.Shape() && t.Disjoint() && Slotted(t) && e in t.nodes && e.size < WORD
    requires e.vaddr % SIZE_PAGE == 0 && e.size % SIZE_PAGE == 0
    modifies e`amap, e`aoffs
    ensures Slotted(t) && e.amap != null
    ensures if old(e.amap) != null && !shared then e.amap == old(e.amap) && e.aoffs == old(e.aoffs)
      else fresh(e.amap) && e.aoffs == 0
    ensures forall a: nat {:trigger AnonAt(t, a)} :: AnonAt(t, a) == old(AnonAt(t, a))
  {
    if e.amap != null && !shared {
      return;
    }
    var c := CopyApart(t, e);
    Reseat(t, e, c);
  }

  twostate lemma CopiedAt(t: Tree, new e: Entry, new a: nat)
    requires old(t.Shape()) && old(t.Disjoint()) && t.Shape() && t.Disjoint() && t.nodes == old(t.nodes) && e in t.nodes
    requires forall x | x in t.nodes :: x.vaddr == old(x.vaddr) && x.size == old(x.size)
    requires forall x | x in t.nodes && x != e :: x.amap == old(x.amap) && x.aoffs == old(x.aoffs)
    requires forall m | m in old(Amaps(t)) :: m[..] == old(m[..])
    requires e.amap != null && e.aoffs == 0 && e.vaddr % SIZE_PAGE == 0 && e.size % SIZE_PAGE == 0 && old(InAmap(e))
    requires e.size <= SIZE_PAGE * e.amap.Length
    requires forall i | 0 <= i < e.size / SIZE_PAGE :: e.amap[i] == old(Content(e.amap, e.aoffs / SIZE_PAGE + i))
    ensures AnonAt(t, a) == old(AnonAt(t, a))
  {
    if f :| f in t.nodes && Covers(f, a) {
      AnonIs(t, f, a);
      AnonWas(t, f, a);
      if f == e {
        assert SlotOf(e, a) < e.size / SIZE_PAGE;
        if old(e.amap) != null { assert old(SlotOf(e, a)) == old(e.aoffs) / SIZE_PAGE + SlotOf(e, a); }
      } else if f.amap != null && 0 <= SlotOf(f, a) < f.amap.Length {
        var m := f.amap;
        assert m in old(Amaps(t)) && m[..][SlotOf(f, a)] == old(m[..])[SlotOf(f, a)];
      }
    } else {
      assert AnonAt(t, a) == 0 == old(AnonAt(t, a));
    }
  }

  /** The write by which amap_page (vm/amap.c) puts a page behind address a: no other page of the map is touched. */
  method PutPage(t: Tree, e: Entry, a: nat, page: nat)
    requires t.Shape() && t.Disjoint() && Slotted(t) && e in t.nodes && Covers(e, a) && e.amap != null
    requires e.vaddr % SIZE_PAGE == 0 && e.size % SIZE_PAGE == 0
    modifies e.amap
    ensures forall b: nat {:trigger AnonAt(t, b)} ::
      AnonAt(t, b) == if a / SIZE_PAGE == b / SIZE_PAGE then page else old(AnonAt(t, b))
  {
    SlotsApart(t, e, a, e, a);
    e.amap[(e.aoffs + (a - e.vaddr)) / SIZE_PAGE] := page;
    forall b: nat ensures AnonAt(t, b) == if a / SIZE_PAGE == b / SIZE_PAGE then page else old(AnonAt(t, b)) {
      PutAt(t, e, a, page, b);
    }
  }

  twostate lemma PutAt(t: Tree, new e: Entry, new a: nat, new page: nat, new b: nat)
    requires t.Shape() && t.Disjoint() && Slotted(t) && e in t.nodes && Covers(e, a) && e.amap != null
    requires e.vaddr % SIZE_PAGE == 0 && e.size % SIZE_PAGE == 0 && unchanged(t) && unchanged(t.nodes)
    requires 0 <= SlotOf(e, a) < e.amap.Length && e.amap[SlotOf(e, a)] == page
    requires forall i | 0 <= i < e.amap.Length && i != SlotOf(e, a) :: e.amap[i] == old(e.amap[i])
    requires forall m | m in Amaps(t) && m != e.amap :: m[..] == old(m[..])
    ensures AnonAt(t, b) == if a / SIZE_PAGE == b / SIZE_PAGE then page else old(AnonAt(t, b))
  {
    assert a / SIZE_PAGE == b / SIZE_PAGE ==> Covers(e, b);
    if f :| f in t.nodes && Covers(f, b) {
      AnonIs(t, f, b);
      AnonWas(t, f, b);
      if Covers(e, b) { OneCovers(t, e, f, b); }
      if f.amap == e.amap {
        SlotsApart(t, e, a, f, b);
      } else if f.amap != null && 0 <= SlotOf(f, b) < f.amap.Length {
        assert f.amap in Amaps(t) && f.amap[..][SlotOf(f, b)] == old(f.amap[..])[SlotOf(f, b)];
      }
    } else {
      assert AnonAt(t, b) == 0 == old(AnonAt(t, b));
    }
  }
}
