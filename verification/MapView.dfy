/** What an address space is to a program: a partial map from addresses to what is mapped there. */
module MapView {
  import opened GapTree

  datatype Cell = Cell(obj: nat, prot: nat, flags: nat)
  datatype Mapping = Unmapped | Mapped(cell: Cell)

  ghost predicate Covers(e: Entry, a: nat)
    reads e`vaddr, e`size
  {
    e.vaddr <= a < e.vaddr + e.size
  }

  ghost function CellOf(e: Entry): Cell
    reads e`obj, e`prot, e`flags
  {
    Cell(e.obj, e.prot, e.flags)
  }

  /** What the map shows at address a. */
  ghost function At(t: Tree, a: nat): Mapping
    reads t`order, t.order`vaddr, t.order`size, t.order`obj, t.order`prot, t.order`flags
  {
    if i :| 0 <= i < |t.order| && Covers(t.order[i], a) then Mapped(CellOf(t.order[i])) else Unmapped
  }

  lemma AtEntry(t: Tree, a: nat, i: int)
    requires t.Disjoint() && 0 <= i < |t.order| && Covers(t.order[i], a)
    ensures At(t, a) == Mapped(CellOf(t.order[i]))
  {
    t.Around(i);
  }

  lemma AtHole(t: Tree, a: nat)
    requires forall i | 0 <= i < |t.order| :: !Covers(t.order[i], a)
    ensures At(t, a) == Unmapped
  {
  }

  twostate lemma WasEntry(t: Tree, new a: nat, new i: int)
    requires old(t.Disjoint()) && 0 <= i < |old(t.order)| && old(Covers(t.order[i], a))
    ensures old(At(t, a)) == old(Mapped(CellOf(t.order[i])))
  {
    forall j | 0 <= j < |old(t.order)| && j != i ensures !old(Covers(t.order[j], a)) {
      if i < j { assert old(Ends(t.order, i, j)); } else { assert old(Ends(t.order, j, i)); }
    }
  }

  twostate lemma WasHole(t: Tree, new a: nat)
    requires forall i | 0 <= i < |old(t.order)| :: !old(Covers(t.order[i], a))
    ensures old(At(t, a)) == Unmapped
  {
  }

  /** Entry x has a new range, the other entries are as they were. */
  twostate predicate Reshaped(t: Tree, x: int)
    reads t`order, t.order`vaddr, t.order`size, t.order`obj, t.order`prot, t.order`flags
  {
    && t.order == old(t.order) && 0 <= x < |t.order| && CellOf(t.order[x]) == old(CellOf(t.order[x]))
    && forall i | 0 <= i < |t.order| && i != x ::
      t.order[i].vaddr == old(t.order[i].vaddr) && t.order[i].size == old(t.order[i].size)
         && CellOf(t.order[i]) == old(CellOf(t.order[i]))
  }

  twostate lemma ReshapedAt(t: Tree, new x: int, new a: nat)
    requires Reshaped(t, x) && t.Disjoint() && old(t.Disjoint())
    ensures At(t, a) == if Covers(t.order[x], a) then Mapped(CellOf(t.order[x]))
      else if old(Covers(t.order[x], a)) then Unmapped else old(At(t, a))
  {
    if Covers(t.order[x], a) {
      AtEntry(t, a, x);
    } else if i :| 0 <= i < |t.order| && Covers(t.order[i], a) {
      AtEntry(t, a, i);
      assert old(Covers(t.order[i], a));
      if i < x { assert old(Ends(t.order, i, x)); } else { assert old(Ends(t.order, x, i)); }
      WasEntry(t, a, i);
    } else {
      AtHole(t, a);
    }
  }

  /** The entries of s that were there before have kept range and cell. */
  twostate predicate Kept(s: seq<Entry>)
    reads s`vaddr, s`size, s`obj, s`prot, s`flags
  {
    forall e | e in s :: e.vaddr == old(e.vaddr) && e.size == old(e.size) && CellOf(e) == old(CellOf(e))
  }

  /** An entry z was put in as number k. */
  twostate lemma AddedAt(t: Tree, new z: Entry, new k: int, new a: nat)
    requires 0 <= k <= |old(t.order)| && t.order == old(t.order)[..k] + [z] + old(t.order)[k..] && Kept(old(t.order))
    requires t.Disjoint() && old(t.Disjoint())
    ensures At(t, a) == if Covers(z, a) then Mapped(CellOf(z)) else old(At(t, a))
  {
    assert forall i | 0 <= i < |t.order| ::
      t.order[i] == if i < k then old(t.order)[i] else if i == k then z else old(t.order)[i - 1];
    if Covers(z, a) {
      AtEntry(t, a, k);
    } else if i :| 0 <= i < |old(t.order)| && old(Covers(t.order[i], a)) {
      WasEntry(t, a, i);
      var e := old(t.order)[i];
      assert e in old(t.order) && Covers(e, a);
      AtEntry(t, a, if i < k then i else i + 1);
    } else {
      WasHole(t, a);
      forall i | 0 <= i < |t.order| ensures !Covers(t.order[i], a) {
        if i != k {
          var j := if i < k then i else i - 1;
          assert old(t.order)[j] in old(t.order) && !old(Covers(t.order[j], a));
        }
      }
      AtHole(t, a);
    }
  }

  /** The entry number k was taken out. */
  twostate lemma TakenAt(t: Tree, new k: int, new a: nat)
    requires 0 <= k < |old(t.order)| && t.order == old(t.order)[..k] + old(t.order)[k + 1..] && Kept(t.order)
    requires t.Disjoint() && old(t.Disjoint())
    ensures At(t, a) == if old(Covers(t.order[k], a)) then Unmapped else old(At(t, a))
  {
    assert forall i | 0 <= i < |t.order| :: t.order[i] == old(t.order)[if i < k then i else i + 1];
    if i :| 0 <= i < |t.order| && Covers(t.order[i], a) {
      AtEntry(t, a, i);
      var j := if i < k then i else i + 1;
      assert t.order[i] in t.order && old(Covers(t.order[j], a));
      if j < k { assert old(Ends(t.order, j, k)); } else { assert old(Ends(t.order, k, j)); }
      WasEntry(t, a, j);
    } else {
      AtHole(t, a);
      if !old(Covers(t.order[k], a)) {
        forall j | 0 <= j < |old(t.order)| ensures !old(Covers(t.order[j], a)) {
          if j != k {
            var i := if j < k then j else j - 1;
            assert t.order[i] in t.order && !Covers(t.order[i], a);
          }
        }
        WasHole(t, a);
      }
    }
  }
}
