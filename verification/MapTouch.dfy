/** map_augment (vm/map.c), as called by hand next to a gap whose size was changed. */
module MapTouch {
  import opened GapTree
  import opened RbAugment

  lemma FootOf(t: Tree, node: Entry, a: int, b: int)
    requires t.Shape() && node in t.nodes && a <= b && node.lo <= b && a <= node.hi
    ensures Footed(t, node, t.Path(node), a, b)
  {
    KidsOffPath(t, node);
    assert t.Down(node);
    if node.left != null { assert t.Down(node.left); }
    if node.right != null { assert t.Down(node.right); }
  }

  /** A summary off the path of node, or away from node, is not written. */
  twostate lemma Untouched(t: Tree, new node: Entry, new c: seq<Entry>, new a: int, new b: int)
    requires node in t.nodes && t.nodes == old(t.nodes) && |c| > 0 && c[0] == node && t.Spine(c) && a <= b
    requires node.lo <= b && a <= node.hi
    requires t.gaps == old(t.gaps) && old(t.ExactOffGaps(a, b)) && t.GapExact(node, a, b)
    requires forall m | m in t.nodes :: m.lo == old(m.lo) && m.idx == old(m.idx) && m.hi == old(m.hi)
    requires forall m | m in t.nodes && m !in c :: m.lmaxgap == old(m.lmaxgap) && m.rmaxgap == old(m.rmaxgap)
    requires forall j {:trigger FarExact(t, c, j, a, b)} | 0 < j < |c| :: FarExact(t, c, j, a, b)
    ensures t.ExactOffGaps(a, b)
  {
    forall m | m in t.nodes ensures t.GapExact(m, a, b) {
      if m in c && m != node {
        var j :| 0 <= j < |c| && c[j] == m;
        assert FarExact(t, c, j, a, b);
        FarSideExact(t, c, j, a, b);
      } else if m != node {
        assert old(t.GapExact(m, a, b));
      }
    }
  }

  /** With exact children and an exact far side at every rung, a fresh path is exact. */
  lemma PathExact(t: Tree, node: Entry, c: seq<Entry>)
    requires t.Shape() && node in t.nodes && |t.gaps| == |t.order| + 1 && c == t.Path(node) && Fresh(t, c)
    requires node.left != null ==> t.Exact(node.left)
    requires node.right != null ==> t.Exact(node.right)
    requires forall j {:trigger OffExact(t, c, j)} | 0 < j < |c| :: OffExact(t, c, j)
    ensures forall m | m in c :: t.Exact(m)
  {
    t.PathIsSpine(node);
    assert t.Down(node);
    FromKids(t, node);
    SpineExact(t, c, |c|);
  }

  /** Before the call, every rung of the path is exact on its far side unless that side sees the gap. */
  lemma FarSides(t: Tree, node: Entry, k: int)
    requires t.Shape() && node in t.nodes && node.lo <= k <= node.hi && t.ExactOffGaps(k, k)
    ensures forall j {:trigger FarExact(t, t.Path(node), j, k, k)} | 0 < j < |t.Path(node)| ::
      FarExact(t, t.Path(node), j, k, k)
    ensures t.Exacts() ==>
      forall j {:trigger OffExact(t, t.Path(node), j)} | 0 < j < |t.Path(node)| :: OffExact(t, t.Path(node), j)
  {
    var c := t.Path(node);
    t.PathIsSpine(node);
    forall j | 0 < j < |c| ensures FarExact(t, c, j, k, k) && (t.Exacts() ==> OffExact(t, c, j)) {
      assert t.GapExact(c[j], k, k);
      FarSideExact(t, c, j, k, k);
      if t.Exacts() { assert t.Exact(c[j]); }
    }
  }

  twostate lemma AllKept(t: Tree, new node: Entry, new c: seq<Entry>)
    requires old(t.Exacts()) && t.Shape() && node in t.nodes && t.nodes == old(t.nodes) && t.gaps == old(t.gaps)
    requires |t.gaps| == |t.order| + 1
    requires forall m | m in t.nodes :: m.lo == old(m.lo) && m.idx == old(m.idx) && m.hi == old(m.hi)
    requires forall m | m in t.nodes && m !in c :: m.lmaxgap == old(m.lmaxgap) && m.rmaxgap == old(m.rmaxgap)
    requires c == t.Path(node) && Fresh(t, c)
    requires forall j {:trigger OffExact(t, c, j)} | 0 < j < |c| :: OffExact(t, c, j)
    ensures t.Exacts()
  {
    KidsOffPath(t, node);
    assert t.Down(node);
    forall m | m in t.nodes && m !in c ensures t.Exact(m) {
      assert old(t.Exact(m));
    }
    PathExact(t, node, c);
  }

  /**
   map_augment beside gap k, the only gap in doubt: summaries that do not range over it stay exact;
   if node sees the gap directly, or nothing was wrong to begin with, everything is exact.
   */
  method Touch(t: Tree, node: Entry, ghost k: int)
    requires t.Shape() && Keyed(t) && node in t.nodes && (k == node.idx || k == node.idx + 1) && t.ExactOffGaps(k, k)
    modifies t.nodes`lmaxgap, t.nodes`rmaxgap
    ensures t.ExactOffGaps(k, k)
    ensures t.Holds(node, k) || old(t.Exacts()) ==> t.Exacts()
  {
    ghost var c := t.Path(node);
    Refresh(t, node, c, k);
    if t.Holds(node, k) {
      Settled1(t, node, k, c);
    } else if old(t.Exacts()) {
      AllKept(t, node, c);
    }
  }

  /** map_augment along the path c of node. */
  method Refresh(t: Tree, node: Entry, ghost c: seq<Entry>, ghost k: int)
    requires t.Shape() && Keyed(t) && node in t.nodes && (k == node.idx || k == node.idx + 1) && t.ExactOffGaps(k, k)
    requires c == t.Path(node)
    modifies t.nodes`lmaxgap, t.nodes`rmaxgap
    ensures t.ExactOffGaps(k, k) && Fresh(t, c)
    ensures forall m | m in t.nodes && m !in c :: m.lmaxgap == old(m.lmaxgap) && m.rmaxgap == old(m.rmaxgap)
    ensures old(t.Exacts()) ==> forall j {:trigger OffExact(t, c, j)} | 0 < j < |c| :: OffExact(t, c, j)
  {
    t.PathIsSpine(node);
    assert t.Down(node);
    FootOf(t, node, k, k);
    FarSides(t, node, k);
    assert node.left != null ==> t.GapExact(node.left, k, k);
    assert node.right != null ==> t.GapExact(node.right, k, k);
    Augmented(t, node, c, k);
    Untouched(t, node, c, k, k);
  }

  method Augmented(t: Tree, node: Entry, ghost c: seq<Entry>, ghost k: int)
    requires t.Spine(c) && c[0] == node && Keyed(t) && Footed(t, node, c, k, k)
    requires node.left != null ==> t.GapExact(node.left, k, k)
    requires node.right != null ==> t.GapExact(node.right, k, k)
    requires forall j {:trigger FarExact(t, c, j, k, k)} | 0 < j < |c| :: FarExact(t, c, j, k, k)
    modifies c`lmaxgap, c`rmaxgap
    ensures Fresh(t, c) && t.GapExact(node, k, k)
    ensures forall j {:trigger FarExact(t, c, j, k, k)} | 0 < j < |c| :: FarExact(t, c, j, k, k)
    ensures forall j {:trigger OffExact(t, c, j)} | 0 < j < |c| && old(OffExact(t, c, j)) :: OffExact(t, c, j)
  {
    AugmentKeep(t, node, c, Ls(c), Rs(c));
    FootExact(t, node, c, k, k);
    forall j | 0 < j < |c| ensures FarExact(t, c, j, k, k) {
      assert old(FarExact(t, c, j, k, k));
    }
  }
}
