/** Removing a node that has at most one child. */
module RbDetach {
  import opened GapTree
  import opened RbAugment
  import opened RbShrink
  import opened RbTransplant

  /** Node u is numbered out while its links still stand. */
  twostate predicate Dismissed(t: Tree, u: Entry, q: int)
    requires u in old(t.nodes)
    reads t, t.nodes
  {
    && t.nodes == old(t.nodes) - {u} && q == old(u.idx) && t.root == old(t.root)
    && 0 <= q < |old(t.order)| && t.order == old(t.order)[..q] + old(t.order)[q + 1..]
    && (forall n {:trigger Closed(n, q)} | n in t.nodes :: Closed(n, q))
    && (forall n {:trigger t.SameParent(n)} | n in t.nodes :: t.SameParent(n))
    && (forall n {:trigger t.SameKids(n)} | n in t.nodes :: t.SameKids(n))
  }

  /** A node not hanging from u stands as before, in the new numbers. */
  twostate lemma StillUp(t: Tree, new u: Entry, new q: int, new n: Entry)
    requires u in old(t.nodes) && old(t.Shape()) && Dismissed(t, u, q) && n in t.nodes && n.parent != u
    ensures t.Up(n)
  {
    assert old(t.Up(n));
    assert old(t.Down(u));
    assert t.SameParent(n);
    assert Closed(n, q);
    assert t.order[n.idx] == n;
    if n.parent != null {
      assert old(t.Up(n.parent));
      assert Closed(n.parent, q);
      assert t.SameKids(n.parent);
    }
  }

  twostate lemma StillSpine(t: Tree, new u: Entry, new q: int, new c: seq<Entry>)
    requires u in old(t.nodes) && old(t.Shape()) && Dismissed(t, u, q)
    requires |c| > 0 && (forall j | 0 <= j < |c| :: c[j] in old(t.nodes) && c[j] != u) && old(t.Spine(c))
    ensures t.Spine(c)
  {
    forall j | 0 <= j < |c| ensures t.Rung(c, j) {
      assert old(t.Rung(c, j));
      assert t.SameParent(c[j]);
      assert c[j].parent != u by { if j + 1 < |c| { assert c[j + 1] != u; } }
      StillUp(t, u, q, c[j]);
    }
  }

  /** u may go: it has at most one child v, and v is a leaf. */
  ghost predicate Removable(t: Tree, u: Entry, v: Entry?)
    reads t`nodes, t.nodes`left, t.nodes`right
  {
    && u in t.nodes && ((u.left == null && v == u.right) || (u.right == null && v == u.left))
    && (v != null ==> v in t.nodes && v != u && v.left == null && v.right == null)
  }

  /** The parent is ready to take v. */
  twostate lemma ReadyParent(t: Tree, new u: Entry, new v: Entry?, new p: Entry, new q: int, new a: int,
      new c: seq<Entry>)
    requires u in old(t.nodes) && (v != null ==> v in old(t.nodes)) && a <= q
    requires old(t.Shape()) && old(Removable(t, u, v)) && Dismissed(t, u, q) && p == old(u.parent) && p in old(t.nodes)
    requires (forall m | m in c :: m in old(t.nodes) && old(m.lo <= p.idx < m.hi)) && p in t.nodes
    ensures (p.left == u || p.right == u) && p.left != p.right
    ensures p.left == u ==> FootedBy(t, p, v, p.right, c, a, q)
    ensures p.left != u ==> FootedBy(t, p, p.left, v, c, a, q)
  {
    assert old(t.Up(u) && t.Down(u));
    assert old(t.Down(p));
    assert t.SameKids(p);
    assert Closed(p, q);
    if v != null { assert old(t.Down(v)); assert Closed(v, q); }
    if old(p.left) != null && old(p.left) != u { assert old(t.Down(p.left)); assert Closed(old(p.left), q); }
    if old(p.right) != null && old(p.right) != u { assert old(t.Down(p.right)); assert Closed(old(p.right), q); }
  }

  /** The child is ready to take u's place. */
  twostate lemma ReadyChild(t: Tree, new u: Entry, new v: Entry, new p: Entry?, new q: int, new a: int,
      new c: seq<Entry>)
    requires u in old(t.nodes) && v in old(t.nodes) && a <= q && old(t.Shape()) && old(Removable(t, u, v))
    requires Dismissed(t, u, q) && p == old(u.parent)
    requires v in t.nodes && (p != null ==> p in t.nodes && p in old(t.nodes))
    ensures Fits(t, v, p, p != null && p.left == u) && Footed(t, v, [v] + c, a, q)
  {
    assert old(t.Up(u) && t.Down(u));
    assert old(t.Down(v));
    assert Closed(v, q);
    assert t.SameKids(v);
    if p != null {
      assert old(t.Down(p));
      assert t.SameKids(p);
      assert Closed(p, q);
    }
  }

  /** The path above u, on which the removal is felt. */
  lemma AboveU(t: Tree, u: Entry, p: Entry, c: seq<Entry>)
    requires t.Shape() && u in t.nodes && u.parent == p && p in t.nodes && c == t.Path(p)
    ensures t.Spine(c) && u !in c
    ensures forall m | m in c :: m in t.nodes && m.lo <= p.idx < m.hi && m.lo <= u.lo && u.hi <= m.hi
    ensures forall m | m in t.nodes && m.parent == u :: m !in c
  {
    t.PathIsSpine(p);
    assert t.Up(u) && t.Down(u);
    forall m | m in c ensures m.lo <= p.idx < m.hi && m.lo <= u.lo && u.hi <= m.hi {
      t.PathCovers(m, p);
    }
    forall m | m in t.nodes && m.parent == u ensures m !in c {
      assert t.Up(m);
    }
  }

  /** Number u out; the links still stand. */
  ghost method NumberOut(t: Tree, u: Entry, a: int)
    requires t.Shape() && Keyed(t) && u in t.nodes && a <= u.idx && t.ExactOffGaps(a, u.idx + 1)
    modifies t`order, t`nodes, t`gaps, t.nodes`lo, t.nodes`idx, t.nodes`hi
    ensures Dismissed(t, u, old(u.idx)) && Keyed(t) && t.ExactOffGaps(a, old(u.idx))
    ensures forall n | n in t.nodes ::
      n.lo == Before(old(n.lo), old(u.idx)) && n.idx == Before(old(n.idx), old(u.idx))
        && n.hi == Before(old(n.hi), old(u.idx))
  {
    var q := u.idx;
    assert t.Down(u);
    Dismiss(t, u, q);
    ShrunkKeyed(t, q);
    ShrunkSides(t, u, q, a);
  }

  /** Number u out and make ready for v in its place. */
  ghost method Stage(t: Tree, u: Entry, v: Entry?, c: seq<Entry>, a: int)
    requires t.Shape() && Keyed(t) && Removable(t, u, v) && a <= u.idx && t.ExactOffGaps(a, u.idx + 1)
    requires c == if u.parent == null then [] else assert t.Up(u); t.Path(u.parent)
    modifies t`order, t`nodes, t`gaps, t.nodes`lo, t.nodes`idx, t.nodes`hi
    ensures Staged(t, u, v, c, a, old(u.idx))
    ensures t.nodes == old(t.nodes) - {u} && 0 <= old(u.idx) < |old(t.order)|
    ensures t.order == old(t.order)[..old(u.idx)] + old(t.order)[old(u.idx) + 1..]
    ensures forall n | n in t.nodes ::
      n.lo == Before(old(n.lo), old(u.idx)) && n.idx == Before(old(n.idx), old(u.idx))
        && n.hi == Before(old(n.hi), old(u.idx))
  {
    var q, p := u.idx, u.parent;
    assert t.Down(u) && t.Up(u);
    if p != null {
      AboveU(t, u, p, c);
    }
    NumberOut(t, u, a);
    DismissedStaged(t, u, v, p, q, a, c);
  }

  twostate lemma DismissedStaged(t: Tree, new u: Entry, new v: Entry?, new p: Entry?, new q: int, new a: int,
      new c: seq<Entry>)
    requires u in old(t.nodes) && (v != null ==> v in old(t.nodes)) && a <= q
    requires old(t.Shape()) && old(Removable(t, u, v)) && Dismissed(t, u, q) && p == old(u.parent) == u.parent
    requires (p == null ==> c == []) && (p != null ==> p in old(t.nodes) && p in t.nodes)
    requires forall j | 0 <= j < |c| :: c[j] in old(t.nodes)
    requires p != null ==> forall m | m in c :: m in old(t.nodes) && old(m.lo <= p.idx < m.hi)
    requires p != null ==> |c| > 0 && c[0] == p && old(t.Spine(c)) && u !in c && v !in c
    requires Keyed(t) && t.ExactOffGaps(a, q)
    ensures Staged(t, u, v, c, a, q)
  {
    assert old(t.Down(u));
    if p != null {
      StillSpine(t, u, q, c);
      ReadyParent(t, u, v, p, q, a, c);
    }
    if v != null {
      ReadyChild(t, u, v, p, q, a, c);
    }
  }

  /** Number u out and let v take its place. */
  method Unlink(t: Tree, u: Entry, v: Entry?, ghost c: seq<Entry>, ghost a: int)
    requires t.Shape() && Keyed(t) && Removable(t, u, v) && a <= u.idx && t.ExactOffGaps(a, u.idx + 1)
    requires c == if u.parent == null then [] else assert t.Up(u); t.Path(u.parent)
    modifies t`root, t`order, t`nodes, t`gaps, t.nodes`lo, t.nodes`idx, t.nodes`hi
    modifies t.nodes`left, t.nodes`right, t.nodes`parent, t.nodes`lmaxgap, t.nodes`rmaxgap
    ensures Shrunk(t, u, v, old(u.parent), old(u.idx)) && Keyed(t) && t.ExactOffGaps(a, old(u.idx))
    ensures v != null ==> t.Spine([v] + c) && Fresh(t, [v] + c)
    ensures v == null && |c| > 0 ==> t.Spine(c) && Fresh(t, c) && c[0] == u.parent
    ensures u.parent == old(u.parent) && u.left == old(u.left) && u.right == old(u.right)
  {
    ghost var q, p := u.idx, u.parent;
    Around(t, u, v);
    Stage(t, u, v, c, a);
    label S:
    Graft(t, u, v, c, a, q);
    forall n | n in t.nodes ensures Closed(n, q) {
      assert n in old@S(t.nodes) && old@S(n.lo) == Before(old(n.lo), q);
    }
    forall n | n in t.nodes && n != v ensures t.SameParent(n) { assert t.SameParent@S(n); }
    forall n | n in t.nodes && n != p ensures t.SameKids(n) { assert t.SameKids@S(n); }
  }

  lemma Around(t: Tree, u: Entry, v: Entry?)
    requires t.Shape() && Removable(t, u, v)
    ensures (u.left == null && v == u.right) || (u.right == null && v == u.left)
    ensures (u.parent != null ==> u.parent in t.nodes && u.parent != u) && (v != null ==> v in t.nodes && v != u)
  {
    assert t.Up(u) && t.Down(u);
  }

  /** rb_transplant, and the links it leaves alone. */
  method Graft(t: Tree, u: Entry, v: Entry?, ghost c: seq<Entry>, ghost a: int, ghost b: int)
    requires Staged(t, u, v, c, a, b)
    modifies t`root, Just(u.parent)`left, Just(u.parent)`right, Just(v)`parent, Just(v)`lmaxgap, Just(v)`rmaxgap
    modifies c`lmaxgap, c`rmaxgap
    ensures t.root == if u.parent == null then v else old(t.root)
    ensures u.parent != null ==> u.parent.left == if old(u.parent.left) == u then v else old(u.parent.left)
    ensures u.parent != null ==> u.parent.right == if old(u.parent.left) == u then old(u.parent.right) else v
    ensures v != null ==> v.parent == u.parent && t.Spine([v] + c) && Fresh(t, [v] + c)
    ensures v == null && u.parent != null ==> t.Spine(c) && Fresh(t, c)
    ensures Keyed(t) && t.ExactOffGaps(a, b)
    ensures forall n {:trigger t.SameParent(n)} | n in t.nodes && n != v :: t.SameParent(n)
    ensures forall n {:trigger t.SameKids(n)} | n in t.nodes && n != u.parent :: t.SameKids(n)
  {
    Transplant(t, u, v, c, a, b);
  }

  /** In the smaller tree, the gap left by u is held by v, or else by u's parent. */
  twostate lemma HolderAfter(t: Tree, new u: Entry, new v: Entry?, new p: Entry?, new q: int)
    requires u in old(t.nodes) && (p != null ==> p in old(t.nodes)) && (v != null ==> v in old(t.nodes))
    requires old(t.Shape()) && old(Removable(t, u, v)) && Shrunk(t, u, v, p, q) && t.Shape()
    ensures v != null ==> t.Holds(v, q)
    ensures v == null && p != null ==> t.Holds(p, q)
  {
    assert old(t.Down(u) && t.Up(u));
    if v != null {
      assert old(t.Down(v));
      assert Closed(v, q);
      if v != p { assert t.SameKids(v); }
    } else if p != null {
      assert old(t.Down(p));
      assert Closed(p, q);
    }
  }

  lemma PathOn(t: Tree, v: Entry)
    requires t.Shape() && v in t.nodes
    ensures v.parent == null ==> t.Path(v) == [v]
    ensures v.parent != null ==> v.parent in t.nodes && t.Path(v) == [v] + t.Path(v.parent)
  {
    assert t.Up(v);
  }

  /** A spine is the path of its foot. */
  lemma SpineIsPath(t: Tree, c: seq<Entry>)
    requires t.Shape() && t.Spine(c)
    ensures c == t.Path(c[0])
    decreases |c|
  {
    assert t.Rung(c, 0);
    PathOn(t, c[0]);
    if |c| > 1 {
      var d := c[1..];
      forall j | 0 <= j < |d| ensures t.Rung(d, j) {
        assert t.Rung(c, j + 1);
      }
      SpineIsPath(t, d);
    }
  }

  /** Take u, which has at most one child v, out of the tree. */
  method Detach(t: Tree, u: Entry, v: Entry?)
    requires t.Shape() && Keyed(t) && Removable(t, u, v) && t.ExactOffGaps(u.idx, u.idx + 1)
    modifies t`root, t`order, t`nodes, t`gaps, t.nodes`lo, t.nodes`idx, t.nodes`hi
    modifies t.nodes`left, t.nodes`right, t.nodes`parent, t.nodes`lmaxgap, t.nodes`rmaxgap
    ensures Shrunk(t, u, v, old(u.parent), old(u.idx)) && t.Shape() && Keyed(t) && t.Exacts()
    ensures u.parent == old(u.parent) && u.left == old(u.left) && u.right == old(u.right)
  {
    ghost var p, q := u.parent, u.idx;
    assert t.Up(u);
    ghost var c := if p == null then [] else t.Path(p);
    Unlink(t, u, v, c, q);
    ShrunkShape(t, u, v, p, q);
    HolderAfter(t, u, v, p, q);
    if v != null {
      SpineIsPath(t, [v] + c);
      Settled1(t, v, q, [v] + c);
    } else if p != null {
      SpineIsPath(t, c);
      Settled1(t, p, q, c);
    } else {
      t.EmptyTree();
    }
  }
}
