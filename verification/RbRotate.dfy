/** rb_rotateLeft and rb_rotateRight (lib/rb.c). */
module RbRotate {
  import opened GapTree
  import opened RbAugment

  /** The pointer surgery of rb_rotateLeft. */
  method RelinkLeft(t: Tree, x: Entry, y: Entry)
    requires x.right == y && x != y && y.left != x && y.left != y && x.parent != y && x.parent != x
    requires x.parent == null || x.parent != y.left
    modifies t`root, x`right, x`parent, y`left, y`parent, Just(y.left)`parent, Just(x.parent)`left, Just(x.parent)`right
    ensures x.right == old(y.left) && x.parent == y && y.left == x && y.parent == old(x.parent)
    ensures old(y.left) != null ==> old(y.left).parent == x
    ensures t.root == if old(x.parent) == null then y else old(t.root)
    ensures old(x.parent) != null ==>
      && old(x.parent).left == (if old(x.parent.left) == x then y else old(x.parent.left))
      && old(x.parent).right == (if old(x.parent.left) == x then old(x.parent.right) else y)
  {
    x.right := y.left;
    if y.left != null {
      y.left.parent := x;
    }
    y.parent := x.parent;
    if x.parent == null {
      t.root := y;
    } else if x == x.parent.left {
      x.parent.left := y;
    } else {
      x.parent.right := y;
    }
    y.left := x;
    x.parent := y;
  }

  /** The pointer surgery of rb_rotateRight. */
  method RelinkRight(t: Tree, x: Entry, y: Entry)
    requires x.left == y && x != y && y.right != x && y.right != y && x.parent != y && x.parent != x
    requires x.parent == null || x.parent != y.right
    modifies t`root, x`left, x`parent, y`right, y`parent, Just(y.right)`parent, Just(x.parent)`left
    modifies Just(x.parent)`right
    ensures x.left == old(y.right) && x.parent == y && y.right == x && y.parent == old(x.parent)
    ensures old(y.right) != null ==> old(y.right).parent == x
    ensures t.root == if old(x.parent) == null then y else old(t.root)
    ensures old(x.parent) != null ==>
      && old(x.parent).right == (if old(x.parent.right) == x then y else old(x.parent.right))
      && old(x.parent).left == (if old(x.parent.right) == x then old(x.parent.left) else y)
  {
    x.left := y.right;
    if y.right != null {
      y.right.parent := x;
    }
    y.parent := x.parent;
    if x.parent == null {
      t.root := y;
    } else if x == x.parent.right {
      x.parent.right := y;
    } else {
      x.parent.left := y;
    }
    y.right := x;
    x.parent := y;
  }

  /** The links of rb_rotateLeft with the slices that go with them; only summaries towards x turn stale. */
  method TurnLeft(t: Tree, x: Entry, y: Entry)
    requires t.Shape() && t.Exacts() && x in t.nodes && x.right == y && y in t.nodes
    requires (x.parent != null ==> x.parent in t.nodes) && (y.left != null ==> y.left in t.nodes)
    modifies t`root, t.nodes`left, t.nodes`right, t.nodes`parent, t.nodes`lo, t.nodes`hi
    ensures t.Shape() && t.ExactBut(x.idx)
    ensures t.RotationLeft(x, y, old(x.parent), old(y.left))
  {
    ghost var p, b := x.parent, y.left;
    assert t.Down(x) && t.Up(x) && t.Down(y);
    RelinkLeft(t, x, y);
    y.lo, x.hi := x.lo, y.idx;
    t.RotatedLeft(x, y, p, b);
    StaleLeft(t, x, y, p, b);
  }

  twostate lemma StaleLeft(t: Tree, new x: Entry, new y: Entry, new p: Entry?, new b: Entry?)
    requires x in old(t.nodes) && y in old(t.nodes) && (p != null ==> p in old(t.nodes))
    requires (b != null ==> b in old(t.nodes))
    requires old(t.Shape()) && old(t.Exacts()) && t.RotationLeft(x, y, p, b) && t.gaps == old(t.gaps)
    requires forall m | m in t.nodes :: m.lmaxgap == old(m.lmaxgap) && m.rmaxgap == old(m.rmaxgap)
    ensures t.ExactBut(x.idx)
  {
    assert old(t.Down(x));
    assert old(t.Down(y));
    forall m | m in t.nodes ensures t.SideExact(m, x.idx) {
      assert old(t.Exact(m));
      assert m != x && m != y ==> t.SameSlice(m);
    }
  }

  /** The links of rb_rotateRight with the slices that go with them; only summaries towards x turn stale. */
  method TurnRight(t: Tree, x: Entry, y: Entry)
    requires t.Shape() && t.Exacts() && x in t.nodes && x.left == y && y in t.nodes
    requires (x.parent != null ==> x.parent in t.nodes) && (y.right != null ==> y.right in t.nodes)
    modifies t`root, t.nodes`left, t.nodes`right, t.nodes`parent, t.nodes`lo, t.nodes`hi
    ensures t.Shape() && t.ExactBut(x.idx)
    ensures t.RotationRight(x, y, old(x.parent), old(y.right))
  {
    ghost var p, b := x.parent, y.right;
    assert t.Down(x) && t.Up(x) && t.Down(y);
    RelinkRight(t, x, y);
    y.hi, x.lo := x.hi, y.idx + 1;
    t.RotatedRight(x, y, p, b);
    StaleRight(t, x, y, p, b);
  }

  twostate lemma StaleRight(t: Tree, new x: Entry, new y: Entry, new p: Entry?, new b: Entry?)
    requires x in old(t.nodes) && y in old(t.nodes) && (p != null ==> p in old(t.nodes))
    requires (b != null ==> b in old(t.nodes))
    requires old(t.Shape()) && old(t.Exacts()) && t.RotationRight(x, y, p, b) && t.gaps == old(t.gaps)
    requires forall m | m in t.nodes :: m.lmaxgap == old(m.lmaxgap) && m.rmaxgap == old(m.rmaxgap)
    ensures t.ExactBut(x.idx)
  {
    assert old(t.Down(x));
    assert old(t.Down(y));
    forall m | m in t.nodes ensures t.SideExact(m, x.idx) {
      assert old(t.Exact(m));
      assert m != x && m != y ==> t.SameSlice(m);
    }
  }

  /** A node above two siblings has both on the same side. */
  lemma SiblingSides(t: Tree, m: Entry, a: Entry, x: Entry)
    requires t.Shape() && m in t.nodes && a in t.nodes && x in t.nodes && a.parent != null && a.parent == x.parent
    requires m != a && m != a.parent && m.lo <= a.idx < m.hi
    ensures m.lo <= x.idx < m.hi && m.idx != x.idx && m.idx != a.idx && (a.idx < m.idx <==> x.idx < m.idx)
  {
    var y := a.parent;
    assert t.Up(a) && t.Up(x) && t.Up(m);
    t.OnPath(m, a);
    t.OnPath(m, y);
    t.Inside(m, y);
  }

  /** Augmenting the sibling of a stale node does no harm. */
  method AugmentSibling(t: Tree, a: Entry, ghost x: Entry)
    requires t.Shape() && Keyed(t) && a in t.nodes && x in t.nodes && a != x && a.parent != null && a.parent == x.parent
    requires t.ExactBut(x.idx)
    modifies t.nodes`lmaxgap, t.nodes`rmaxgap
    ensures t.ExactBut(x.idx)
  {
    ghost var c, y := t.Path(a), a.parent;
    SiblingsApart(t, a, x);
    AugmentSpine(t, a, c, 1);
    assert TowardExact(t, c, 1);
    assert t.SideExact(y, x.idx);
    assert t.Exact(c[0]);
    forall m | m in t.nodes && m != a && m != y ensures t.SideExact(m, x.idx) {
      assert old(t.SideExact(m, x.idx));
      SiblingKept(t, m, a, x, x.idx);
    }
  }

  twostate lemma SiblingKept(t: Tree, new m: Entry, new a: Entry, new x: Entry, new i: int)
    requires t.Shape() && a in t.nodes && x in t.nodes && m in t.nodes && m in old(t.nodes) && m != a && m != a.parent
    requires a != x && a.parent != null && a.parent == x.parent && i == x.idx && old(t.SideExact(m, i))
    requires t.gaps == old(t.gaps) && t.SameSlice(m)
    requires !(m.lo <= a.idx <= m.idx) ==> m.lmaxgap == old(m.lmaxgap)
    requires !(m.idx <= a.idx < m.hi) ==> m.rmaxgap == old(m.rmaxgap)
    ensures t.SideExact(m, i)
  {
    if m.lo <= a.idx < m.hi { SiblingSides(t, m, a, x); }
  }

  lemma SiblingsApart(t: Tree, a: Entry, x: Entry)
    requires t.Shape() && a in t.nodes && x in t.nodes && a != x && a.parent != null && a.parent == x.parent
    requires t.ExactBut(x.idx)
    ensures |t.Path(a)| > 1 && t.Path(a)[1] == a.parent && a.parent.left != a.parent.right
    ensures a.parent.left == a ==> a.idx < a.parent.idx < x.idx < a.parent.hi && a.parent.right == x
    ensures a.parent.left != a ==> a.parent.lo <= x.idx < a.parent.idx < a.idx && a.parent.left == x
    ensures a.left != null ==> t.Exact(a.left)
    ensures a.right != null ==> t.Exact(a.right)
  {
    assert t.Up(a) && t.Up(x) && t.Down(a.parent) && t.Down(a);
    if a.left != null {
      assert t.Down(a.left);
      assert t.SideExact(a.left, x.idx);
    }
    if a.right != null {
      assert t.Down(a.right);
      assert t.SideExact(a.right, x.idx);
    }
  }

  /** rb_rotateLeft: the order of the nodes and the exactness of every gap summary survive. */
  method RotateLeft(t: Tree, x: Entry)
    requires t.Shape() && Keyed(t) && t.Exacts() && x in t.nodes && x.right != null
    requires x.right in t.nodes && (x.parent != null ==> x.parent in t.nodes)
    requires (x.right.left != null ==> x.right.left in t.nodes)
    modifies t`root, t.nodes`left, t.nodes`right, t.nodes`parent, t.nodes`lo, t.nodes`hi, t.nodes`lmaxgap
    modifies t.nodes`rmaxgap
    ensures t.Shape() && t.Exacts()
    ensures t.RotationLeft(x, old(x.right), old(x.parent), old(x.right.left))
  {
    var y := x.right;
    TurnLeft(t, x, y);
    assert t.Down(y);
    AugmentAll(t, y.left);
    if y.right != null {
      t.ExactIsExactBut(y.right.idx);
      AugmentAll(t, y.right);
    }
  }

  /** rb_rotateRight: the order of the nodes and the exactness of every gap summary survive. */
  method RotateRight(t: Tree, x: Entry)
    requires t.Shape() && Keyed(t) && t.Exacts() && x in t.nodes && x.left != null
    requires x.left in t.nodes && (x.parent != null ==> x.parent in t.nodes)
    requires (x.left.right != null ==> x.left.right in t.nodes)
    modifies t`root, t.nodes`left, t.nodes`right, t.nodes`parent, t.nodes`lo, t.nodes`hi, t.nodes`lmaxgap
    modifies t.nodes`rmaxgap
    ensures t.Shape() && t.Exacts()
    ensures t.RotationRight(x, old(x.left), old(x.parent), old(x.left.right))
  {
    var y := x.left;
    TurnRight(t, x, y);
    assert t.Down(y);
    if y.left != null {
      AugmentSibling(t, y.left, x);
    }
    AugmentAll(t, y.right);
  }
}
