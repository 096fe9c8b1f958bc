/** How the structural steps of lib_rbRemove move colours and black counts. */
module RbColors {
  import opened GapTree
  import opened RbShrink
  import opened RbDetach
  import opened RbSwap

  /** Black counts are what they should be at least. */
  lemma BhPos(t: Tree, d: Debt, n: Entry)
    requires t.Shape() && t.Blacks(d) && n in t.nodes
    ensures n.bh >= if n.color == Black then 1 else 0
    decreases n.hi - n.lo
  {
    assert t.Down(n);
    assert t.Balanced(n, d);
    if n.left != null {
      BhPos(t, d, n.left);
    }
  }

  /** A node below which no black node can be is a red leaf. */
  lemma RedLeaf(t: Tree, v: Entry)
    requires t.Shape() && t.Blacks(Settled) && t.Reds(null) && v in t.nodes && v.bh == 0
    ensures v.color == Red && v.left == null && v.right == null
  {
    assert t.Down(v);
    assert t.Balanced(v, Settled);
    BhPos(t, Settled, v);
    assert v.left != null ==> t.RedOk(v.left);
    assert v.right != null ==> t.RedOk(v.right);
    if v.left != null {
      BhPos(t, Settled, v.left);
    } else if v.right != null {
      BhPos(t, Settled, v.right);
    }
  }

  /** The only child of a node is a red leaf, and its parent is black. */
  lemma OnlyChild(t: Tree, u: Entry, v: Entry?)
    requires t.Shape() && t.Blacks(Settled) && t.Reds(null) && u in t.nodes
    requires (u.left == null && v == u.right) || (u.right == null && v == u.left)
    ensures Removable(t, u, v)
    ensures v != null ==> u.color == Black && v.color == Red && v.bh == 0
    ensures u.bh == if u.color == Black then 1 else 0
  {
    assert t.Down(u);
    assert t.Balanced(u, Settled);
    if v != null {
      RedLeaf(t, v);
      assert t.RedOk(v);
    }
  }

  /** The black count that the removal of u leaves short. */
  ghost function DebtOf(c: Color, p: Entry?, left: bool): Debt {
    if c == Black && p != null then Owed(p, left) else Settled
  }

  twostate lemma ShrunkColors(t: Tree, new u: Entry, new v: Entry?, new p: Entry?, new q: int, new d: Debt)
    requires u in old(t.nodes) && (p != null ==> p in old(t.nodes)) && (v != null ==> v in old(t.nodes))
    requires old(t.Shape()) && Shrunk(t, u, v, p, q) && t.Shape()
    requires old(t.Blacks(Settled)) && old(t.Reds(null))
    requires old(u.bh) == (if old(u.color) == Black then 1 else 0) && (v != null ==> v.bh == 0)
    requires forall n {:trigger t.SamePaint(n)} | n in t.nodes :: t.SamePaint(n)
    requires d == DebtOf(old(u.color), p, p != null && old(p.left) == u)
    ensures t.Blacks(d) && t.Reds(v)
  {
    assert old(t.Up(u) && t.Down(u));
    forall n | n in t.nodes ensures t.Balanced(n, d) {
      assert old(t.Balanced(n, Settled));
      assert old(t.Down(n));
      assert t.SamePaint(n);
      assert n != p ==> t.SameKids(n);
      var l, r := n.left, n.right;
      if l != null && l != v { assert t.SamePaint(l); }
      if r != null && r != v { assert t.SamePaint(r); }
    }
    forall n | n in t.nodes && n != v ensures t.RedOk(n) {
      assert old(t.RedOk(n));
      assert t.SamePaint(n);
      assert t.SameParent(n);
      assert t.Up(n);
      if n.parent != null { assert t.SamePaint(n.parent); }
    }
  }

  /** y, wearing z's colour in z's place, changes nothing for the rest. */
  twostate lemma InheritedBlacks(t: Tree, new z: Entry, new y: Entry, new p: Entry?, new d: Debt)
    requires old(allocated(d)) && z in old(t.nodes) && (p != null ==> p in old(t.nodes)) && y in t.nodes
    requires old(allocated(y))
    requires old(t.Shape()) && Inherited(t, z, y, p) && t.Shape()
    requires (d.Owed? ==> d.at in t.nodes && d.at != y && d.at != z)
    requires old(t.Blacks(d)) && y.color == old(z.color) && y.bh == old(z.bh)
    requires forall n {:trigger t.SamePaint(n)} | n in t.nodes && n != y :: t.SamePaint(n)
    ensures t.Blacks(d)
  {
    assert old(t.Up(z) && t.Down(z));
    assert old(t.Balanced(z, d));
    forall n | n in t.nodes ensures t.Balanced(n, d) {
      assert t.Down(n);
      var l, r := n.left, n.right;
      if l != null && l != y { assert t.SamePaint(l); }
      if r != null && r != y { assert t.SamePaint(r); }
      if n != y {
        assert old(t.Balanced(n, d));
        assert old(t.Down(n));
        assert t.SamePaint(n);
        assert n != p ==> t.SameKids(n);
      }
    }
  }

  twostate lemma InheritedReds(t: Tree, new z: Entry, new y: Entry, new p: Entry?, new x: Entry?)
    requires z in old(t.nodes) && (p != null ==> p in old(t.nodes)) && y in t.nodes && old(allocated(y))
    requires (x != null ==> x in old(t.nodes) && x != z)
    requires old(t.Shape()) && Inherited(t, z, y, p) && t.Shape()
    requires old(t.Reds(x)) && y.color == old(z.color)
    requires forall n {:trigger t.SamePaint(n)} | n in t.nodes && n != y :: t.SamePaint(n)
    ensures t.Reds(x)
  {
    assert old(t.Up(z) && t.Down(z));
    forall n | n in t.nodes && n != x ensures t.RedOk(n) {
      assert t.Up(n);
      if n == y {
        assert old(t.RedOk(z));
        if p != null { assert t.SamePaint(p); }
      } else {
        assert old(t.RedOk(n));
        assert old(t.Up(n));
        assert t.SamePaint(n);
        assert n != y.left && n != y.right ==> t.SameParent(n);
        var m := n.parent;
        if m != null && m != y { assert t.SamePaint(m); }
      }
    }
  }

  /** y moves up into z's place and takes its colour; its right child x is short of y's own blackness. */
  twostate lemma PromotedColors(t: Tree, new z: Entry, new y: Entry, new p: Entry?, new d: Debt)
    requires z in old(t.nodes) && y in old(t.nodes) && (p != null ==> p in old(t.nodes)) && y in t.nodes
    requires old(t.Shape()) && Promoted(t, z, y, p) && t.Shape()
    requires old(t.Blacks(Settled)) && old(t.Reds(null))
    requires old(y.bh) == (if old(y.color) == Black then 1 else 0) && (y.right != null ==> y.right.bh == 0)
    requires y.color == old(z.color) && y.bh == old(z.bh) && d == DebtOf(old(y.color), y, false)
    requires forall n {:trigger t.SamePaint(n)} | n in t.nodes && n != y :: t.SamePaint(n)
    ensures t.Blacks(d) && t.Reds(y.right)
  {
    PromotedBlack(t, z, y, p, d);
    forall n | n in t.nodes && n != y ensures t.Balanced(n, d) {
      PromotedBlacks(t, z, y, p, d, n);
    }
    PromotedReds(t, z, y, p);
  }

  twostate lemma PromotedBlack(t: Tree, new z: Entry, new y: Entry, new p: Entry?, new d: Debt)
    requires z in old(t.nodes) && y in old(t.nodes) && (p != null ==> p in old(t.nodes)) && y in t.nodes
    requires old(t.Shape()) && Promoted(t, z, y, p) && t.Shape() && old(t.Blacks(Settled))
    requires old(y.bh) == (if old(y.color) == Black then 1 else 0) && (y.right != null ==> y.right.bh == 0)
    requires y.color == old(z.color) && y.bh == old(z.bh) && d == DebtOf(old(y.color), y, false)
    requires forall n {:trigger t.SamePaint(n)} | n in t.nodes && n != y :: t.SamePaint(n)
    ensures t.Balanced(y, d)
  {
    assert old(t.Down(z));
    assert old(t.Down(y));
    assert old(t.Balanced(z, Settled));
    assert t.Down(y);
    if y.left != null { assert t.SamePaint(y.left); }
    if y.right != null { assert t.SamePaint(y.right); }
  }

  twostate lemma PromotedBlacks(t: Tree, new z: Entry, new y: Entry, new p: Entry?, new d: Debt, new n: Entry)
    requires z in old(t.nodes) && y in old(t.nodes) && (p != null ==> p in old(t.nodes)) && y in t.nodes
    requires old(t.Shape()) && Promoted(t, z, y, p) && t.Shape() && old(t.Blacks(Settled)) && n in t.nodes && n != y
    requires y.color == old(z.color) && y.bh == old(z.bh) && (d.Owed? ==> d.at == y)
    requires forall m {:trigger t.SamePaint(m)} | m in t.nodes && m != y :: t.SamePaint(m)
    ensures t.Balanced(n, d)
  {
    assert old(t.Up(z) && t.Down(z));
    assert t.Down(n);
    var l, r := n.left, n.right;
    if l != null && l != y { assert t.SamePaint(l); }
    if r != null && r != y { assert t.SamePaint(r); }
    assert old(t.Balanced(n, Settled));
    assert old(t.Down(n));
    assert t.SamePaint(n);
    assert n != p ==> t.SameKids(n);
  }

  twostate lemma PromotedReds(t: Tree, new z: Entry, new y: Entry, new p: Entry?)
    requires z in old(t.nodes) && y in old(t.nodes) && (p != null ==> p in old(t.nodes)) && y in t.nodes
    requires old(t.Shape()) && Promoted(t, z, y, p) && t.Shape() && old(t.Reds(null)) && y.color == old(z.color)
    requires forall n {:trigger t.SamePaint(n)} | n in t.nodes && n != y :: t.SamePaint(n)
    ensures t.Reds(y.right)
  {
    assert old(t.Up(z) && t.Down(z));
    assert old(t.Down(y));
    forall n | n in t.nodes && n != y.right ensures t.RedOk(n) {
      assert t.Up(n);
      if n == y {
        assert old(t.RedOk(z));
        if p != null { assert t.SamePaint(p); }
      } else {
        assert old(t.RedOk(n));
        assert old(t.Up(n));
        assert t.SamePaint(n);
        assert n != y.left ==> t.SameParent(n);
        var m := n.parent;
        if m != null && m != y { assert t.SamePaint(m); }
      }
    }
  }
}
