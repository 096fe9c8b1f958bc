/** lib_rbRemove (lib/rb.c). */
module RbRemove {
  import opened GapTree
  import opened RbAugment
  import opened RbWalk
  import opened RbShrink
  import opened RbDetach
  import opened RbSwap
  import opened RbColors
  import opened RbFixup

  /** A sound tree around its member z; the sizes of the gaps on either side of z may be out of date. */
  ghost predicate Leaving(t: Tree, z: Entry)
    reads t, t.nodes, t.order
  {
    && t.Shape() && t.Blacks(Settled) && t.Reds(null) && (t.root != null ==> t.root.color == Black)
    && Keyed(t) && z in t.nodes && t.ExactOffGaps(z.idx, z.idx + 1)
  }

  /** What is left of the tree when a node of color c is gone from between p and x. */
  ghost predicate Gone(t: Tree, p: Entry?, x: Entry?, c: Color)
    reads t, t.nodes, t.order
  {
    if c == Black then Short(t, p, x) else t.RedBlack() && Keyed(t)
  }

  /** z, with at most one child v, is spliced out. */
  method RemoveOuter(t: Tree, z: Entry, v: Entry?)
    requires Leaving(t, z)
    requires (z.left == null && v == z.right) || (z.right == null && v == z.left)
    modifies t`root, t`order, t`nodes, t`gaps, t.nodes`lo, t.nodes`idx, t.nodes`hi
    modifies t.nodes`left, t.nodes`right, t.nodes`parent, t.nodes`lmaxgap, t.nodes`rmaxgap
    ensures Gone(t, old(z.parent), v, old(z.color))
    ensures t.nodes == old(t.nodes) - {z} && 0 <= old(z.idx) < |old(t.order)|
    ensures t.order == old(t.order)[..old(z.idx)] + old(t.order)[old(z.idx) + 1..]
  {
    ghost var p, q := z.parent, z.idx;
    assert t.Up(z) && t.Down(z);
    ghost var left := p != null && p.left == z;
    OnlyChild(t, z, v);
    Detach(t, z, v);
    ghost var d := DebtOf(z.color, p, left);
    ShrunkColors(t, z, v, p, q, d);
    if p != null {
      assert t.Down(p) && t.Balanced(p, d);
    } else {
      assert t.root == v;
    }
  }

  /** y takes over z's color, and its black height. */
  method Dress(y: Entry, z: Entry)
    modifies y`color, y`bh
    ensures y.color == old(z.color) && y.bh == old(z.bh)
  {
    y.color := z.color;
    y.bh := z.bh;
  }

  method Lift(t: Tree, z: Entry, y: Entry)
    requires Leaving(t, z) && y in t.nodes && y == z.right && y.left == null && z.left != null
    modifies t`root, t`order, t`nodes, t`gaps, t.nodes`lo, t.nodes`idx, t.nodes`hi
    modifies t.nodes`left, t.nodes`right, t.nodes`parent, t.nodes`lmaxgap, t.nodes`rmaxgap
    ensures y in t.nodes && Promoted(t, z, y, old(z.parent))
    ensures (old(z.parent) != null ==> old(z.parent) in old(t.nodes))
    ensures t.Shape() && Keyed(t) && t.ExactOffGaps(y.idx, y.idx + 1) && (y.right == null ==> t.RExact(y))
    ensures y.bh == (if y.color == Black then 1 else 0)
    ensures (y.right != null ==> y.right in t.nodes && y.right.bh == 0 && y.color == Black)
    ensures if old(z.parent) == null then z.color == Black else t.root != y
  {
    assert t.Up(z) && t.Down(z) && t.Down(y);
    OnlyChild(t, y, y.right);
    Promote(t, z, y);
    PromotedShape(t, z, y, old(z.parent));
  }

  /** The successor of z is its own right child: it moves up and takes z's color. */
  method MoveUp(t: Tree, z: Entry, y: Entry)
    requires Leaving(t, z) && y in t.nodes && y == z.right && y.left == null && z.left != null
    modifies t`root, t`order, t`nodes, t`gaps, t.nodes`lo, t.nodes`idx, t.nodes`hi
    modifies t.nodes`left, t.nodes`right, t.nodes`parent, t.nodes`lmaxgap, t.nodes`rmaxgap, y`color, y`bh
    ensures t.Shape() && Keyed(t) && y in t.nodes && t.ExactOffGaps(y.idx, y.idx + 1)
    ensures (y.right == null ==> t.RExact(y))
    ensures y.left != null && y.right == old(y.right)
    ensures t.Blacks(DebtOf(old(y.color), y, false)) && t.Reds(y.right) && t.root != null && t.root.color == Black
    ensures t.nodes == old(t.nodes) - {z} && 0 <= old(z.idx) < |old(t.order)|
    ensures t.order == old(t.order)[..old(z.idx)] + old(t.order)[old(z.idx) + 1..]
    ensures old(y.color) == Red ==> y.right == null
  {
    ghost var p := z.parent;
    Lift(t, z, y);
    Dress(y, z);
    PromotedColors(t, z, y, p, DebtOf(old(y.color), y, false));
  }

  method RemovePromote(t: Tree, z: Entry, y: Entry)
    requires Leaving(t, z) && y in t.nodes && y == z.right && y.left == null && z.left != null
    modifies t`root, t`order, t`nodes, t`gaps, t.nodes`lo, t.nodes`idx, t.nodes`hi
    modifies t.nodes`left, t.nodes`right, t.nodes`parent, t.nodes`lmaxgap, t.nodes`rmaxgap, y`color, y`bh
    ensures Gone(t, y, old(y.right), old(y.color))
    ensures t.nodes == old(t.nodes) - {z} && 0 <= old(z.idx) < |old(t.order)|
    ensures t.order == old(t.order)[..old(z.idx)] + old(t.order)[old(z.idx) + 1..]
  {
    MoveUp(t, z, y);
    Finish(t, y);
    assert t.Down(y);
  }

  /** Widening the stretch of doubtful gaps. */
  lemma Wider(t: Tree, a: int, b: int)
    requires t.ExactOffGaps(a, b)
    ensures t.ExactOffGaps(a, b + 1)
  {
    forall m | m in t.nodes ensures t.GapExact(m, a, b + 1) {
      assert t.GapExact(m, a, b);
    }
  }

  /** The facts about z, its successor y further down, and y's parent, before y is plucked. */
  lemma Below(t: Tree, z: Entry, y: Entry)
    requires Leaving(t, z) && z.left != null && z.right != null
    requires y in t.nodes && y.idx == z.idx + 1 && y.left == null && y.parent != z
    ensures Removable(t, y, y.right) && y.bh == (if y.color == Black then 1 else 0)
    ensures y.right != null ==>
      y.right in t.nodes && y.right.bh == 0 && y.color == Black && y.right != z && y.right != y
    ensures y.parent != null && y.parent in t.nodes && y.parent != y && y.parent.left == y && y.parent.right != y
    ensures t.ExactOffGaps(z.idx, y.idx + 1) && z != y && y.parent.lo == z.idx + 1
    ensures z.left in t.nodes && z.right in t.nodes && z.left != y && z.right != y
    ensures 0 < y.idx < |t.order| && (0 < z.idx ==> t.order[z.idx - 1].vaddr < y.vaddr)
    ensures y.idx + 1 < |t.order| ==> y.vaddr < t.order[y.idx + 1].vaddr
  {
    OnlyChild(t, y, y.right);
    Wider(t, z.idx, z.idx + 1);
    assert t.Down(z) && t.Up(y) && t.Down(y);
    if y.right != null { assert t.Down(y.right); }
    assert t.Down(z.right);
    t.Inside(z, y);
    assert 0 < z.idx ==> Starts(t.order, z.idx - 1, y.idx);
    assert y.idx + 1 < |t.order| ==> Starts(t.order, y.idx, y.idx + 1);
    if y.parent == null { assert false; }
    assert t.Down(y.parent);
    if y.parent.right == y { assert false; }
  }

  /** The successor y of z is taken out from further down. */
  method Pluck(t: Tree, z: Entry, y: Entry)
    requires Leaving(t, z) && z.left != null && z.right != null
    requires y in t.nodes && y.idx == z.idx + 1 && y.left == null && y.parent != z
    modifies t`root, t`order, t`nodes, t`gaps, t.nodes`lo, t.nodes`idx, t.nodes`hi
    modifies t.nodes`left, t.nodes`right, t.nodes`parent, t.nodes`lmaxgap, t.nodes`rmaxgap
    ensures Shrunk(t, y, old(y.right), old(y.parent), old(y.idx)) && t.Shape() && Keyed(t)
    ensures t.ExactOffGaps(z.idx, z.idx + 1)
    ensures z.idx == old(z.idx) && z in t.nodes && y !in t.nodes && y.left == null && y.parent == old(y.parent)
    ensures z.left != null && z.right != null
    ensures old(y.parent) != null && old(y.parent) in t.nodes && old(y.parent) != z && old(y.parent) != y
  {
    var p, x := y.parent, y.right;
    Below(t, z, y);
    ghost var c := t.Path(p);
    Unlink(t, y, x, c, z.idx);
    ShrunkShape(t, y, x, p, old(y.idx));
    assert Closed(z, old(y.idx)) && t.SameKids(z);
  }

  /** Before z's place is filled: the tree without y, and without a black node if y was black. */
  method PluckPainted(t: Tree, z: Entry, y: Entry)
    requires Leaving(t, z) && z.left != null && z.right != null
    requires y in t.nodes && y.idx == z.idx + 1 && y.left == null && y.parent != z
    modifies t`root, t`order, t`nodes, t`gaps, t.nodes`lo, t.nodes`idx, t.nodes`hi
    modifies t.nodes`left, t.nodes`right, t.nodes`parent, t.nodes`lmaxgap, t.nodes`rmaxgap
    ensures Plucked(t, z, y, old(y.parent), old(y.right), y.color) && y.left == null && z.idx == old(z.idx)
    ensures t.nodes == old(t.nodes) - {y} && 0 <= z.idx && z.idx + 1 < |old(t.order)| && old(t.order)[z.idx + 1] == y
    ensures t.order == old(t.order)[..z.idx + 1] + old(t.order)[z.idx + 2..]
    ensures 0 < z.idx ==> t.order[z.idx - 1].vaddr < y.vaddr
    ensures z.idx + 1 < |t.order| ==> y.vaddr < t.order[z.idx + 1].vaddr
  {
    ghost var p, x := y.parent, y.right;
    Below(t, z, y);
    assert t.Up(y);
    Pluck(t, z, y);
    ShrunkColors(t, y, x, p, old(y.idx), DebtOf(y.color, p, true));
    assert t.root == old(t.root) && Closed(p, old(y.idx));
    assert t.Down(p) && t.Balanced(p, DebtOf(y.color, p, true));
  }

  ghost predicate Plucked(t: Tree, z: Entry, y: Entry, p: Entry?, x: Entry?, c: Color)
    reads t, t.nodes, t.order
  {
    && t.Shape() && Keyed(t) && z in t.nodes && y !in t.nodes && t.ExactOffGaps(z.idx, z.idx + 1)
    && z.left != null && z.right != null && t.root != null && t.root.color == Black
    && p != null && p in t.nodes && z.idx < p.lo && p != z
      && (x != null ==> x in t.nodes && x != z && x.parent == p && c == Black)
    && t.Blacks(DebtOf(c, p, true)) && t.Reds(x) && p.left == x && (c == Black ==> p.right != null)
  }

  /** y takes z's place. */
  method Replace(t: Tree, z: Entry, y: Entry, ghost p: Entry, ghost x: Entry?)
    requires Plucked(t, z, y, p, x, y.color) && y.left == null
    requires 0 < z.idx <= |t.order| ==> t.order[z.idx - 1].vaddr < y.vaddr
    requires 0 <= z.idx + 1 < |t.order| ==> y.vaddr < t.order[z.idx + 1].vaddr
    modifies t`root, t`order, t`nodes, t`gaps, y`lo, y`idx, y`hi, y`left, y`right, y`parent, y`lmaxgap, y`rmaxgap
    modifies t.nodes`left, t.nodes`right, t.nodes`parent, t.nodes`lmaxgap, t.nodes`rmaxgap
    ensures Inherited(t, z, y, old(z.parent)) && (old(z.parent) != null ==> old(z.parent) in old(t.nodes))
    ensures y in t.nodes && t.Shape() && Keyed(t) && t.ExactOffGaps(y.idx, y.idx + 1)
    ensures p in t.nodes && p.left == x && p.right == old(p.right) && p != y
    ensures (x != null ==> x in t.nodes && x.parent == p)
    ensures y.left != null && y.right != null
    ensures if old(z.parent) == null then z.color == Black && t.root == y else t.root != y && t.root == old(t.root)
  {
    assert t.Up(z) && t.Down(z) && t.Down(p);
    Inherit(t, z, y);
    InheritedShape(t, z, y, old(z.parent));
    assert t.SameKids(p);
    if x != null { assert t.SameParent(x); }
  }

  method Occupy(t: Tree, z: Entry, y: Entry, ghost p: Entry, ghost x: Entry?)
    requires Plucked(t, z, y, p, x, y.color) && y.left == null
    requires 0 < z.idx <= |t.order| ==> t.order[z.idx - 1].vaddr < y.vaddr
    requires 0 <= z.idx + 1 < |t.order| ==> y.vaddr < t.order[z.idx + 1].vaddr
    modifies t`root, t`order, t`nodes, t`gaps, y`lo, y`idx, y`hi, y`left, y`right, y`parent, y`lmaxgap, y`rmaxgap
    modifies y`color, y`bh
    modifies t.nodes`left, t.nodes`right, t.nodes`parent, t.nodes`lmaxgap, t.nodes`rmaxgap
    ensures Inherited(t, z, y, old(z.parent)) && (old(z.parent) != null ==> old(z.parent) in old(t.nodes))
    ensures y in t.nodes && t.Shape() && Keyed(t) && t.ExactOffGaps(y.idx, y.idx + 1)
    ensures p in t.nodes && p.left == x && p.right == old(p.right) && p != y
    ensures (x != null ==> x in t.nodes && x.parent == p)
    ensures y.left != null && y.right != null && y.color == z.color && y.bh == z.bh
    ensures t.root != null && t.root.color == Black
  {
    assert t.Up(z);
    Replace(t, z, y, p, x);
    Dress(y, z);
  }

  /** y takes z's place and color. */
  method ReplacePainted(t: Tree, z: Entry, y: Entry, ghost p: Entry, ghost x: Entry?)
    requires Plucked(t, z, y, p, x, y.color) && y.left == null
    requires 0 < z.idx <= |t.order| ==> t.order[z.idx - 1].vaddr < y.vaddr
    requires 0 <= z.idx + 1 < |t.order| ==> y.vaddr < t.order[z.idx + 1].vaddr
    modifies t`root, t`order, t`nodes, t`gaps, y`lo, y`idx, y`hi, y`left, y`right, y`parent, y`lmaxgap, y`rmaxgap
    modifies y`color, y`bh
    modifies t.nodes`left, t.nodes`right, t.nodes`parent, t.nodes`lmaxgap, t.nodes`rmaxgap
    ensures y in t.nodes && t.Shape() && Keyed(t) && t.ExactOffGaps(y.idx, y.idx + 1) && y.left != null
    ensures y.right != null
    ensures t.Blacks(DebtOf(old(y.color), p, true)) && t.Reds(x) && t.root != null && t.root.color == Black
    ensures p in t.nodes && p.left == x && p.right == old(p.right) && (x != null ==> x in t.nodes && x.parent == p)
    ensures t.nodes == old(t.nodes) - {z} + {y} && 0 <= old(z.idx) < |old(t.order)|
    ensures t.order == old(t.order)[old(z.idx) := y]
  {
    Occupy(t, z, y, p, x);
    InheritedBlacks(t, z, y, old(z.parent), DebtOf(old(y.color), p, true));
    InheritedReds(t, z, y, old(z.parent), x);
  }

  /** Taking out the next one and putting it in place of the one at i is taking out the one at i. */
  lemma StepUp(s: seq<Entry>, i: int)
    ensures 0 <= i && i + 1 < |s| ==> (s[..i + 1] + s[i + 2..])[i := s[i + 1]] == s[..i] + s[i + 1..]
  {
  }

  /** The successor y of z, further down, is taken out there and put in z's place. */
  method MoveHere(t: Tree, z: Entry, y: Entry)
    requires Leaving(t, z) && z.left != null && z.right != null
    requires y in t.nodes && y.idx == z.idx + 1 && y.left == null && y.parent != z
    modifies t`root, t`order, t`nodes, t`gaps, t.nodes`lo, t.nodes`idx, t.nodes`hi
    modifies t.nodes`left, t.nodes`right, t.nodes`parent, t.nodes`lmaxgap, t.nodes`rmaxgap, y`color, y`bh
    ensures Moved(t, y, old(y.parent), old(y.right), old(y.color)) && t.ExactOffGaps(y.idx, y.idx + 1)
    ensures t.nodes == old(t.nodes) - {z} && 0 <= old(z.idx) < |old(t.order)|
    ensures t.order == old(t.order)[..old(z.idx)] + old(t.order)[old(z.idx) + 1..]
  {
    ghost var p, x := y.parent, y.right;
    StepUp(t.order, z.idx);
    PluckPainted(t, z, y);
    ReplacePainted(t, z, y, p, x);
  }

  /** y is in its place, and below p a black node may be missing. */
  ghost predicate Moved(t: Tree, y: Entry, p: Entry?, x: Entry?, c: Color)
    reads t, t.nodes, t.order
  {
    && t.Shape() && Keyed(t) && y in t.nodes && y.left != null && y.right != null
    && t.Blacks(DebtOf(c, p, true)) && t.Reds(x) && t.root != null && t.root.color == Black
    && p != null && p in t.nodes && p.left == x && (c == Black ==> p.right != null)
    && (x != null ==> x in t.nodes && x.parent == p && c == Black)
  }

  lemma MovedGone(t: Tree, y: Entry, p: Entry?, x: Entry?, c: Color)
    requires Moved(t, y, p, x, c) && t.Exacts()
    ensures Gone(t, p, x, c)
  {
    assert t.Down(p);
  }

  /** The successor of z lies further down: it is put in z's place and the summaries are settled. */
  method RemoveInner(t: Tree, z: Entry, y: Entry)
    requires Leaving(t, z) && z.left != null && z.right != null
    requires y in t.nodes && y.idx == z.idx + 1 && y.left == null && y.parent != z
    modifies t`root, t`order, t`nodes, t`gaps, t.nodes`lo, t.nodes`idx, t.nodes`hi
    modifies t.nodes`left, t.nodes`right, t.nodes`parent, t.nodes`lmaxgap, t.nodes`rmaxgap, y`color, y`bh
    ensures Gone(t, old(y.parent), old(y.right), old(y.color))
    ensures t.nodes == old(t.nodes) - {z} && 0 <= old(z.idx) < |old(t.order)|
    ensures t.order == old(t.order)[..old(z.idx)] + old(t.order)[old(z.idx) + 1..]
  {
    ghost var p, x, c := y.parent, y.right, y.color;
    MoveHere(t, z, y);
    Finish(t, y);
    MovedGone(t, y, p, x, c);
  }

  /** lib_rbRemove: whatever the shape, z alone is gone and the tree is sound again. */
  method Remove(t: Tree, z: Entry)
    requires Leaving(t, z)
    modifies t`root, t`order, t`nodes, t`gaps, t.nodes`lo, t.nodes`idx, t.nodes`hi
    modifies t.nodes`left, t.nodes`right, t.nodes`parent, t.nodes`lmaxgap, t.nodes`rmaxgap, t.nodes`color, t.nodes`bh
    ensures t.RedBlack() && Keyed(t)
    ensures t.nodes == old(t.nodes) - {z} && 0 <= old(z.idx) < |old(t.order)| && old(t.order)[old(z.idx)] == z
    ensures t.order == old(t.order)[..old(z.idx)] + old(t.order)[old(z.idx) + 1..]
  {
    var p, c := z.parent, z.color;
    var x: Entry?;
    assert t.Down(z);
    if z.left == null {
      x := z.right;
      RemoveOuter(t, z, x);
    } else if z.right == null {
      x := z.left;
      RemoveOuter(t, z, x);
    } else {
      var y := Minimum(t, z.right);
      c, x := y.color, y.right;
      if y.parent == z {
        p := y;
        Successor(t, z, y);
        RemovePromote(t, z, y);
      } else {
        p := y.parent;
        RemoveInner(t, z, y);
      }
    }
    if c == Black {
      RemoveBalance(t, p, x);
    }
  }

  lemma Successor(t: Tree, z: Entry, y: Entry)
    requires t.Shape() && z in t.nodes && y in t.nodes && y.parent == z && y.idx == z.idx + 1
    ensures y == z.right
  {
    assert t.Down(z) && t.Up(y);
  }
}
