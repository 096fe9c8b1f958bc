/** lib_rbInsert and lib_rbInsertBalance (lib/rb.c). */
module RbInsert {
  import opened Kernel
  import opened GapTree
  import opened RbAugment
  import opened RbRotate
  import opened RbGrow
  import opened RbPivot

  /** A red-black tree but for a red node z that may have a red parent. */
  ghost predicate Mid(t: Tree, z: Entry)
    reads t, t.nodes, t.order
  {
    && t.Shape() && Keyed(t) && t.Exacts() && t.Blacks(Settled) && t.Reds(z)
    && z in t.nodes && z.color == Red && t.root != null && (t.root == z || t.root.color == Black)
  }

  /** The family of a red node whose parent is red. */
  lemma Family(t: Tree, z: Entry)
    requires Mid(t, z) && z.parent != null && z.parent.color == Red
    ensures z.parent in t.nodes && z.parent.parent != null && z.parent.parent in t.nodes
    ensures z.parent.parent.color == Black && z.parent != z && z.parent.parent != z && z.parent.parent != z.parent
    ensures z.parent.parent.left == z.parent || z.parent.parent.right == z.parent
    ensures z.parent.left == z || z.parent.right == z
    ensures z.parent.left != z.parent.right && z.parent.parent.left != z.parent.parent.right
    ensures z.parent.parent.parent != null ==> z.parent.parent.parent in t.nodes
  {
    var p := z.parent;
    assert t.Up(z) && t.Up(p);
    assert t.RedOk(p);
    assert t.Up(p.parent);
  }

  method Paint(p: Entry, u: Entry, g: Entry)
    requires p != u && p != g && u != g
    modifies p`color, u`color, g`color, p`bh, u`bh
    ensures p.color == Black && u.color == Black && g.color == Red
    ensures p.bh == old(p.bh) + 1 && u.bh == old(u.bh) + 1
  {
    p.color := Black;
    u.color := Black;
    g.color := Red;
    p.bh, u.bh := p.bh + 1, u.bh + 1;
  }

  /** The three repainted nodes keep every black count. */
  twostate lemma Repainted(t: Tree, new z: Entry, new p: Entry, new g: Entry, new u: Entry)
    requires z in old(t.nodes) && p in t.nodes && g in t.nodes && u in t.nodes && z in t.nodes
    requires t.nodes == old(t.nodes)
    requires old(t.Shape()) && t.Shape() && old(t.Blacks(Settled)) && old(t.Reds(z))
    requires p == z.parent && g == p.parent && ((g.left == p && g.right == u) || (g.left == u && g.right == p))
    requires old(p.color == Red && u.color == Red && g.color == Black)
    requires p.color == Black && u.color == Black && g.color == Red
    requires p.bh == old(p.bh) + 1 && u.bh == old(u.bh) + 1 && g.bh == old(g.bh)
    requires forall n {:trigger t.SamePaint(n)} | n in t.nodes && n != p && n != g && n != u :: t.SamePaint(n)
    requires forall n {:trigger t.SameKids(n)} | n in t.nodes :: t.SameKids(n)
    requires forall n {:trigger t.SameParent(n)} | n in t.nodes :: t.SameParent(n)
    ensures t.Blacks(Settled) && t.Reds(g)
  {
    assert t.Down(g);
    assert t.SameKids(g);
    assert old(t.Balanced(g, Settled));
    forall n | n in t.nodes ensures t.Balanced(n, Settled) {
      assert old(t.Balanced(n, Settled));
      assert t.Down(n);
      assert t.SameKids(n);
      assert n != p && n != g && n != u ==> t.SamePaint(n);
      if n.left != null && n.left != p && n.left != u && n.left != g { assert t.SamePaint(n.left); }
      if n.right != null && n.right != p && n.right != u && n.right != g { assert t.SamePaint(n.right); }
    }
    forall n | n in t.nodes && n != g ensures t.RedOk(n) {
      assert n != z ==> old(t.RedOk(n));
      assert t.Up(n);
      assert t.SameParent(n);
      assert n != p && n != u ==> t.SamePaint(n);
      if n.parent != null && n.parent != p && n.parent != u && n.parent != g { assert t.SamePaint(n.parent); }
    }
  }

  /** Red uncle: push the blackness of the grandparent down. */
  method Recolor(t: Tree, z: Entry, p: Entry, g: Entry, u: Entry)
    requires Mid(t, z) && p == z.parent && p.color == Red && g == p.parent && p in t.nodes && g in t.nodes
    requires u in t.nodes
    requires u.color == Red && u != p && (g.left == u || g.right == u)
    modifies t.nodes`color, t.nodes`bh
    ensures Mid(t, g)
  {
    Family(t, z);
    Paint(p, u, g);
    Repainted(t, z, p, g, u);
  }

  /** Inner grandchild on the left: turn it into the outer case. */
  method InnerLeft(t: Tree, p: Entry, z: Entry)
    requires Mid(t, z) && p == z.parent && p.color == Red && p in t.nodes && p.right == z
    requires p.parent != null && p.parent in t.nodes && p.parent.left == p
    requires z.left == null || z.left in t.nodes
    modifies t`root, t.nodes`left, t.nodes`right, t.nodes`parent, t.nodes`lo, t.nodes`hi, t.nodes`lmaxgap
    modifies t.nodes`rmaxgap
    ensures Mid(t, p) && p.parent == z && z.left == p && z.color == Red
    ensures z.parent == old(p.parent) && z.parent.left == z && z.parent.right == old(p.parent.right)
    ensures z.parent.lo == old(p.parent.lo) && z.parent.hi == old(p.parent.hi)
  {
    ghost var g, b := p.parent, z.left;
    Family(t, z);
    assert t.Down(p) && t.Down(z) && t.Down(g);
    assert t.Balanced(p, Settled) && t.Balanced(z, Settled);
    assert b != null ==> t.RedOk(b);
    RotateLeft(t, p);
    assert t.SameSlice(g);
    t.BalanceLeft(p, z, g, b, Settled);
    t.RedsLeft(p, z, g, b, p);
  }

  /** Inner grandchild on the right: turn it into the outer case. */
  method InnerRight(t: Tree, p: Entry, z: Entry)
    requires Mid(t, z) && p == z.parent && p.color == Red && p in t.nodes && p.left == z
    requires p.parent != null && p.parent in t.nodes && p.parent.right == p
    requires z.right == null || z.right in t.nodes
    modifies t`root, t.nodes`right, t.nodes`left, t.nodes`parent, t.nodes`lo, t.nodes`hi, t.nodes`lmaxgap
    modifies t.nodes`rmaxgap
    ensures Mid(t, p) && p.parent == z && z.right == p && z.color == Red
    ensures z.parent == old(p.parent) && z.parent.right == z && z.parent.left == old(p.parent.left)
    ensures z.parent.lo == old(p.parent.lo) && z.parent.hi == old(p.parent.hi)
  {
    ghost var g, b := p.parent, z.right;
    Family(t, z);
    assert t.Down(p) && t.Down(z) && t.Down(g);
    assert t.Balanced(p, Settled) && t.Balanced(z, Settled);
    assert b != null ==> t.RedOk(b);
    RotateRight(t, p);
    assert t.SameSlice(g);
    t.BalanceRight(p, z, g, b, Settled);
    t.RedsRight(p, z, g, b, p);
  }

  /** The repainting that precedes the last rotation. */
  method Flip(t: Tree, g: Entry, p: Entry, ghost u: Entry?, ghost b: Entry?, ghost z: Entry)
    requires t.Shape() && t.Blacks(Settled) && t.Reds(z) && p in t.nodes && g in t.nodes && p != g && z in t.nodes
    requires u != null ==> u in t.nodes && u.color == Black
    requires (g.left == p && g.right == u && p.left == z && p.right == b)
      || (g.right == p && g.left == u && p.right == z && p.left == b)
    modifies p`color, g`color
    ensures p.color == Black && g.color == Red
    ensures forall n {:trigger t.Balanced(n, Settled)} | n in t.nodes && n != g && n != p :: t.Balanced(n, Settled)
    ensures forall n {:trigger t.RedOk(n)} | n in t.nodes && n != g && n != p && n != b && n != z :: t.RedOk(n)
  {
    p.color := Black;
    g.color := Red;
    forall n | n in t.nodes && n != g && n != p ensures t.Balanced(n, Settled) {
      assert old(t.Balanced(n, Settled));
    }
    forall n | n in t.nodes && n != g && n != p && n != b && n != z ensures t.RedOk(n) {
      assert old(t.RedOk(n));
      assert t.Up(n);
    }
  }

  /** Outer grandchild on the left: one rotation ends the repair. */
  method OuterLeft(t: Tree, g: Entry, p: Entry, z: Entry)
    requires Mid(t, z) && p == z.parent && p.color == Red && p in t.nodes && p.left == z
    requires g == p.parent && g in t.nodes && g.left == p
    requires (g.right != null ==> g.right in t.nodes && g.right.color == Black)
    modifies t`root, t.nodes`left, t.nodes`right, t.nodes`parent, t.nodes`lo, t.nodes`hi, t.nodes`lmaxgap
    modifies t.nodes`rmaxgap
    modifies t.nodes`color, t.nodes`bh
    ensures Mid(t, z) && z.parent == p && p.color == Black
  {
    ghost var q, b, u := g.parent, p.right, g.right;
    Family(t, z);
    assert t.Down(p) && t.Down(g) && t.Up(g);
    assert t.Balanced(p, Settled) && t.Balanced(g, Settled);
    assert b != null ==> t.RedOk(b);
    Flip(t, g, p, u, b, z);
    label L:
    PivotRight(t, g, p, q, b, Settled, z, p.bh, p.bh + 1);
    assert t.SameParent@L(z);
  }

  /** Outer grandchild on the right: one rotation ends the repair. */
  method OuterRight(t: Tree, g: Entry, p: Entry, z: Entry)
    requires Mid(t, z) && p == z.parent && p.color == Red && p in t.nodes && p.right == z
    requires g == p.parent && g in t.nodes && g.right == p
    requires (g.left != null ==> g.left in t.nodes && g.left.color == Black)
    modifies t`root, t.nodes`right, t.nodes`left, t.nodes`parent, t.nodes`lo, t.nodes`hi, t.nodes`lmaxgap
    modifies t.nodes`rmaxgap
    modifies t.nodes`color, t.nodes`bh
    ensures Mid(t, z) && z.parent == p && p.color == Black
  {
    ghost var q, b, u := g.parent, p.left, g.left;
    Family(t, z);
    assert t.Down(p) && t.Down(g) && t.Up(g);
    assert t.Balanced(p, Settled) && t.Balanced(g, Settled);
    assert b != null ==> t.RedOk(b);
    Flip(t, g, p, u, b, z);
    label L:
    PivotLeft(t, g, p, q, b, Settled, z, p.bh, p.bh + 1);
    assert t.SameParent@L(z);
  }

  /** How far the repair is from its end: the size of the tree outside the grandparent, then the two rotations. */
  ghost function Distance(t: Tree, z: Entry): nat
    requires Mid(t, z)
    reads t, t.nodes, t.order
  {
    assert t.Up(z);
    if z.parent == null || z.parent.color == Black then 0
    else
      Family(t, z); assert t.Up(z.parent.parent);
      2 * (|t.order| + 1 - (z.parent.parent.hi - z.parent.parent.lo)) +
      (if (z.parent.left == z) == (z.parent.parent.left == z.parent) then 0 else 1)
  }

  /** lib_rbInsertBalance. */
  method InsertBalance(t: Tree, node: Entry)
    requires Mid(t, node)
    modifies t`root, t.nodes`left, t.nodes`right, t.nodes`parent, t.nodes`lo, t.nodes`hi, t.nodes`lmaxgap
    modifies t.nodes`rmaxgap
    modifies t.nodes`color, t.nodes`bh
    ensures t.RedBlack() && Keyed(t)
  {
    var z := node;
    while z.parent != null && z.parent.color == Red
      invariant Mid(t, z)
      decreases Distance(t, z)
    {
      Family(t, z);
      if z.parent == z.parent.parent.left {
        z := StepLeft(t, z);
      } else {
        z := StepRight(t, z);
      }
    }
    BlackenRoot(t, z);
  }

  /** One turn of the loop of lib_rbInsertBalance, the parent being a left child. */
  method StepLeft(t: Tree, z0: Entry) returns (z: Entry)
    requires Mid(t, z0) && z0.parent != null && z0.parent.color == Red && z0.parent.parent != null
    requires z0.parent == z0.parent.parent.left
    modifies t`root, t.nodes`left, t.nodes`right, t.nodes`parent, t.nodes`lo, t.nodes`hi, t.nodes`lmaxgap
    modifies t.nodes`rmaxgap
    modifies t.nodes`color, t.nodes`bh
    ensures Mid(t, z) && Distance(t, z) < old(Distance(t, z0))
  {
    z := z0;
    Family(t, z);
    assert t.Down(z.parent.parent) && t.Down(z) && t.Up(z.parent.parent);
    var y := z.parent.parent.right;
    if y != null && y.color == Red {
      Recolor(t, z, z.parent, z.parent.parent, y);
      z := z.parent.parent;
      assert t.Up(z);
      if z.parent != null && z.parent.color == Red {
        Family(t, z);
        assert t.Up(z.parent) && t.Up(z.parent.parent);
      }
    } else if z == z.parent.right {
      z := z.parent;
      InnerLeft(t, z, z0);
      Family(t, z);
    } else {
      OuterLeft(t, z.parent.parent, z.parent, z);
    }
  }

  /** One turn of the loop of lib_rbInsertBalance, the parent being a right child. */
  method StepRight(t: Tree, z0: Entry) returns (z: Entry)
    requires Mid(t, z0) && z0.parent != null && z0.parent.color == Red && z0.parent.parent != null
    requires z0.parent == z0.parent.parent.right
    modifies t`root, t.nodes`right, t.nodes`left, t.nodes`parent, t.nodes`lo, t.nodes`hi, t.nodes`lmaxgap
    modifies t.nodes`rmaxgap
    modifies t.nodes`color, t.nodes`bh
    ensures Mid(t, z) && Distance(t, z) < old(Distance(t, z0))
  {
    z := z0;
    Family(t, z);
    assert t.Down(z.parent.parent) && t.Down(z) && t.Up(z.parent.parent);
    var y := z.parent.parent.left;
    if y != null && y.color == Red {
      Recolor(t, z, z.parent, z.parent.parent, y);
      z := z.parent.parent;
      assert t.Up(z);
      if z.parent != null && z.parent.color == Red {
        Family(t, z);
        assert t.Up(z.parent) && t.Up(z.parent.parent);
      }
    } else if z == z.parent.left {
      z := z.parent;
      InnerRight(t, z, z0);
      Family(t, z);
    } else {
      OuterRight(t, z.parent.parent, z.parent, z);
    }
  }

  method Blacken(r: Entry)
    modifies r`color, r`bh
    ensures r.color == Black && r.bh == old(r.bh) + if old(r.color) == Red then 1 else 0
  {
    if r.color == Red {
      r.bh := r.bh + 1;
    }
    r.color := Black;
  }

  method BlackenRoot(t: Tree, z: Entry)
    requires Mid(t, z) && (z.parent == null || z.parent.color == Black)
    modifies t.nodes`color, t.nodes`bh
    ensures t.RedBlack() && Keyed(t)
  {
    assert t.Up(z);
    ghost var r := t.root;
    Blacken(t.root);
    forall n | n in t.nodes ensures t.Balanced(n, Settled) {
      assert old(t.Balanced(n, Settled));
      assert t.Down(n);
    }
    forall n | n in t.nodes ensures t.RedOk(n) {
      assert n != z ==> old(t.RedOk(n));
    }
  }

  /** Where z belongs among the entries of t. */
  ghost predicate Between(t: Tree, z: Entry, k: int)
    reads t`order, t.order`vaddr, t.order`size, z`vaddr, z`size
  {
    && 0 <= k <= |t.order|
    && (forall i | 0 <= i < k :: t.order[i].vaddr + t.order[i].size <= z.vaddr)
    && (forall i | k <= i < |t.order| :: z.vaddr + z.size <= t.order[i].vaddr)
  }

  /** The descent of lib_rbInsert: find z's place, or an entry that collides with it. */
  method Descend(t: Tree, z: Entry) returns (found: bool, y: Entry?, left: bool, ghost k: int)
    requires t.Shape() && t.Disjoint() && z.size > 0
    ensures found ==> y != null && y in t.nodes && Compare(y, z) == 0
    ensures !found ==> Between(t, z, k) && (y == null <==> t.root == null)
    ensures !found && y != null ==> y in t.nodes
    ensures !found && y != null && left ==> y.left == null && y.idx == k
    ensures !found && y != null && !left ==> y.right == null && y.idx + 1 == k
  {
    found, y, left := false, null, false;
    var x := t.root;
    ghost var a, b := 0, |t.order|;
    if x != null { assert t.Up(x); }
    while x != null
      invariant 0 <= a <= b <= |t.order|
      invariant x != null ==> x in t.nodes && x.lo == a && x.hi == b
      invariant x == null ==> a == b && (y == null <==> t.root == null)
      invariant forall i | 0 <= i < a :: t.order[i].vaddr + t.order[i].size <= z.vaddr
      invariant forall i | b <= i < |t.order| :: z.vaddr + z.size <= t.order[i].vaddr
      invariant y != null ==> y in t.nodes
      invariant y != null && x == null && left ==> y.left == null && y.idx == a
      invariant y != null && x == null && !left ==> y.right == null && y.idx + 1 == a
      decreases b - a
    {
      assert t.Down(x);
      t.Around(x.idx);
      y := x;
      var c := Compare(y, z);
      if c == 0 {
        found, k := true, 0;
        return;
      }
      if c > 0 {
        b := x.idx;
        left := true;
        x := x.left;
      } else {
        a := x.idx + 1;
        left := false;
        x := x.right;
      }
    }
    k := a;
  }

  /** Hang z, repair the summaries, repair the colours. */
  method Place(t: Tree, z: Entry, y: Entry?, left: bool, ghost k: int)
    requires t.Shape() && t.Blacks(Settled) && t.Reds(null)
    requires (t.root != null ==> t.root in t.nodes && t.root.color == Black)
    requires Keyed(t) && t.ExactOffGaps(k, k) && z !in t.nodes && (y != null ==> y in t.nodes) && 0 <= k <= |t.order|
    requires y == null ==> t.root == null && k == 0
    requires y != null && left ==> y.left == null && y.idx == k
    requires y != null && !left ==> y.right == null && y.idx + 1 == k
    requires forall i | 0 <= i < k :: t.order[i].vaddr < z.vaddr
    requires forall i | k <= i < |t.order| :: z.vaddr < t.order[i].vaddr
    modifies t`root, t`order, t`nodes, t`gaps, z`left, z`right, z`parent, z`lo, z`idx, z`hi, z`lmaxgap, z`rmaxgap
    modifies z`color, z`bh
    modifies t.nodes`left, t.nodes`right, t.nodes`parent, t.nodes`lo, t.nodes`idx, t.nodes`hi, t.nodes`lmaxgap
    modifies t.nodes`rmaxgap
    modifies t.nodes`color, t.nodes`bh
    ensures t.RedBlack() && Keyed(t) && t.nodes == old(t.nodes) + {z}
    ensures t.order == old(t.order)[..k] + [z] + old(t.order)[k..]
  {
    Hang(t, z, y, left, k);
    GrownColors(t, z, y, left, k);
    AugmentAll(t, z);
    InsertBalance(t, z);
  }

  lemma NoClash(t: Tree, z: Entry, k: int)
    requires t.Shape() && Between(t, z, k)
    ensures forall e | e in t.nodes :: !Overlap(e, z)
  {
    forall e | e in t.nodes ensures !Overlap(e, z) {
      assert t.Down(e);
    }
  }

  /** Place keeps the entries apart. */
  method PlaceApart(t: Tree, z: Entry, y: Entry?, left: bool, ghost k: int)
    requires t.Shape() && t.Blacks(Settled) && t.Reds(null)
    requires (t.root != null ==> t.root in t.nodes && t.root.color == Black)
    requires Keyed(t) && t.Disjoint() && t.ExactOffGaps(k, k) && z !in t.nodes && (y != null ==> y in t.nodes)
    requires z.size > 0 && Between(t, z, k)
    requires y == null ==> t.root == null
    requires y != null && left ==> y.left == null && y.idx == k
    requires y != null && !left ==> y.right == null && y.idx + 1 == k
    modifies t`root, t`order, t`nodes, t`gaps, z`left, z`right, z`parent, z`lo, z`idx, z`hi, z`lmaxgap, z`rmaxgap
    modifies z`color, z`bh
    modifies t.nodes`left, t.nodes`right, t.nodes`parent, t.nodes`lo, t.nodes`idx, t.nodes`hi, t.nodes`lmaxgap
    modifies t.nodes`rmaxgap
    modifies t.nodes`color, t.nodes`bh
    ensures t.RedBlack() && Keyed(t) && t.Disjoint() && t.nodes == old(t.nodes) + {z}
    ensures t.order == old(t.order)[..k] + [z] + old(t.order)[k..]
  {
    ApartSplice(t.order, z, k);
    ghost var s := t.order[..k] + [z] + t.order[k..];
    Place(t, z, y, left, k);
    assert t.order == s && Apart(s);
  }

  /** The tree before an insertion into gap k: as it should be, but for summaries ranging over that gap. */
  ghost predicate Ready(t: Tree, z: Entry)
    reads t, t.nodes, t.order, z
  {
    && t.Shape() && t.Blacks(Settled) && t.Reds(null) && (t.root != null ==> t.root in t.nodes && t.root.color == Black)
    && Keyed(t) && t.Disjoint() && z !in t.nodes && z.size > 0
    && forall k {:trigger t.ExactOffGaps(k, k)} | Between(t, z, k) :: t.ExactOffGaps(k, k)
  }

  /**
   lib_rbInsert: an entry that collides with one in the tree is refused and nothing changes;
   any other takes its place in the order and the tree is a red-black tree with exact summaries again.
   Summaries that range over the gap being filled need not be exact beforehand.
   */
  method Insert(t: Tree, z: Entry) returns (r: int)
    requires Ready(t, z)
    modifies t`root, t`order, t`nodes, t`gaps, z`left, z`right, z`parent, z`lo, z`idx, z`hi, z`lmaxgap, z`rmaxgap
    modifies z`color, z`bh
    modifies t.nodes`left, t.nodes`right, t.nodes`parent, t.nodes`lo, t.nodes`idx, t.nodes`hi, t.nodes`lmaxgap
    modifies t.nodes`rmaxgap
    modifies t.nodes`color, t.nodes`bh
    ensures r == EOK || r == EEXIST
    ensures r == EEXIST <==> exists e :: e in old(t.nodes) && Overlap(e, z)
    ensures r == EEXIST ==> unchanged(t) && unchanged(t.nodes) && unchanged(z)
    ensures r == EOK ==> t.RedBlack() && Keyed(t) && t.Disjoint() && t.nodes == old(t.nodes) + {z}
    ensures r == EOK ==> exists k :: old(Between(t, z, k)) && t.order == old(t.order)[..k] + [z] + old(t.order)[k..]
  {
    var found, y, left, k := Descend(t, z);
    if found {
      assert Overlap(y, z);
      return EEXIST;
    }
    NoClash(t, z, k);
    PlaceApart(t, z, y, left, k);
    r := EOK;
    assert old(Between(t, z, k));
  }
}
