/** lib_rbRemoveBalance (lib/rb.c). */
module RbFixup {
  import opened GapTree
  import opened RbAugment
  import opened RbPivot
  import opened RbColors
  import opened RbInsert

  /** x hangs on the left of its parent; the stack node nil stands for a missing child. */
  ghost predicate OnLeft(x: Entry, nil: Entry)
    requires x.parent != null
    reads x`parent, Just(x.parent)`left
  {
    x.parent.left == x || (x == nil && x.parent.left == null)
  }

  /** Every node but x, and the children of x if x is red, is RedOk. */
  ghost predicate RedsAway(t: Tree, x: Entry)
    reads t`nodes, t.nodes`color, t.nodes`parent, x`color
  {
    forall n {:trigger t.RedOk(n)} | n in t.nodes && n != x && !(n.parent == x && x.color == Red) :: t.RedOk(n)
  }

  /** The tree while a missing black node above x is being made up for. */
  ghost predicate Fixing(t: Tree, x: Entry, nil: Entry)
    reads t, t.nodes, t.order, x, nil, Just(x.parent)`left
  {
    && t.Shape() && Keyed(t) && t.Exacts() && nil !in t.nodes && nil.color == Black && (x == nil || x in t.nodes)
      && t.root != null
    && RedsAway(t, x) && (t.root == x || t.root.color == Black)
    && (x == t.root ==> t.Blacks(Settled))
    && (x != t.root ==>
          && x.parent != null && x.parent in t.nodes && t.Blacks(Owed(x.parent, OnLeft(x, nil)))
          && (x == nil ==> if OnLeft(x, nil) then x.parent.left == null else x.parent.right == null))
  }

  /** Two nodes are repainted; the rest stays balanced. */
  method Paint2(t: Tree, u: Entry, cu: Color, v: Entry, cv: Color, ghost d: Debt)
    requires t.Shape() && u in t.nodes && v in t.nodes && u != v && t.Blacks(d)
    modifies u`color, v`color
    ensures u.color == cu && v.color == cv
    ensures forall n {:trigger t.Balanced(n, d)} | n in t.nodes && n != u && n != v :: t.Balanced(n, d)
    ensures forall n {:trigger t.RedOk(n)} | n in t.nodes && n != u && n != v && old(t.RedOk(n))
      && (n.parent == u ==> n.color == Black || cu == Black) && (n.parent == v ==> n.color == Black || cv == Black) ::
        t.RedOk(n)
  {
    u.color := cu;
    v.color := cv;
    forall n | n in t.nodes && n != u && n != v ensures t.Balanced(n, d) {
      assert old(t.Balanced(n, d));
    }
    forall n | n in t.nodes && n != u && n != v && old(t.RedOk(n))
      && (n.parent == u ==> n.color == Black || cu == Black) && (n.parent == v ==> n.color == Black || cv == Black)
        ensures t.RedOk(n) {
    }
  }

  /** The sibling of a node short of black is there, and one black taller. */
  lemma SiblingLeft(t: Tree, x: Entry, nil: Entry)
    requires Fixing(t, x, nil) && x != t.root && x.color == Black && OnLeft(x, nil)
    ensures var p := x.parent;
      p.right != null && p.right in t.nodes && p.right != x && p.right != p && p.left != p.right && p.right.parent == p
    ensures var p := x.parent;
      p.right.bh == (if x == nil then 0 else x.bh) + 1 && p.bh == p.right.bh + (if p.color == Black then 1 else 0)
    ensures var p := x.parent;
      p in t.nodes && (if x == nil then p.left == null else p.left == x) && p != x
      && (p.parent != null ==> p.parent in t.nodes && p.parent != p.right)
    ensures x != nil ==> x.bh >= 1
  {
    var p := x.parent;
    var d := Owed(p, true);
    assert t.Down(p) && t.Up(p);
    assert t.Balanced(p, d);
    if x != nil { assert t.Up(x); BhPos(t, d, x); }
    if p.right != null { assert t.Down(p.right); }
  }

  /** A black sibling's children. */
  lemma NephewsLeft(t: Tree, x: Entry, nil: Entry, w: Entry)
    requires Fixing(t, x, nil) && x != t.root && x.color == Black && OnLeft(x, nil) && w == x.parent.right
    ensures w in t.nodes
    ensures w.left != null ==>
      w.left in t.nodes && w.left != w && w.left != x.parent && w.left != x && w.left.parent == w
    ensures w.right != null ==>
      w.right in t.nodes && w.right != w && w.right != x.parent && w.right != x && w.right.parent == w
    ensures w.left != null && w.right != null ==> w.left != w.right
    ensures t.Bh(w.left) == t.Bh(w.right) && w.bh == t.Bh(w.left) + (if w.color == Black then 1 else 0)
    ensures w.left != null && w.left.left != null ==>
      w.left.left in t.nodes && w.left.left != w && w.left.left != w.left
    ensures w.left != null && w.left.right != null ==>
      w.left.right in t.nodes && w.left.right != w && w.left.right != w.left
    ensures w.color == Red ==>
      (w.left != null ==> w.left.color == Black) && (w.right != null ==> w.right.color == Black)
      && x.parent.color == Black
  {
    SiblingLeft(t, x, nil);
    assert t.Down(w) && t.Down(x.parent) && t.Balanced(w, Owed(x.parent, true));
    assert t.RedOk(w);
    if w.left != null { assert t.Down(w.left); assert t.RedOk(w.left); }
    if w.right != null { assert t.Down(w.right); assert t.RedOk(w.right); }
  }

  /** Red sibling: rotate it above the parent, so that the sibling becomes black. */
  method RedSiblingLeft(t: Tree, x: Entry, nil: Entry, p: Entry, w: Entry)
    requires Fixing(t, x, nil) && x != t.root && x.color == Black && p == x.parent && OnLeft(x, nil) && w == p.right
    requires w.color == Red
    modifies t`root, t.nodes`left, t.nodes`right, t.nodes`parent, t.nodes`lo, t.nodes`hi, t.nodes`lmaxgap
    modifies t.nodes`rmaxgap
    modifies t.nodes`color, t.nodes`bh
    ensures Fixing(t, x, nil) && x != t.root && x.color == Black && x.parent == p && OnLeft(x, nil) && p.color == Red
    ensures p.right != null && p.right in t.nodes && p.right.color == Black && x.hi == old(x.hi) && x.lo == old(x.lo)
  {
    SiblingLeft(t, x, nil);
    NephewsLeft(t, x, nil, w);
    ghost var d, g, b, n := Owed(p, true), p.parent, w.left, w.bh;
    Paint2(t, w, Black, p, Red, d);
    forall m | m in t.nodes && m != p && m != w && m != b ensures t.RedOk(m) {
      assert old(t.RedOk(m));
      assert t.Up(m);
    }
    label L:
    PivotLeft(t, p, w, g, b, d, null, n, n + 1);
    if x in t.nodes { assert t.SameParent@L(x); assert t.SameSlice@L(x); }
  }

  method Redden(w: Entry, ghost p: Entry)
    requires w != p
    modifies w`color, w`bh, p`bh
    ensures w.color == Red && w.bh == old(w.bh) - 1 && p.bh == old(p.bh) - 1
  {
    w.color := Red;
    w.bh, p.bh := w.bh - 1, p.bh - 1;
  }

  /** Once the sibling is red, the parent as a whole is short of one black. */
  twostate lemma Reddened(t: Tree, new p: Entry, new w: Entry, new left: bool, new d: Debt)
    requires p in old(t.nodes) && w in old(t.nodes) && t.nodes == old(t.nodes) && p != w && old(allocated(d))
    requires old(t.Shape()) && t.Shape() && old(t.Blacks(Owed(p, left)))
    requires if left then p.right == w && p.left != w else p.left == w && p.right != w
    requires old(w.color) == Black && w.color == Red && w.bh == old(w.bh) - 1 && p.bh == old(p.bh) - 1
    requires p.color == old(p.color)
    requires d == if p.parent == null then Settled else Owed(p.parent, p.parent.left == p)
    requires forall n {:trigger t.SamePaint(n)} | n in t.nodes && n != p && n != w :: t.SamePaint(n)
    requires forall n {:trigger t.SameKids(n)} | n in t.nodes :: t.SameKids(n)
    ensures t.Blacks(d)
  {
    forall n | n in t.nodes ensures t.Balanced(n, d) {
      assert old(t.Balanced(n, Owed(p, left)));
      assert t.Down(n) && t.Up(p) && t.Down(p);
      assert t.SameKids(n);
      assert n != p && n != w ==> t.SamePaint(n);
      var l, r := n.left, n.right;
      if l != null && l != p && l != w { assert t.SamePaint(l); }
      if r != null && r != p && r != w { assert t.SamePaint(r); }
    }
  }

  /** Black sibling with black children: make it red and move the shortage up to the parent. */
  method PushUp(t: Tree, x: Entry, nil: Entry, p: Entry, w: Entry, ghost left: bool)
    requires Fixing(t, x, nil) && x != t.root && x.color == Black && p == x.parent && left == OnLeft(x, nil)
    requires w in t.nodes && w.color == Black
    requires if left then p.right == w && p.left != w else p.left == w && p.right != w
    requires (w.left == null || w.left.color == Black) && (w.right == null || w.right.color == Black) && w != p
    modifies t.nodes`color, t.nodes`bh
    ensures Fixing(t, p, nil)
  {
    assert t.Up(p) && t.Down(p);
    ghost var d := if p.parent == null then Settled else Owed(p.parent, p.parent.left == p);
    Redden(w, p);
    Reddened(t, p, w, left, d);
    forall m | m in t.nodes && m != p && !(m.parent == p && p.color == Red) ensures t.RedOk(m) {
      assert m != x ==> old(t.RedOk(m));
      assert t.Up(m);
    }
  }

  /** Near nephew red, far one black: turn it into the far case. */
  method NearNephewLeft(t: Tree, x: Entry, nil: Entry, p: Entry, w: Entry, a: Entry)
    requires Fixing(t, x, nil) && x != t.root && x.color == Black && p == x.parent && OnLeft(x, nil) && w == p.right
    requires w.color == Black
    requires a == w.left && a.color == Red && (w.right == null || w.right.color == Black)
    modifies t`root, t.nodes`left, t.nodes`right, t.nodes`parent, t.nodes`lo, t.nodes`hi, t.nodes`lmaxgap
    modifies t.nodes`rmaxgap
    modifies t.nodes`color, t.nodes`bh
    ensures Fixing(t, x, nil) && x != t.root && x.color == Black && x.parent == p && OnLeft(x, nil)
    ensures p.right == a && a.color == Black && a.right == w && w.color == Red && x.hi == old(x.hi) && x.lo == old(x.lo)
  {
    SiblingLeft(t, x, nil);
    NephewsLeft(t, x, nil, w);
    ghost var d, b, n := Owed(p, true), a.right, a.bh;
    assert t.Balanced(a, d);
    assert b != null ==> t.RedOk(b);
    assert t.Down(a);
    Paint2(t, a, Black, w, Red, d);
    forall m | m in t.nodes && m != a && m != w && m != b ensures t.RedOk(m) {
      assert old(t.RedOk(m));
      assert t.Up(m);
    }
    label L:
    PivotRight(t, w, a, p, b, d, null, n, n + 1);
    if x in t.nodes { assert t.SameParent@L(x); assert t.SameSlice@L(x); }
  }

  /** Far nephew red: one rotation makes up for the missing black. */
  method FarNephewLeft(t: Tree, x: Entry, nil: Entry, p: Entry, w: Entry, f: Entry)
    requires Fixing(t, x, nil) && x != t.root && x.color == Black && p == x.parent && OnLeft(x, nil) && w == p.right
    requires w.color == Black
    requires f == w.right && f.color == Red
    modifies t`root, t.nodes`left, t.nodes`right, t.nodes`parent, t.nodes`lo, t.nodes`hi, t.nodes`lmaxgap
    modifies t.nodes`rmaxgap
    modifies t.nodes`color, t.nodes`bh
    ensures t.root != null && t.root in t.nodes && Fixing(t, t.root, nil) && t.root.color == Black
  {
    SiblingLeft(t, x, nil);
    NephewsLeft(t, x, nil, w);
    ghost var g, b, n := p.parent, w.left, w.bh;
    assert t.RedOk(p) && t.Up(p);
    Paint3(t, w, p.color, p, f, Owed(p, true));
    forall m | m in t.nodes && m != p && m != w && m != b ensures t.RedOk(m) {
      assert old(t.RedOk(m));
      assert t.Up(m);
    }
    PivotLeft(t, p, w, g, b, Settled, null, n, n + (if w.color == Black then 1 else 0));
  }

  /** The repainting before the last rotation: w takes the parent's colour, the parent and the far nephew turn black. */
  method Paint3(t: Tree, w: Entry, c: Color, p: Entry, f: Entry, ghost d: Debt)
    requires t.Shape() && w in t.nodes && p in t.nodes && f in t.nodes && w != p && f != p && f != w && t.Blacks(d)
    requires d.Owed? && d.at == p
    requires f.color == Red && f.parent == w && w.parent == p && w.color == Black
    modifies w`color, p`color, f`color, f`bh
    ensures w.color == c && p.color == Black && f.color == Black && f.bh == old(f.bh) + 1
    ensures forall n {:trigger t.Balanced(n, Settled)} | n in t.nodes && n != p && n != w :: t.Balanced(n, Settled)
    ensures forall n {:trigger t.RedOk(n)} | n in t.nodes && n != p && n != w && old(t.RedOk(n))
      && (n.parent == w ==> n == f || c == Black) :: t.RedOk(n)
  {
    PaintThem(w, c, p, f);
    forall n | n in t.nodes && n != p && n != w ensures t.Balanced(n, Settled) {
      assert old(t.Balanced(n, d));
      assert t.Down(n);
    }
    forall n | n in t.nodes && n != p && n != w && old(t.RedOk(n)) && (n.parent == w ==> n == f || c == Black)
      ensures t.RedOk(n) {
    }
  }

  method PaintThem(w: Entry, c: Color, p: Entry, f: Entry)
    requires w != p && f != p && f != w
    modifies w`color, p`color, f`color, f`bh
    ensures w.color == c && p.color == Black && f.color == Black && f.bh == old(f.bh) + 1
  {
    w.color := c;
    p.color := Black;
    f.color := Black;
    f.bh := f.bh + 1;
  }

  /* ---- the mirror image ---- */

  /** The sibling of a node short of black is there, and one black taller. */
  lemma SiblingRight(t: Tree, x: Entry, nil: Entry)
    requires Fixing(t, x, nil) && x != t.root && x.color == Black && !OnLeft(x, nil)
    ensures var p := x.parent;
      p.left != null && p.left in t.nodes && p.left != x && p.left != p && p.right != p.left && p.left.parent == p
    ensures var p := x.parent;
      p.left.bh == (if x == nil then 0 else x.bh) + 1 && p.bh == p.left.bh + (if p.color == Black then 1 else 0)
    ensures var p := x.parent;
      p in t.nodes && (if x == nil then p.right == null else p.right == x) && p != x
      && (p.parent != null ==> p.parent in t.nodes && p.parent != p.left)
    ensures x != nil ==> x.bh >= 1
  {
    var p := x.parent;
    var d := Owed(p, false);
    assert t.Down(p) && t.Up(p);
    assert t.Balanced(p, d);
    if x != nil { assert t.Up(x); BhPos(t, d, x); }
    if p.left != null { assert t.Down(p.left); }
  }

  /** A black sibling's children. */
  lemma NephewsRight(t: Tree, x: Entry, nil: Entry, w: Entry)
    requires Fixing(t, x, nil) && x != t.root && x.color == Black && !OnLeft(x, nil) && w == x.parent.left
    ensures w in t.nodes
    ensures w.right != null ==>
      w.right in t.nodes && w.right != w && w.right != x.parent && w.right != x && w.right.parent == w
    ensures w.left != null ==>
      w.left in t.nodes && w.left != w && w.left != x.parent && w.left != x && w.left.parent == w
    ensures w.right != null && w.left != null ==> w.right != w.left
    ensures t.Bh(w.right) == t.Bh(w.left) && w.bh == t.Bh(w.right) + (if w.color == Black then 1 else 0)
    ensures w.right != null && w.right.right != null ==>
      w.right.right in t.nodes && w.right.right != w && w.right.right != w.right
    ensures w.right != null && w.right.left != null ==>
      w.right.left in t.nodes && w.right.left != w && w.right.left != w.right
    ensures w.color == Red ==>
      (w.right != null ==> w.right.color == Black) && (w.left != null ==> w.left.color == Black)
      && x.parent.color == Black
  {
    SiblingRight(t, x, nil);
    assert t.Down(w) && t.Down(x.parent) && t.Balanced(w, Owed(x.parent, false));
    assert t.RedOk(w);
    if w.right != null { assert t.Down(w.right); assert t.RedOk(w.right); }
    if w.left != null { assert t.Down(w.left); assert t.RedOk(w.left); }
  }

  /** Red sibling: rotate it above the parent, so that the sibling becomes black. */
  method RedSiblingRight(t: Tree, x: Entry, nil: Entry, p: Entry, w: Entry)
    requires Fixing(t, x, nil) && x != t.root && x.color == Black && p == x.parent && !OnLeft(x, nil) && w == p.left
    requires w.color == Red
    modifies t`root, t.nodes`right, t.nodes`left, t.nodes`parent, t.nodes`lo, t.nodes`hi, t.nodes`lmaxgap
    modifies t.nodes`rmaxgap
    modifies t.nodes`color, t.nodes`bh
    ensures Fixing(t, x, nil) && x != t.root && x.color == Black && x.parent == p && !OnLeft(x, nil) && p.color == Red
    ensures p.left != null && p.left in t.nodes && p.left.color == Black && x.hi == old(x.hi) && x.lo == old(x.lo)
  {
    SiblingRight(t, x, nil);
    NephewsRight(t, x, nil, w);
    ghost var d, g, b, n := Owed(p, false), p.parent, w.right, w.bh;
    Paint2(t, w, Black, p, Red, d);
    forall m | m in t.nodes && m != p && m != w && m != b ensures t.RedOk(m) {
      assert old(t.RedOk(m));
      assert t.Up(m);
    }
    label L:
    PivotRight(t, p, w, g, b, d, null, n, n + 1);
    if x in t.nodes { assert t.SameParent@L(x); assert t.SameSlice@L(x); }
  }

  /** Near nephew red, far one black: turn it into the far case. */
  method NearNephewRight(t: Tree, x: Entry, nil: Entry, p: Entry, w: Entry, a: Entry)
    requires Fixing(t, x, nil) && x != t.root && x.color == Black && p == x.parent && !OnLeft(x, nil) && w == p.left
    requires w.color == Black
    requires a == w.right && a.color == Red && (w.left == null || w.left.color == Black)
    modifies t`root, t.nodes`right, t.nodes`left, t.nodes`parent, t.nodes`lo, t.nodes`hi, t.nodes`lmaxgap
    modifies t.nodes`rmaxgap
    modifies t.nodes`color, t.nodes`bh
    ensures Fixing(t, x, nil) && x != t.root && x.color == Black && x.parent == p && !OnLeft(x, nil)
    ensures p.left == a && a.color == Black && a.left == w && w.color == Red && x.hi == old(x.hi) && x.lo == old(x.lo)
  {
    SiblingRight(t, x, nil);
    NephewsRight(t, x, nil, w);
    ghost var d, b, n := Owed(p, false), a.left, a.bh;
    assert t.Balanced(a, d);
    assert b != null ==> t.RedOk(b);
    assert t.Down(a);
    Paint2(t, a, Black, w, Red, d);
    forall m | m in t.nodes && m != a && m != w && m != b ensures t.RedOk(m) {
      assert old(t.RedOk(m));
      assert t.Up(m);
    }
    label L:
    PivotLeft(t, w, a, p, b, d, null, n, n + 1);
    if x in t.nodes { assert t.SameParent@L(x); assert t.SameSlice@L(x); }
  }

  /** Far nephew red: one rotation makes up for the missing black. */
  method FarNephewRight(t: Tree, x: Entry, nil: Entry, p: Entry, w: Entry, f: Entry)
    requires Fixing(t, x, nil) && x != t.root && x.color == Black && p == x.parent && !OnLeft(x, nil) && w == p.left
    requires w.color == Black
    requires f == w.left && f.color == Red
    modifies t`root, t.nodes`right, t.nodes`left, t.nodes`parent, t.nodes`lo, t.nodes`hi, t.nodes`lmaxgap
    modifies t.nodes`rmaxgap
    modifies t.nodes`color, t.nodes`bh
    ensures t.root != null && t.root in t.nodes && Fixing(t, t.root, nil) && t.root.color == Black
  {
    SiblingRight(t, x, nil);
    NephewsRight(t, x, nil, w);
    ghost var g, b, n := p.parent, w.right, w.bh;
    assert t.RedOk(p) && t.Up(p);
    Paint3(t, w, p.color, p, f, Owed(p, false));
    forall m | m in t.nodes && m != p && m != w && m != b ensures t.RedOk(m) {
      assert old(t.RedOk(m));
      assert t.Up(m);
    }
    PivotRight(t, p, w, g, b, Settled, null, n, n + (if w.color == Black then 1 else 0));
  }

  /** The far nephew of x is red, below a black sibling. */
  ghost predicate FarRed(x: Entry, nil: Entry)
    requires x.parent != null
    reads x, x.parent, Just(x.parent.left), Just(x.parent.right)
    reads if x.parent.left != null then Just(x.parent.left.left) else {}
    reads if x.parent.right != null then Just(x.parent.right.right) else {}
  {
    if OnLeft(x, nil) then var w := x.parent.right;
      w != null && w.color == Black && w.right != null && w.right.color == Red
    else var w := x.parent.left; w != null && w.color == Black && w.left != null && w.left.color == Red
  }

  /** How far the repair is from its end: the part of the tree outside x, then the two rotations. */
  ghost function Work(t: Tree, x: Entry, nil: Entry): nat
    requires Fixing(t, x, nil)
    reads *
  {
    if x == t.root || x.color == Red then 0
    else if x == nil then 2 * (|t.order| + 1) + (if FarRed(x, nil) then 0 else 1)
    else
      assert t.Up(x);
      2 * (|t.order| + 1 - (x.hi - x.lo)) + (if FarRed(x, nil) then 0 else 1)
  }

  lemma Wider(t: Tree, x: Entry, nil: Entry)
    requires t.Shape() && (x in t.nodes || x == nil) && x.parent != null && x.parent in t.nodes
    ensures 0 < x.parent.hi - x.parent.lo <= |t.order|
    ensures x in t.nodes ==> x.hi - x.lo < x.parent.hi - x.parent.lo
  {
    assert t.Up(x.parent);
    if x in t.nodes { assert t.Up(x); }
  }

  /** One turn of the loop of lib_rbRemoveBalance, x hanging on the left. */
  method FixLeft(t: Tree, x0: Entry, nil: Entry) returns (x: Entry)
    requires Fixing(t, x0, nil) && x0 != t.root && x0.color == Black && OnLeft(x0, nil)
    modifies t`root, t.nodes`left, t.nodes`right, t.nodes`parent, t.nodes`lo, t.nodes`hi, t.nodes`lmaxgap
    modifies t.nodes`rmaxgap
    modifies t.nodes`color, t.nodes`bh
    ensures Fixing(t, x, nil) && Work(t, x, nil) < old(Work(t, x0, nil))
  {
    x := x0;
    if x != nil { assert t.Up(x); }
    SiblingLeft(t, x, nil);
    var w := x.parent.right;
    NephewsLeft(t, x, nil, w);
    if w.color == Red {
      RedSiblingLeft(t, x, nil, x.parent, w);
      SiblingLeft(t, x, nil);
      w := x.parent.right;
      NephewsLeft(t, x, nil, w);
    }
    if (w.left == null || w.left.color == Black) && (w.right == null || w.right.color == Black) {
      PushUp(t, x, nil, x.parent, w, true);
      Wider(t, x, nil);
      x := x.parent;
    } else if w.right == null || w.right.color == Black {
      NearNephewLeft(t, x, nil, x.parent, w, w.left);
    } else {
      FarNephewLeft(t, x, nil, x.parent, w, w.right);
      x := t.root;
    }
  }

  /** One turn of the loop of lib_rbRemoveBalance, x hanging on the right. */
  method FixRight(t: Tree, x0: Entry, nil: Entry) returns (x: Entry)
    requires Fixing(t, x0, nil) && x0 != t.root && x0.color == Black && !OnLeft(x0, nil)
    modifies t`root, t.nodes`right, t.nodes`left, t.nodes`parent, t.nodes`lo, t.nodes`hi, t.nodes`lmaxgap
    modifies t.nodes`rmaxgap
    modifies t.nodes`color, t.nodes`bh
    ensures Fixing(t, x, nil) && Work(t, x, nil) < old(Work(t, x0, nil))
  {
    x := x0;
    if x != nil { assert t.Up(x); }
    SiblingRight(t, x, nil);
    var w := x.parent.left;
    NephewsRight(t, x, nil, w);
    if w.color == Red {
      RedSiblingRight(t, x, nil, x.parent, w);
      SiblingRight(t, x, nil);
      w := x.parent.left;
      NephewsRight(t, x, nil, w);
    }
    if (w.right == null || w.right.color == Black) && (w.left == null || w.left.color == Black) {
      PushUp(t, x, nil, x.parent, w, false);
      Wider(t, x, nil);
      x := x.parent;
    } else if w.left == null || w.left.color == Black {
      NearNephewRight(t, x, nil, x.parent, w, w.right);
    } else {
      FarNephewRight(t, x, nil, x.parent, w, w.left);
      x := t.root;
    }
  }

  /** The last assignment of lib_rbRemoveBalance. */
  method Blackened(t: Tree, x: Entry, nil: Entry)
    requires Fixing(t, x, nil) && x in t.nodes && (x == t.root || x.color == Red)
    modifies t.nodes`color, t.nodes`bh
    ensures t.RedBlack() && Keyed(t)
  {
    assert t.Up(x);
    ghost var d := if x == t.root then Settled else Owed(x.parent, OnLeft(x, nil));
    Blacken(x);
    forall n | n in t.nodes ensures t.Balanced(n, Settled) {
      assert old(t.Balanced(n, d));
      assert t.Down(n);
    }
    forall n | n in t.nodes ensures t.RedOk(n) {
      if n != x && !(n.parent == x && old(x.color) == Red) {
        assert old(t.RedOk(n));
      }
    }
  }

  /** The tree is sound but for one black node missing above node, a child of parent. */
  ghost predicate Short(t: Tree, parent: Entry?, node: Entry?)
    reads t, t.nodes, t.order
  {
    && t.Shape() && Keyed(t) && t.Exacts() && t.Reds(node)
    && (node != null ==> node in t.nodes && node.parent == parent) && (parent != null ==> parent in t.nodes)
    && (t.root != null && t.root != node ==> t.root in t.nodes && t.root.color == Black)
    && (parent == null ==> t.root == node && t.Blacks(Settled))
    && (parent != null ==>
          && t.Blacks(Owed(parent, parent.left == node)) && t.root != null
          && (parent.left == node || parent.right == node) && parent.left != parent.right)
  }

  /** The stack node takes the place of a missing child. */
  lemma ShortIsFixing(t: Tree, parent: Entry?, node: Entry?, nil: Entry)
    requires Short(t, parent, node) && t.root != null && nil !in t.nodes && nil.color == Black && nil.parent == parent
    ensures Fixing(t, if node == null then nil else node, nil)
  {
    if parent != null {
      assert t.Down(parent);
      assert OnLeft(if node == null then nil else node, nil) == (parent.left == node);
    }
  }

  /** lib_rbRemoveBalance. */
  method RemoveBalance(t: Tree, parent: Entry?, node: Entry?)
    requires Short(t, parent, node)
    modifies t`root, t.nodes`left, t.nodes`right, t.nodes`parent, t.nodes`lo, t.nodes`hi, t.nodes`lmaxgap
    modifies t.nodes`rmaxgap
    modifies t.nodes`color, t.nodes`bh
    ensures t.RedBlack() && Keyed(t)
  {
    var nil := new Entry.Nil(parent);
    if t.root == null {
      t.EmptyTree();
      return;
    }
    ShortIsFixing(t, parent, node, nil);
    var x: Entry := if node == null then nil else node;
    while x != t.root && x.color == Black
      invariant Fixing(t, x, nil)
      decreases Work(t, x, nil)
    {
      if x == x.parent.left || (x == nil && x.parent.left == null) {
        x := FixLeft(t, x, nil);
      } else {
        x := FixRight(t, x, nil);
      }
    }
    Blackened(t, x, nil);
  }
}
