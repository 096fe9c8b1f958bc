/** Rotations seen as moves of colour and black count. */
module RbPivot {
  import opened GapTree
  import opened RbAugment
  import opened RbRotate

  /** A left rotation at x, whose right child y goes up, with the black counts that go with it. */
  method PivotLeft(t: Tree, x: Entry, y: Entry, ghost p: Entry?, ghost b: Entry?, ghost d: Debt, ghost z: Entry?,
      ghost bhx: int, ghost bhy: int)
    requires t.Shape() && Keyed(t) && t.Exacts() && x in t.nodes && y in t.nodes && x.right == y && x.parent == p
    requires y.left == b
    requires (p != null ==> p in t.nodes) && (b != null ==> b in t.nodes) && (x.left != null ==> x.left in t.nodes)
    requires (y.right != null ==> y.right in t.nodes)
    requires x != y && x.left != x && x.left != y && y.right != y && y.right != x && b != x && b != y
    requires forall n {:trigger t.Balanced(n, d)} | n in t.nodes && n != x && n != y :: t.Balanced(n, d)
    requires forall n {:trigger t.RedOk(n)} | n in t.nodes && n != x && n != y && n != b && n != z :: t.RedOk(n)
    requires d != Owed(x, false) && d != Owed(y, true) && d != Owed(y, false)
    requires t.LBh(x, d) == t.Bh(b) && bhx == t.Bh(b) + (if x.color == Black then 1 else 0)
    requires bhx == t.Bh(y.right) && bhy == bhx + (if y.color == Black then 1 else 0) && bhy == x.bh
    requires x != z ==> x.color == Red ==> y.color == Black
    requires y != z ==> y.color == Red && p != null ==> p.color == Black
    requires b != null && b != z ==> b.color == Red ==> x.color == Black
    modifies t`root, t.nodes`left, t.nodes`right, t.nodes`parent, t.nodes`lo, t.nodes`hi, t.nodes`lmaxgap
    modifies t.nodes`rmaxgap
    modifies x`bh, y`bh
    ensures t.Shape() && t.Exacts() && t.Blacks(d) && t.Reds(z) && x.bh == bhx && y.bh == bhy
    ensures t.RotationLeft(x, y, p, b)
  {
    RotateLeft(t, x);
    Recount(x, y, bhx, bhy);
    t.BalanceLeft(x, y, p, b, d);
    t.RedsLeft(x, y, p, b, z);
  }

  /** A right rotation at x, whose left child y goes up, with the black counts that go with it. */
  method PivotRight(t: Tree, x: Entry, y: Entry, ghost p: Entry?, ghost b: Entry?, ghost d: Debt, ghost z: Entry?,
      ghost bhx: int, ghost bhy: int)
    requires t.Shape() && Keyed(t) && t.Exacts() && x in t.nodes && y in t.nodes && x.left == y && x.parent == p
    requires y.right == b
    requires (p != null ==> p in t.nodes) && (b != null ==> b in t.nodes) && (x.right != null ==> x.right in t.nodes)
    requires (y.left != null ==> y.left in t.nodes)
    requires x != y && x.right != x && x.right != y && y.left != y && y.left != x && b != x && b != y
    requires forall n {:trigger t.Balanced(n, d)} | n in t.nodes && n != x && n != y :: t.Balanced(n, d)
    requires forall n {:trigger t.RedOk(n)} | n in t.nodes && n != x && n != y && n != b && n != z :: t.RedOk(n)
    requires d != Owed(x, true) && d != Owed(y, true) && d != Owed(y, false)
    requires t.RBh(x, d) == t.Bh(b) && bhx == t.Bh(b) + (if x.color == Black then 1 else 0)
    requires bhx == t.Bh(y.left) && bhy == bhx + (if y.color == Black then 1 else 0) && bhy == x.bh
    requires x != z ==> x.color == Red ==> y.color == Black
    requires y != z ==> y.color == Red && p != null ==> p.color == Black
    requires b != null && b != z ==> b.color == Red ==> x.color == Black
    modifies t`root, t.nodes`right, t.nodes`left, t.nodes`parent, t.nodes`lo, t.nodes`hi, t.nodes`lmaxgap
    modifies t.nodes`rmaxgap
    modifies x`bh, y`bh
    ensures t.Shape() && t.Exacts() && t.Blacks(d) && t.Reds(z) && x.bh == bhx && y.bh == bhy
    ensures t.RotationRight(x, y, p, b)
  {
    RotateRight(t, x);
    Recount(x, y, bhx, bhy);
    t.BalanceRight(x, y, p, b, d);
    t.RedsRight(x, y, p, b, z);
  }

  ghost method Recount(x: Entry, y: Entry, bhx: int, bhy: int)
    requires x != y
    modifies x`bh, y`bh
    ensures x.bh == bhx && y.bh == bhy
  {
    x.bh, y.bh := bhx, bhy;
  }
}
