/** A red-black tree of n nodes is at most 2*log2(n+1) high. */
module RbHeight {
  import opened GapTree
  import opened Powers

  /** A subtree of black height b has at least 2^b - 1 nodes. */
  lemma {:induction false} Bushy(t: Tree, n: Entry)
    requires t.Shape() && t.Blacks(Settled) && n in t.nodes
    ensures (if n.color == Black then 1 else 0) <= n.bh && Pow2(n.bh) <= n.hi - n.lo + 1
    decreases n.hi - n.lo
  {
    assert t.Down(n) && t.Balanced(n, Settled);
    if n.left != null { assert t.Down(n.left); Bushy(t, n.left); }
    if n.right != null { assert t.Down(n.right); Bushy(t, n.right); }
  }

  /** How deep a node lies, against the black nodes above it. */
  lemma {:induction false} Depth(t: Tree, n: Entry)
    requires t.RedBlack() && n in t.nodes && t.root != null
    ensures |t.Path(n)| <= 2 * (t.root.bh - n.bh) + if n.color == Black then 1 else 0
    decreases |t.order| - (n.hi - n.lo)
  {
    assert t.Up(n) && t.Balanced(n, Settled) && t.RedOk(n);
    if n.parent != null {
      assert t.Up(n.parent) && t.Balanced(n.parent, Settled);
      Depth(t, n.parent);
    }
  }

  /** No node lies deeper than 2*log2(n+1). */
  lemma HeightBound(t: Tree, n: Entry)
    requires t.RedBlack() && n in t.nodes
    ensures Pow2(|t.Path(n)|) <= (|t.order| + 1) * (|t.order| + 1)
  {
    if t.root == null { t.EmptyTree(); }
    assert t.Up(t.root) && t.Balanced(n, Settled);
    Depth(t, n);
    Bushy(t, n);
    Bushy(t, t.root);
    var b := t.root.bh;
    Pow2Grows(|t.Path(n)|, b + b);
    Pow2Add(b, b);
    Squares(Pow2(b), |t.order| + 1);
  }

  lemma Squares(x: nat, y: nat)
    requires x <= y
    ensures x * x <= y * y
  {
    assert x * x <= x * y <= y * y;
  }
}
