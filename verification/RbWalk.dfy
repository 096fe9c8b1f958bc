/** lib_rbMinimum, lib_rbMaximum, lib_rbNext, lib_rbPrev and lib_rbFindEx (lib/rb.c). */
module RbWalk {
  import opened GapTree

  method Minimum(t: Tree, node: Entry?) returns (x: Entry?)
    requires t.Shape() && (node != null ==> node in t.nodes)
    ensures node == null ==> x == null
    ensures node != null ==> x != null && x in t.nodes && x.idx == node.lo && x.left == null && x.lo == x.idx
  {
    x := node;
    if x == null {
      return;
    }
    assert t.Down(x);
    while x.left != null
      invariant x != null && x in t.nodes && x.lo == node.lo
      decreases x.hi
    {
      assert t.Down(x);
      x := x.left;
    }
    assert t.Down(x);
  }

  method Maximum(t: Tree, node: Entry?) returns (x: Entry?)
    requires t.Shape() && (node != null ==> node in t.nodes)
    ensures node == null ==> x == null
    ensures node != null ==> x != null && x in t.nodes && x.idx == node.hi - 1 && x.right == null && x.hi == x.idx + 1
  {
    x := node;
    if x == null {
      return;
    }
    assert t.Down(x);
    while x.right != null
      invariant x != null && x in t.nodes && x.hi == node.hi
      decreases |t.order| - x.lo
    {
      assert t.Down(x);
      assert t.Down(x.right);
      x := x.right;
    }
    assert t.Down(x);
  }

  /** lib_rbNext: the node after this one in the order, or NULL after the last. */
  method Next(t: Tree, node: Entry) returns (r: Entry?)
    requires t.Shape() && node in t.nodes
    ensures 0 <= node.idx < |t.order| && t.order[node.idx] == node
    ensures r == if node.idx + 1 < |t.order| then t.order[node.idx + 1] else null
  {
    var x := node;
    assert t.Down(node);
    if x.right != null {
      r := Minimum(t, x.right);
      assert t.Down(r);
      return;
    }
    while x.parent != null && x == x.parent.right
      invariant x in t.nodes && x.hi == node.idx + 1
      decreases |t.order| - (x.hi - x.lo)
    {
      assert t.Up(x);
      assert t.Up(x.parent);
      x := x.parent;
    }
    assert t.Up(x);
    r := x.parent;
    if r != null {
      assert t.Up(r);
    }
  }

  method Prev(t: Tree, node: Entry) returns (r: Entry?)
    requires t.Shape() && node in t.nodes
    ensures 0 <= node.idx < |t.order| && t.order[node.idx] == node
    ensures r == if node.idx > 0 then t.order[node.idx - 1] else null
  {
    var x := node;
    assert t.Down(node);
    if x.left != null {
      r := Maximum(t, x.left);
      assert t.Down(r);
      return;
    }
    while x.parent != null && x == x.parent.left
      invariant x in t.nodes && x.lo == node.idx
      decreases |t.order| - (x.hi - x.lo)
    {
      assert t.Up(x);
      assert t.Up(x.parent);
      x := x.parent;
    }
    assert t.Up(x);
    r := x.parent;
    if r != null {
      assert t.Up(r);
    }
  }

  /** lib_rbMinimum followed by lib_rbNext visits every node once, in order (the loop of vm_mapCopy and vm_mapinfo). */
  method Enumerate(t: Tree) returns (s: seq<Entry>)
    requires t.Shape()
    ensures s == t.order
  {
    s := [];
    if t.root != null { assert t.Up(t.root); }
    var n := Minimum(t, t.root);
    if n != null { assert t.Down(n); }
    while n != null
      invariant |s| <= |t.order| && s == t.order[..|s|]
      invariant n == if |s| < |t.order| then t.order[|s|] else null
      decreases |t.order| - |s|
    {
      assert t.Down(n);
      s := s + [n];
      n := Next(t, n);
    }
  }

  /** lib_rbFind with map_cmp: an entry overlapping the probe, or NULL exactly when there is none. */
  method Find(t: Tree, probe: Entry) returns (it: Entry?)
    requires t.Shape() && t.Disjoint()
    ensures it != null ==> it in t.nodes && Overlap(it, probe)
    ensures it == null ==> forall e | e in t.nodes :: !Overlap(e, probe)
  {
    it := t.root;
    ghost var a, b := 0, |t.order|;
    if it != null { assert t.Up(it); }
    while it != null
      invariant 0 <= a <= b <= |t.order|
      invariant it != null ==> it in t.nodes && it.lo == a && it.hi == b
      invariant it == null ==> a == b
      invariant forall i | 0 <= i < a :: t.order[i].vaddr + t.order[i].size <= probe.vaddr
      invariant forall i | b <= i < |t.order| :: probe.vaddr + probe.size <= t.order[i].vaddr
      decreases b - a
    {
      assert t.Down(it);
      t.Around(it.idx);
      var c := Compare(it, probe);
      if c == 0 {
        return;
      }
      if c > 0 {
        b := it.idx;
        it := it.left;
      } else {
        a := it.idx + 1;
        it := it.right;
      }
    }
    forall e | e in t.nodes ensures !Overlap(e, probe) {
      assert t.Down(e);
    }
  }
}
