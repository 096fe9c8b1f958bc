/** The two-children case of lib_rbRemove: the successor takes the removed node's place. */
module RbSwap {
  import opened GapTree
  import opened RbAugment
  import opened RbShrink
  import opened RbTransplant
  import opened RbDetach
  import opened RbWalk

  /** Away from tl, y's predecessor, every summary above it but y's is exact. */
  lemma AwayFromPred(t: Tree, y: Entry, tl: Entry, j: int)
    requires t.Shape() && y in t.nodes && tl in t.nodes && tl.idx == y.idx - 1 && t.ExactOffGaps(y.idx, y.idx + 1)
    requires 0 < j < |t.Path(tl)| && (t.Path(tl)[j] == y ==> t.RExact(y))
    ensures OffExact(t, t.Path(tl), j)
  {
    var m := t.Path(tl)[j];
    PathSide(t, tl, j);
    assert t.GapExact(m, y.idx, y.idx + 1);
    assert t.Down(m) && t.Down(y);
  }

  /** The augmentation of y's predecessor. */
  method FinishLeft(t: Tree, y: Entry, tl: Entry, ghost c: seq<Entry>, ghost k: int)
    requires t.Shape() && Keyed(t) && y in t.nodes && y.left != null && t.ExactOffGaps(y.idx, y.idx + 1)
    requires tl in t.nodes && tl.right == null && tl.idx == y.idx - 1
    requires c == t.Path(tl) && 0 < k <= |c| && (forall j | 0 <= j < k :: c[j] == y ==> t.RExact(y))
    modifies t.nodes`lmaxgap, t.nodes`rmaxgap
    ensures forall j | 0 <= j < k :: t.Exact(c[j])
    ensures k < |c| ==> TowardExact(t, c, k)
    ensures forall m | m in t.nodes && m !in c :: m.lmaxgap == old(m.lmaxgap) && m.rmaxgap == old(m.rmaxgap)
    ensures forall m | m in t.nodes && !(m.lo <= tl.idx <= m.idx) :: m.lmaxgap == old(m.lmaxgap)
    ensures forall m | m in t.nodes && !(m.idx <= tl.idx < m.hi) :: m.rmaxgap == old(m.rmaxgap)
  {
    forall j | 0 < j < k ensures OffExact(t, c, j) {
      AwayFromPred(t, y, tl, j);
    }
    if tl.left != null {
      assert t.Down(tl) && t.Down(tl.left);
      assert t.GapExact(tl.left, y.idx, y.idx + 1);
    }
    AugmentSpine(t, tl, c, k);
  }

  /** A node above neither holder of the two gaps in doubt has exact summaries. */
  lemma OutsideExact(t: Tree, k: int, g: Entry, h: Entry, m: Entry)
    requires t.Shape() && m in t.nodes && g in t.nodes && h in t.nodes && t.ExactOffGaps(k, k + 1)
    requires t.Holds(g, k) && t.Holds(h, k + 1)
    requires !(m.lo <= g.idx < m.hi) && !(m.lo <= h.idx < m.hi)
    ensures t.Exact(m)
  {
    assert t.GapExact(m, k, k + 1);
    assert t.Down(m);
    if m.lo <= k <= m.hi {
      t.SlotOwner(m, g, k);
    } else if m.lo <= k + 1 <= m.hi {
      t.SlotOwner(m, h, k + 1);
    }
  }

  /** No right child: the predecessor's augmentation settles everything. */
  method FinishOne(t: Tree, y: Entry, tl: Entry)
    requires t.Shape() && Keyed(t) && y in t.nodes && y.left != null && y.right == null
    requires t.ExactOffGaps(y.idx, y.idx + 1) && t.RExact(y)
    requires tl in t.nodes && tl.right == null && tl.idx == y.idx - 1
    modifies t.nodes`lmaxgap, t.nodes`rmaxgap
    ensures t.Exacts()
  {
    ghost var c := t.Path(tl);
    assert t.Down(y) && t.Down(y.left);
    forall m | m in t.nodes && m !in c ensures t.Exact(m) {
      t.OnPath(m, tl);
      if m.lo <= y.idx < m.hi { t.Inside(m, y); }
      OutsideExact(t, y.idx, tl, y, m);
    }
    FinishLeft(t, y, tl, c, |c|);
    forall m | m in t.nodes ensures t.Exact(m) {
      if m !in c { assert old(t.Exact(m)); }
    }
  }

  /** Nodes off the path from tl to y: what does not reach towards tr is exact already. */
  lemma FarFromSucc(t: Tree, y: Entry, tl: Entry, tr: Entry, m: Entry)
    requires t.Shape() && y in t.nodes && tl in t.nodes && tr in t.nodes && m in t.nodes
    requires t.ExactOffGaps(y.idx, y.idx + 1)
    requires tl.right == null && tl.idx == y.idx - 1 && tr.left == null && tr.idx == y.idx + 1 < y.hi
    requires m != y && (m.lo <= tl.idx < m.hi ==> m.lo <= y.idx < m.hi)
    ensures t.SideExact(m, tr.idx)
  {
    assert t.GapExact(m, y.idx, y.idx + 1);
    assert t.Down(m) && t.Down(y);
    if !(m.lo <= tr.idx < m.hi) {
      if m.lo <= y.idx < m.hi { t.Inside(m, y); }
      OutsideExact(t, y.idx, tl, tr, m);
    }
  }

  /** Where the nodes above y's predecessor stand with respect to y. */
  lemma AbovePred(t: Tree, y: Entry, tl: Entry, c: seq<Entry>, k: int, m: Entry)
    requires t.Shape() && y in t.nodes && tl in t.nodes && m in t.nodes && tl.idx == y.idx - 1 && y.lo <= tl.idx
    requires c == t.Path(tl) && 0 < k < |c| && c[k] == y && m != y && m.lo <= tl.idx < m.hi && !(m.lo <= y.idx < m.hi)
    ensures exists j :: 0 <= j < k && c[j] == m
  {
    t.OnPath(m, tl);
    var j :| 0 <= j < |c| && c[j] == m;
    t.PathIsSpine(tl);
    assert t.Up(y);
    if j > k {
      t.SpineNested(c, k, j);
    }
  }

  twostate lemma SideStays(t: Tree, new a: int, new b: int, new m: Entry)
    requires m in old(t.nodes) && t.gaps == old(t.gaps) && t.SameSlice(m) && m.lo <= m.idx < m.hi
    requires old(t.SideExact(m, b))
    requires !(m.lo <= a <= m.idx) ==> m.lmaxgap == old(m.lmaxgap)
    requires !(m.idx <= a < m.hi) ==> m.rmaxgap == old(m.rmaxgap)
    requires m.lo <= a < m.hi ==> m.lo <= b < m.hi && ((a < m.idx && b < m.idx) || (m.idx < a && m.idx < b))
    ensures t.SideExact(m, b)
  {
  }

  /** Both children: the predecessor's augmentation leaves only summaries towards the successor stale. */
  method FinishTwo(t: Tree, y: Entry, tl: Entry, ghost tr: Entry, ghost c: seq<Entry>, ghost k: int)
    requires t.Shape() && Keyed(t) && y in t.nodes && y.left != null && t.ExactOffGaps(y.idx, y.idx + 1)
    requires tl in t.nodes && tl.right == null && tl.idx == y.idx - 1
    requires tr in t.nodes && tr.left == null && tr.idx == y.idx + 1 < y.hi
    requires c == t.Path(tl) && 0 < k < |c| && c[k] == y && (forall j | 0 <= j < k :: c[j] != y)
    modifies t.nodes`lmaxgap, t.nodes`rmaxgap
    ensures t.ExactBut(tr.idx)
  {
    assert t.Down(y) && t.Down(y.left);
    PathSide(t, tl, k);
    forall m | m in t.nodes && m != y && (m.lo <= tl.idx < m.hi ==> m.lo <= y.idx < m.hi)
      ensures t.SideExact(m, tr.idx) {
      FarFromSucc(t, y, tl, tr, m);
    }
    FinishLeft(t, y, tl, c, k);
    forall m | m in t.nodes && m != y ensures t.SideExact(m, tr.idx) {
      AfterPred(t, y, tl, tr.idx, c, k, m);
    }
  }

  twostate lemma AfterPred(t: Tree, new y: Entry, new tl: Entry, new b: int, new c: seq<Entry>, new k: int,
      new m: Entry)
    requires t.Shape() && y in t.nodes && tl in t.nodes && m in t.nodes && m in old(t.nodes) && m != y
    requires tl.idx == y.idx - 1 && y.lo <= tl.idx && b == y.idx + 1 < y.hi
    requires c == t.Path(tl) && 0 < k < |c| && c[k] == y && (forall j | 0 <= j < k :: t.Exact(c[j]))
    requires (m.lo <= tl.idx < m.hi ==> m.lo <= y.idx < m.hi) ==> old(t.SideExact(m, b))
    requires t.gaps == old(t.gaps) && t.SameSlice(m)
    requires !(m.lo <= tl.idx <= m.idx) ==> m.lmaxgap == old(m.lmaxgap)
    requires !(m.idx <= tl.idx < m.hi) ==> m.rmaxgap == old(m.rmaxgap)
    ensures t.SideExact(m, b)
  {
    assert t.Down(m);
    if m.lo <= tl.idx < m.hi && !(m.lo <= y.idx < m.hi) {
      AbovePred(t, y, tl, c, k, m);
    } else {
      if m.lo <= y.idx < m.hi { t.Inside(m, y); }
      SideStays(t, tl.idx, b, m);
    }
  }

  /** The two augmentations that end the two-children case of lib_rbRemove. */
  method Finish(t: Tree, y: Entry)
    requires t.Shape() && Keyed(t) && y in t.nodes && y.left != null && t.ExactOffGaps(y.idx, y.idx + 1)
    requires y.right == null ==> t.RExact(y)
    modifies t.nodes`lmaxgap, t.nodes`rmaxgap
    ensures t.Exacts()
  {
    assert t.Down(y);
    var a := Maximum(t, y.left);
    if y.right == null {
      FinishOne(t, y, a);
    } else {
      assert t.Down(y.right);
      var b := Minimum(t, y.right);
      FinishBoth(t, y, a, b);
    }
  }

  method FinishBoth(t: Tree, y: Entry, a: Entry, b: Entry)
    requires t.Shape() && Keyed(t) && y in t.nodes && y.left != null && t.ExactOffGaps(y.idx, y.idx + 1)
    requires a in t.nodes && a.right == null && a.idx == y.idx - 1
    requires b in t.nodes && b.left == null && b.idx == y.idx + 1 < y.hi
    modifies t.nodes`lmaxgap, t.nodes`rmaxgap
    ensures t.Exacts()
  {
    assert t.Down(y) && t.Down(y.left);
    ghost var c, k := YOnPath(t, y, a);
    FinishTwo(t, y, a, b, c, k);
    AugmentAll(t, b);
  }

  lemma YOnPath(t: Tree, y: Entry, tl: Entry) returns (c: seq<Entry>, k: int)
    requires t.Shape() && y in t.nodes && tl in t.nodes && tl != y && y.lo <= tl.idx < y.hi
    ensures c == t.Path(tl) && 0 < k < |c| && c[k] == y && (forall j | 0 <= j < k :: c[j] != y)
  {
    c := t.Path(tl);
    t.OnPath(y, tl);
    k :| 0 <= k < |c| && c[k] == y;
    t.PathIsSpine(tl);
    t.SpineDistinct(c);
  }

  /* ---- the successor below a child of z: it was taken out first ---- */

  /** y, from outside the tree, has taken z's place, number, links and all. */
  twostate predicate Inherited(t: Tree, z: Entry, y: Entry, p: Entry?)
    requires z in old(t.nodes)
    reads t`root, t`order, t`nodes, t.nodes`left, t.nodes`right, t.nodes`parent, t.nodes`lo, t.nodes`idx, t.nodes`hi
  {
    && y !in old(t.nodes) && y in t.nodes && t.nodes == old(t.nodes) - {z} + {y}
    && 0 <= old(z.idx) < |old(t.order)| && t.order == old(t.order)[old(z.idx) := y]
    && y.lo == old(z.lo) && y.idx == old(z.idx) && y.hi == old(z.hi)
    && y.left == old(z.left) && y.right == old(z.right) && y.parent == old(z.parent) == p
    && (p != null ==> p in old(t.nodes) && p in t.nodes && p.left == if old(p.left) == z then y else old(p.left))
    && (p != null ==> p.right == if old(p.left) == z then old(p.right) else y)
    && t.root == (if p == null then y else old(t.root))
    && (y.left != null ==> y.left in t.nodes && y.left.parent == y)
    && (y.right != null ==> y.right in t.nodes && y.right.parent == y)
    && (forall n {:trigger t.SameSlice(n)} | n in t.nodes && n != y :: t.SameSlice(n))
    && (forall n {:trigger t.SameParent(n)} | n in t.nodes && n != y && n != y.left && n != y.right :: t.SameParent(n))
    && (forall n {:trigger t.SameKids(n)} | n in t.nodes && n != y && n != p :: t.SameKids(n))
  }

  twostate lemma InheritedDown(t: Tree, new z: Entry, new y: Entry, new p: Entry?, new n: Entry)
    requires z in old(t.nodes) && (p != null ==> p in old(t.nodes)) && old(allocated(y)) && y in t.nodes
    requires old(t.Shape()) && Inherited(t, z, y, p) && n in t.nodes && n != y
    ensures t.Down(n)
  {
    assert old(t.Down(z));
    assert old(t.Up(z));
    assert old(t.Down(n));
    assert t.SameSlice(n);
    assert n != p ==> t.SameKids(n);
    var l, r := n.left, n.right;
    if l != null && l != y {
      assert old(t.Up(l));
      assert t.SameSlice(l);
      assert t.SameParent(l);
    }
    if r != null && r != y {
      assert old(t.Up(r));
      assert t.SameSlice(r);
      assert t.SameParent(r);
    }
  }

  twostate lemma InheritedItself(t: Tree, new z: Entry, new y: Entry, new p: Entry?)
    requires z in old(t.nodes) && (p != null ==> p in old(t.nodes)) && old(allocated(y)) && y in t.nodes
    requires old(t.Shape()) && Inherited(t, z, y, p)
    ensures t.Down(y)
  {
    assert old(t.Down(z));
    if y.left != null { assert t.SameSlice(y.left); }
    if y.right != null { assert t.SameSlice(y.right); }
  }

  twostate lemma InheritedUp(t: Tree, new z: Entry, new y: Entry, new p: Entry?, new n: Entry)
    requires z in old(t.nodes) && (p != null ==> p in old(t.nodes)) && old(allocated(y)) && y in t.nodes
    requires old(t.Shape()) && Inherited(t, z, y, p) && n in t.nodes
    ensures t.Up(n)
  {
    assert old(t.Down(z));
    assert old(t.Up(z));
    if p != null {
      assert old(t.Down(p));
      assert t.SameSlice(p);
    }
    if n != y {
      assert old(t.Up(n));
      assert t.SameSlice(n);
      assert n != y.left && n != y.right ==> t.SameParent(n);
      var m := n.parent;
      if m != null && m != y {
        assert t.SameSlice(m);
        assert m != p ==> t.SameKids(m);
      }
    }
  }

  twostate lemma InheritedShape(t: Tree, new z: Entry, new y: Entry, new p: Entry?)
    requires z in old(t.nodes) && (p != null ==> p in old(t.nodes)) && old(allocated(y)) && y in t.nodes
    requires old(t.Shape()) && Inherited(t, z, y, p)
    ensures t.Shape()
  {
    assert old(t.Up(z));
    assert old(t.Down(z));
    forall i | 0 <= i < |t.order| ensures t.order[i] in t.nodes && t.order[i].idx == i {
      if i != old(z.idx) {
        var m := t.order[i];
        assert m == old(t.order)[i];
        assert t.SameSlice(m);
      }
    }
    if t.root != y { assert t.root != y.left && t.root != y.right; assert t.SameParent(t.root); }
    forall n | n in t.nodes ensures t.Down(n) {
      if n == y { InheritedItself(t, z, y, p); } else { InheritedDown(t, z, y, p, n); }
    }
    forall n | n in t.nodes ensures t.Up(n) {
      InheritedUp(t, z, y, p, n);
    }
  }

  /* ---- the successor is z's own child ---- */

  /** y, z's right child without a left child, has moved up into z's place. */
  twostate predicate Promoted(t: Tree, z: Entry, y: Entry, p: Entry?)
    requires z in old(t.nodes) && y in old(t.nodes)
    reads t`root, t`order, t`nodes, t.nodes`left, t.nodes`right, t.nodes`parent, t.nodes`lo, t.nodes`idx, t.nodes`hi
  {
    && y == old(z.right) && old(y.left) == null && z != y
    && y in t.nodes && t.nodes == old(t.nodes) - {z}
    && 0 <= old(z.idx) < |old(t.order)| && t.order == old(t.order)[..old(z.idx)] + old(t.order)[old(z.idx) + 1..]
    && y.lo == old(z.lo) && y.idx == old(z.idx) && y.hi == old(z.hi) - 1
    && y.left == old(z.left) && y.right == old(y.right) && y.parent == old(z.parent) == p
    && (p != null ==> p in old(t.nodes) && p in t.nodes && p.left == if old(p.left) == z then y else old(p.left))
    && (p != null ==> p.right == if old(p.left) == z then old(p.right) else y)
    && t.root == (if p == null then y else old(t.root))
    && (y.left != null ==> y.left in t.nodes && y.left.parent == y)
    && (forall n {:trigger Closed(n, old(y.idx))} | n in t.nodes && n != y :: Closed(n, old(y.idx)))
    && (forall n {:trigger t.SameParent(n)} | n in t.nodes && n != y && n != y.left :: t.SameParent(n))
    && (forall n {:trigger t.SameKids(n)} | n in t.nodes && n != y && n != p :: t.SameKids(n))
  }

  /** A node other than y keeps its children, but for y in place of z. */
  twostate lemma PromotedDown(t: Tree, new z: Entry, new y: Entry, new p: Entry?, new n: Entry)
    requires z in old(t.nodes) && y in old(t.nodes) && (p != null ==> p in old(t.nodes)) && y in t.nodes
    requires old(t.Shape()) && Promoted(t, z, y, p) && n in t.nodes && n != y
    ensures t.Down(n)
  {
    var q := old(y.idx);
    assert old(t.Down(z));
    assert old(t.Up(z));
    assert old(t.Down(y));
    assert old(t.Down(n));
    assert Closed(n, q);
    assert n != p ==> t.SameKids(n);
    var l, r := n.left, n.right;
    if l != null && l != y {
      assert Closed(l, q);
      assert t.SameParent(l);
    }
    if r != null && r != y {
      assert Closed(r, q);
      assert t.SameParent(r);
    }
  }

  twostate lemma PromotedItself(t: Tree, new z: Entry, new y: Entry, new p: Entry?)
    requires z in old(t.nodes) && y in old(t.nodes) && (p != null ==> p in old(t.nodes)) && y in t.nodes
    requires old(t.Shape()) && Promoted(t, z, y, p)
    ensures t.Down(y)
  {
    var q, l, r := old(y.idx), y.left, y.right;
    assert old(t.Down(z));
    assert old(t.Down(y));
    if l != null { assert Closed(l, q); }
    if r != null { assert Closed(r, q); assert t.SameParent(r); }
  }

  twostate lemma PromotedTop(t: Tree, new z: Entry, new y: Entry, new p: Entry?)
    requires z in old(t.nodes) && y in old(t.nodes) && (p != null ==> p in old(t.nodes)) && y in t.nodes
    requires old(t.Shape()) && Promoted(t, z, y, p)
    ensures t.Up(y)
  {
    assert old(t.Down(z));
    assert old(t.Up(z));
    assert old(t.Down(y));
    if p != null {
      assert old(t.Down(p));
      assert Closed(p, old(y.idx));
    }
  }

  twostate lemma PromotedUp(t: Tree, new z: Entry, new y: Entry, new p: Entry?, new n: Entry)
    requires z in old(t.nodes) && y in old(t.nodes) && (p != null ==> p in old(t.nodes)) && y in t.nodes
    requires old(t.Shape()) && Promoted(t, z, y, p) && n in t.nodes && n != y
    ensures t.Up(n)
  {
    var q, m := old(y.idx), n.parent;
    assert old(t.Down(z));
    assert old(t.Up(z));
    assert old(t.Down(y));
    assert old(t.Up(n));
    assert Closed(n, q);
    if n != y.left {
      assert t.SameParent(n);
      if m != null && m != y {
        assert old(t.Down(m));
        assert Closed(m, q);
        if m != p { assert t.SameKids(m); }
      }
    }
  }

  twostate lemma PromotedShape(t: Tree, new z: Entry, new y: Entry, new p: Entry?)
    requires z in old(t.nodes) && y in old(t.nodes) && (p != null ==> p in old(t.nodes)) && y in t.nodes
    requires old(t.Shape()) && Promoted(t, z, y, p)
    ensures t.Shape()
  {
    assert old(t.Up(z));
    assert old(t.Down(z));
    assert old(t.Down(y));
    var zi := old(z.idx);
    forall i | 0 <= i < |t.order| ensures t.order[i] in t.nodes && t.order[i].idx == i {
      var m := t.order[i];
      assert m == old(t.order)[if i < zi then i else i + 1];
      assert old(m.idx) == if i < zi then i else i + 1;
      if m != y { assert Closed(m, old(y.idx)); }
    }
    if t.root != y { assert t.root != y.left; assert t.SameParent(t.root); }
    forall n | n in t.nodes ensures t.Down(n) {
      if n == y { PromotedItself(t, z, y, p); } else { PromotedDown(t, z, y, p, n); }
    }
    forall n | n in t.nodes ensures t.Up(n) {
      if n == y { PromotedTop(t, z, y, p); } else { PromotedUp(t, z, y, p, n); }
    }
  }

  /** The numbers of the tree to come, with y in z's place, while all links still stand. */
  twostate predicate Renumbered(t: Tree, z: Entry, y: Entry)
    requires z in old(t.nodes) && y in old(t.nodes)
    reads t, t.nodes
  {
    && y in t.nodes && z != y && t.nodes == old(t.nodes) - {z} && t.root == old(t.root)
    && 0 <= old(z.idx) < |old(t.order)| && t.order == old(t.order)[..old(z.idx)] + old(t.order)[old(z.idx) + 1..]
    && y.lo == old(z.lo) && y.idx == old(z.idx) && y.hi == old(z.hi) - 1
    && (forall n {:trigger Closed(n, old(y.idx))} | n in t.nodes && n != y :: Closed(n, old(y.idx)))
    && (forall n {:trigger t.SameParent(n)} | n in t.nodes :: t.SameParent(n))
    && (forall n {:trigger t.SameKids(n)} | n in t.nodes :: t.SameKids(n))
  }

  ghost method Renumber(t: Tree, z: Entry, y: Entry, zi: int)
    requires z in t.nodes && y in t.nodes && z != y && 0 <= zi < |t.order| && zi == z.idx && y.idx == zi + 1
    requires |t.gaps| == |t.order| + 1
    modifies t`order, t`nodes, t`gaps, t.nodes`lo, t.nodes`idx, t.nodes`hi
    ensures Renumbered(t, z, y) && GapsJoined(old(t.gaps), t.gaps, zi) && t.gaps[zi] == t.GapAt(zi)
    ensures forall n | n in t.nodes && n != y ::
      n.lo == Before(old(n.lo), zi + 1) && n.idx == Before(old(n.idx), zi + 1) && n.hi == Before(old(n.hi), zi + 1)
  {
    t.nodes := t.nodes - {z};
    CloseSlot(t.nodes - {y}, zi + 1);
    y.lo, y.idx, y.hi := z.lo, zi, z.hi - 1;
    t.order := t.order[..zi] + t.order[zi + 1..];
    t.gaps := t.gaps[..zi] + [t.GapAt(zi)] + t.gaps[zi + 2..];
  }

  twostate lemma RenumberedUp(t: Tree, new z: Entry, new y: Entry, new n: Entry)
    requires z in old(t.nodes) && y in old(t.nodes) && y == old(z.right) && old(y.left) == null && y in t.nodes
    requires old(t.Shape()) && Renumbered(t, z, y) && n in t.nodes && n != y && n.parent != z && n.parent != y
    ensures t.Up(n)
  {
    var q := old(y.idx);
    assert old(t.Up(n));
    assert old(t.Down(z));
    assert old(t.Down(y));
    assert t.SameParent(n);
    assert Closed(n, q);
    var m := n.parent;
    if m != null {
      assert old(t.Up(m));
      assert Closed(m, q);
      assert t.SameKids(m);
    }
  }

  twostate lemma RenumberedSpine(t: Tree, new z: Entry, new y: Entry, new c: seq<Entry>)
    requires z in old(t.nodes) && y in old(t.nodes) && y == old(z.right) && old(y.left) == null && y in t.nodes
    requires old(t.Shape()) && Renumbered(t, z, y)
    requires |c| > 0 && (forall j | 0 <= j < |c| :: c[j] in old(t.nodes) && c[j] != z && c[j] != y) && old(t.Spine(c))
    ensures t.Spine(c)
  {
    forall j | 0 <= j < |c| ensures t.Rung(c, j) {
      assert old(t.Rung(c, j));
      assert t.SameParent(c[j]);
      assert c[j].parent != z && c[j].parent != y by { if j + 1 < |c| { assert c[j + 1] != z && c[j + 1] != y; } }
      RenumberedUp(t, z, y, c[j]);
    }
  }

  twostate lemma RenumberedSides(t: Tree, new z: Entry, new y: Entry, new zi: int)
    requires z in old(t.nodes) && y in old(t.nodes) && y == old(z.right) && old(y.left) == null && y in t.nodes
    requires old(t.Shape()) && Renumbered(t, z, y) && zi == old(z.idx) && |old(t.gaps)| == |old(t.order)| + 1
    requires GapsJoined(old(t.gaps), t.gaps, zi) && old(t.ExactOffGaps(zi, zi + 1))
    requires forall m | m in t.nodes :: m.lmaxgap == old(m.lmaxgap) && m.rmaxgap == old(m.rmaxgap)
    ensures t.ExactOffGaps(zi, zi + 1)
  {
    assert old(t.Down(z));
    assert old(t.Down(y));
    forall m | m in t.nodes ensures t.GapExact(m, zi, zi + 1) {
      if m != y {
        assert old(t.Down(m));
        assert Closed(m, zi + 1);
        assert old(t.GapExact(m, zi, zi + 1));
        RenumberedSide(t, zi, m);
      }
    }
  }

  twostate lemma RenumberedSide(t: Tree, new zi: int, new m: Entry)
    requires m in old(t.nodes) && GapsJoined(old(t.gaps), t.gaps, zi)
    requires Closed(m, zi + 1) && old(m.idx) != zi && old(m.idx) != zi + 1
    requires 0 <= old(m.lo) <= old(m.idx) < old(m.hi) < |old(t.gaps)|
    requires old(t.GapExact(m, zi, zi + 1)) && m.lmaxgap == old(m.lmaxgap) && m.rmaxgap == old(m.rmaxgap)
    ensures t.GapExact(m, zi, zi + 1)
  {
    var lo, idx, hi := old(m.lo), old(m.idx), old(m.hi);
    if idx < zi || zi + 1 < lo { JoinKeeps(old(t.gaps), t.gaps, zi, lo, idx); }
    if hi < zi || zi < idx { JoinKeeps(old(t.gaps), t.gaps, zi, idx + 1, hi); }
  }

  twostate lemma RenumberedParent(t: Tree, new z: Entry, new y: Entry, new p: Entry, new zi: int, new c: seq<Entry>)
    requires z in old(t.nodes) && y in old(t.nodes) && y == old(z.right) && old(y.left) == null && y in t.nodes
    requires old(t.Shape()) && Renumbered(t, z, y) && zi == old(z.idx) && p == old(z.parent) && p in old(t.nodes)
    requires p in t.nodes
    requires (forall m | m in c :: m in old(t.nodes) && old(m.lo <= p.idx < m.hi)) && y !in c
    ensures (p.left == z || p.right == z) && p.left != p.right
    ensures p.left == z ==> FootedBy(t, p, y, p.right, c, zi, zi + 1)
    ensures p.left != z ==> FootedBy(t, p, p.left, y, c, zi, zi + 1)
  {
    var q := old(y.idx);
    assert old(t.Up(z) && t.Down(z));
    assert old(t.Down(y));
    assert old(t.Down(p));
    assert t.SameKids(p);
    assert Closed(p, q);
    if old(p.left) != null && old(p.left) != z { assert old(t.Down(p.left)); assert Closed(old(p.left), q); }
    if old(p.right) != null && old(p.right) != z { assert old(t.Down(p.right)); assert Closed(old(p.right), q); }
  }

  twostate lemma RenumberedChild(t: Tree, new z: Entry, new y: Entry, new p: Entry?, new zi: int, new c: seq<Entry>)
    requires z in old(t.nodes) && y in old(t.nodes) && y == old(z.right) && old(y.left) == null && y in t.nodes
    requires old(t.Shape()) && Renumbered(t, z, y) && zi == old(z.idx) && p == old(z.parent)
    requires (p != null ==> p in old(t.nodes) && p in t.nodes)
    requires forall m | m in c :: m in old(t.nodes) && old(m.lo <= z.lo && z.hi <= m.hi)
    ensures Fits(t, y, p, p != null && p.left == z) && Footed(t, y, [y] + c, zi, zi + 1)
  {
    var q, x := old(y.idx), old(y.right);
    assert old(t.Up(z) && t.Down(z));
    assert old(t.Down(y));
    assert t.SameKids(y);
    if x != null { assert old(t.Down(x)); assert Closed(x, q); }
    if p != null {
      assert old(t.Down(p));
      assert t.SameKids(p);
      assert Closed(p, q);
    }
  }

  /** Give y the number of z. */
  ghost method StagePromote(t: Tree, z: Entry, y: Entry, zi: int) returns (c: seq<Entry>)
    requires t.Shape() && Keyed(t) && z in t.nodes && y in t.nodes && y == z.right && y.left == null && zi == z.idx
    requires t.ExactOffGaps(zi, zi + 1)
    modifies t`order, t`nodes, t`gaps, t.nodes`lo, t.nodes`idx, t.nodes`hi
    ensures Staged(t, z, y, c, zi, zi + 1) && y.idx == zi && y.lo == old(z.lo) && y.hi == old(z.hi) - 1
    ensures y.left == null
    ensures t.nodes == old(t.nodes) - {z} && 0 <= zi < |old(t.order)|
    ensures t.order == old(t.order)[..zi] + old(t.order)[zi + 1..]
    ensures forall n {:trigger Closed(n, zi + 1)} | n in t.nodes && n != y :: Closed(n, zi + 1)
    ensures old(y.idx) == zi + 1 && (old(y.right) == null ==> old(z.hi) == zi + 2)
    ensures z.left != null ==> z.left in t.nodes && z.left != y && z.left != z.parent
  {
    var p := z.parent;
    c := PromotePath(t, z, y);
    Renumber(t, z, y, zi);
    ShrunkKeyed(t, zi);
    RenumberedSides(t, z, y, zi);
    RenumberedStaged(t, z, y, p, zi, c);
  }

  /** z, its right child y, and the path above them. */
  lemma PromotePath(t: Tree, z: Entry, y: Entry) returns (c: seq<Entry>)
    requires t.Shape() && z in t.nodes && y in t.nodes && y == z.right && y.left == null
    ensures z != y && 0 <= z.idx < |t.order| && y.idx == z.idx + 1 && (y.right == null ==> z.hi == z.idx + 2)
    ensures z.left != null ==> z.left in t.nodes && z.left != y && z.left != z.parent && z.left != z
    ensures (z.parent == null ==> c == []) && (z.parent != null ==> z.parent in t.nodes && z.parent != z)
    ensures forall j | 0 <= j < |c| :: c[j] in t.nodes && c[j] != z && c[j] != y
    ensures forall m | m in c :: m in t.nodes && m.lo <= z.lo && z.hi <= m.hi
    ensures z.parent != null ==> |c| > 0 && c[0] == z.parent && t.Spine(c)
    ensures z.parent != null ==> forall m | m in c :: m.lo <= z.parent.idx < m.hi
  {
    var p := z.parent;
    assert t.Down(z) && t.Up(z) && t.Down(y) && t.Up(y);
    c := if p == null then [] else t.Path(p);
    if p != null {
      AboveU(t, z, p, c);
    }
  }

  twostate lemma RenumberedStaged(t: Tree, new z: Entry, new y: Entry, new p: Entry?, new zi: int, new c: seq<Entry>)
    requires z in old(t.nodes) && y in old(t.nodes) && y == old(z.right) && old(y.left) == null && y in t.nodes
    requires old(t.Shape()) && Renumbered(t, z, y) && zi == old(z.idx) && p == old(z.parent) == z.parent
    requires (p == null ==> c == []) && (p != null ==> p in old(t.nodes) && p in t.nodes)
    requires forall j | 0 <= j < |c| :: c[j] in old(t.nodes) && c[j] != z && c[j] != y
    requires forall m | m in c :: m in old(t.nodes) && old(m.lo <= z.lo && z.hi <= m.hi)
    requires p != null ==> |c| > 0 && c[0] == p && old(t.Spine(c))
    requires p != null ==> forall m | m in c :: old(m.lo <= p.idx < m.hi)
    requires Keyed(t) && t.ExactOffGaps(zi, zi + 1)
    ensures Staged(t, z, y, c, zi, zi + 1)
  {
    if p != null {
      RenumberedSpine(t, z, y, c);
      RenumberedParent(t, z, y, p, zi, c);
    }
    RenumberedChild(t, z, y, p, zi, c);
  }

  /** rb_transplant of z by y, and y takes over z's left child. */
  method Wire(t: Tree, z: Entry, y: Entry, ghost c: seq<Entry>, ghost a: int, ghost b: int)
    requires Staged(t, z, y, c, a, b) && z != y && z.left != null && z.left in t.nodes && z.left != y
    requires z.left != z.parent
    modifies t`root, Just(z.parent)`left, Just(z.parent)`right, y`parent, y`left, z.left`parent, y`lmaxgap, y`rmaxgap
    modifies c`lmaxgap, c`rmaxgap
    ensures t.root == if z.parent == null then y else old(t.root)
    ensures z.parent != null ==> z.parent.left == if old(z.parent.left) == z then y else old(z.parent.left)
    ensures z.parent != null ==> z.parent.right == if old(z.parent.left) == z then old(z.parent.right) else y
    ensures y.parent == z.parent && y.left == z.left && z.left.parent == y
    ensures Keyed(t) && t.ExactOffGaps(a, b)
    ensures y.right == null && y.hi == y.idx + 1 ==> t.RExact(y)
    ensures forall n {:trigger t.SameParent(n)} | n in t.nodes && n != y && n != y.left :: t.SameParent(n)
    ensures forall n {:trigger t.SameKids(n)} | n in t.nodes && n != y && n != z.parent :: t.SameKids(n)
  {
    Transplant(t, z, y, c, a, b);
    TakeLeft(y, z.left);
  }

  method TakeLeft(y: Entry, l: Entry)
    requires y != l
    modifies y`left, l`parent
    ensures y.left == l && l.parent == y
  {
    y.left := l;
    y.left.parent := y;
  }

  /** The successor, a child of z, takes z's place; its summaries and those above it are still to be settled. */
  method Promote(t: Tree, z: Entry, y: Entry)
    requires t.Shape() && Keyed(t) && z in t.nodes && y in t.nodes && y == z.right && y.left == null && z.left != null
    requires t.ExactOffGaps(z.idx, z.idx + 1)
    modifies t`root, t`order, t`nodes, t`gaps, t.nodes`lo, t.nodes`idx, t.nodes`hi
    modifies t.nodes`left, t.nodes`right, t.nodes`parent, t.nodes`lmaxgap, t.nodes`rmaxgap
    ensures Promoted(t, z, y, old(z.parent)) && Keyed(t) && y.idx == old(z.idx)
    ensures t.ExactOffGaps(old(z.idx), old(z.idx) + 1)
    ensures y.right == null ==> t.RExact(y)
  {
    ghost var zi := z.idx;
    ghost var c := StagePromote(t, z, y, zi);
    label S:
    Wire(t, z, y, c, zi, zi + 1);
    forall n | n in t.nodes && n != y && n != y.left ensures t.SameParent(n) { assert t.SameParent@S(n); }
    forall n | n in t.nodes && n != y && n != z.parent ensures t.SameKids(n) { assert t.SameKids@S(n); }
  }

  /** y, from outside, has z's number and z's right child; the links to z still stand. */
  twostate predicate Enlisted(t: Tree, z: Entry, y: Entry)
    requires z in old(t.nodes)
    reads t, t.nodes
  {
    && y !in old(t.nodes) && y in t.nodes && t.nodes == old(t.nodes) - {z} + {y} && t.root == old(t.root)
    && 0 <= old(z.idx) < |old(t.order)| && t.order == old(t.order)[old(z.idx) := y]
    && y.lo == old(z.lo) && y.idx == old(z.idx) && y.hi == old(z.hi) && y.left == null && y.right == old(z.right)
    && (forall n {:trigger t.SameSlice(n)} | n in t.nodes && n != y :: t.SameSlice(n))
    && (forall n {:trigger t.SameParent(n)} | n in t.nodes && n != y && n != y.right :: t.SameParent(n))
    && (forall n {:trigger t.SameKids(n)} | n in t.nodes && n != y :: t.SameKids(n))
  }

  /** Two gaps of the tree change: those on either side of the number. */
  ghost predicate GapsTouched(g: seq<nat>, g': seq<nat>, k: int)
  {
    && 0 <= k && k + 1 < |g| && |g'| == |g|
    && (forall x | 0 <= x < |g| && x != k && x != k + 1 :: g[x] == g'[x])
  }

  /** Assign y the number of z. */
  ghost method Enlist(t: Tree, z: Entry, y: Entry, zi: int)
    requires z in t.nodes && y !in t.nodes && 0 <= zi < |t.order| && zi == z.idx && |t.gaps| == |t.order| + 1
    modifies t`order, t`nodes, t`gaps, y`lo, y`idx, y`hi
    ensures t.nodes == old(t.nodes) - {z} + {y} && t.order == old(t.order)[zi := y]
    ensures y.lo == z.lo && y.idx == zi && y.hi == z.hi
    ensures GapsTouched(old(t.gaps), t.gaps, zi) && t.gaps[zi] == t.GapAt(zi) && t.gaps[zi + 1] == t.GapAt(zi + 1)
  {
    t.nodes := t.nodes - {z} + {y};
    y.lo, y.idx, y.hi := z.lo, zi, z.hi;
    t.order := t.order[zi := y];
    t.gaps := t.gaps[zi := t.GapAt(zi)][zi + 1 := t.GapAt(zi + 1)];
  }

  twostate lemma EnlistedSpine(t: Tree, new z: Entry, new y: Entry, new c: seq<Entry>)
    requires z in old(t.nodes) && old(allocated(y)) && y in t.nodes && old(t.Shape()) && Enlisted(t, z, y)
    requires |c| > 0 && (forall j | 0 <= j < |c| :: c[j] in old(t.nodes) && c[j] != z && c[j] != old(z.right))
    requires old(t.Spine(c))
    ensures t.Spine(c)
  {
    forall j | 0 <= j < |c| ensures t.Rung(c, j) {
      assert old(t.Rung(c, j));
      assert old(t.Down(z));
      assert t.SameParent(c[j]);
      assert t.SameSlice(c[j]);
      if j + 1 < |c| {
        assert c[j + 1] != y;
        assert t.SameSlice(c[j + 1]);
        assert t.SameKids(c[j + 1]);
      }
    }
  }

  twostate lemma EnlistedParent(t: Tree, new z: Entry, new y: Entry, new p: Entry, new zi: int, new c: seq<Entry>)
    requires z in old(t.nodes) && old(allocated(y)) && y in t.nodes && old(t.Shape()) && Enlisted(t, z, y)
    requires zi == old(z.idx) && p == old(z.parent) && p in old(t.nodes) && p in t.nodes && y !in c
    requires forall m | m in c :: m in old(t.nodes) && old(m.lo <= p.idx < m.hi)
    ensures (p.left == z || p.right == z) && p.left != p.right
    ensures p.left == z ==> FootedBy(t, p, y, p.right, c, zi, zi + 1)
    ensures p.left != z ==> FootedBy(t, p, p.left, y, c, zi, zi + 1)
  {
    assert old(t.Up(z) && t.Down(z));
    assert old(t.Down(p));
    assert t.SameKids(p);
    assert t.SameSlice(p);
    var l, r := p.left, p.right;
    if l != null && l != z { assert old(t.Down(l)); assert t.SameSlice(l); }
    if r != null && r != z { assert old(t.Down(r)); assert t.SameSlice(r); }
  }

  twostate lemma EnlistedChild(t: Tree, new z: Entry, new y: Entry, new p: Entry?, new zi: int, new c: seq<Entry>)
    requires z in old(t.nodes) && old(allocated(y)) && y in t.nodes && old(t.Shape()) && Enlisted(t, z, y)
    requires zi == old(z.idx) && p == old(z.parent) && (p != null ==> p in old(t.nodes) && p in t.nodes)
    requires forall m | m in c :: m in old(t.nodes) && old(m.lo <= z.lo && z.hi <= m.hi)
    ensures Fits(t, y, p, p != null && p.left == z) && Footed(t, y, [y] + c, zi, zi + 1)
  {
    var x := old(z.right);
    assert old(t.Up(z) && t.Down(z));
    if x != null { assert old(t.Down(x)); assert t.SameSlice(x); }
    if p != null {
      assert old(t.Down(p));
      assert t.SameKids(p);
      assert t.SameSlice(p);
    }
  }

  twostate lemma EnlistedSides(t: Tree, new z: Entry, new y: Entry, new zi: int)
    requires z in old(t.nodes) && old(allocated(y)) && y in t.nodes && old(t.Shape()) && Enlisted(t, z, y)
    requires zi == old(z.idx)
    requires GapsTouched(old(t.gaps), t.gaps, zi) && |old(t.gaps)| == |old(t.order)| + 1
    requires old(t.ExactOffGaps(zi, zi + 1))
    requires forall m | m in old(t.nodes) :: m.lmaxgap == old(m.lmaxgap) && m.rmaxgap == old(m.rmaxgap)
    ensures t.ExactOffGaps(zi, zi + 1)
  {
    assert old(t.Down(z));
    forall m | m in t.nodes ensures t.GapExact(m, zi, zi + 1) {
      if m != y {
        assert old(t.Down(m));
        assert t.SameSlice(m);
        assert old(t.GapExact(m, zi, zi + 1));
        EnlistedSide(t, zi, m);
      }
    }
  }

  twostate lemma EnlistedSide(t: Tree, new zi: int, new m: Entry)
    requires m in old(t.nodes) && GapsTouched(old(t.gaps), t.gaps, zi) && t.SameSlice(m)
    requires m.idx != zi && 0 <= m.lo <= m.idx < m.hi < |t.gaps|
    requires old(t.GapExact(m, zi, zi + 1)) && m.lmaxgap == old(m.lmaxgap) && m.rmaxgap == old(m.rmaxgap)
    ensures t.GapExact(m, zi, zi + 1)
  {
    if m.idx < zi || zi + 1 < m.lo { TouchKeeps(old(t.gaps), t.gaps, zi, m.lo, m.idx); }
    if m.hi < zi || zi < m.idx { TouchKeeps(old(t.gaps), t.gaps, zi, m.idx + 1, m.hi); }
  }

  lemma TouchKeeps(g: seq<nat>, g': seq<nat>, k: int, i: int, j: int)
    requires GapsTouched(g, g', k) && 0 <= i <= j < |g| && (j < k || k + 1 < i)
    ensures MaxGap(g', i, j) == MaxGap(g, i, j)
  {
    MaxGapSame(g, i, j, g', 0);
  }

  twostate lemma EnlistedKeyed(t: Tree, new y: Entry, new zi: int)
    requires 0 <= zi < |old(t.order)| && t.order == old(t.order)[zi := y]
    requires old(Keyed(t)) && GapsTouched(old(t.gaps), t.gaps, zi) && t.gaps[zi] == t.GapAt(zi)
    requires t.gaps[zi + 1] == t.GapAt(zi + 1)
    requires forall i | 0 <= i < |old(t.order)| ::
      old(t.order)[i].vaddr == old(t.order[i].vaddr) && old(t.order)[i].size == old(t.order[i].size)
    requires zi > 0 ==> t.order[zi - 1].vaddr < y.vaddr
    requires zi + 1 < |t.order| ==> y.vaddr < t.order[zi + 1].vaddr
    ensures Keyed(t)
  {
    forall x | 0 <= x <= |t.order| ensures t.gaps[x] == t.GapAt(x) {
      if x != zi && x != zi + 1 {
        assert old(t.gaps[x] == t.GapAt(x));
      }
    }
    forall i, j | 0 <= i < j < |t.order| ensures Starts(t.order, i, j) {
      if i != zi && j != zi {
        assert old(Starts(t.order, i, j));
      } else if i + 1 < zi {
        assert old(Starts(t.order, i, zi - 1));
      } else if zi + 1 < j {
        assert old(Starts(t.order, zi + 1, j));
      }
    }
  }

  method TakeRight(y: Entry, r: Entry)
    requires y != r
    modifies y`right, r`parent
    ensures y.right == r && r.parent == y
  {
    y.right := r;
    y.right.parent := y;
  }

  method Draft(t: Tree, z: Entry, y: Entry, ghost zi: int)
    requires z in t.nodes && y !in t.nodes && 0 <= zi < |t.order| && zi == z.idx && |t.gaps| == |t.order| + 1
    requires z.right != null && z.right in t.nodes && z.right != z && y.left == null
    modifies t`order, t`nodes, t`gaps, y`lo, y`idx, y`hi, y`right, z.right`parent
    ensures Enlisted(t, z, y) && y.right.parent == y
    ensures GapsTouched(old(t.gaps), t.gaps, zi) && t.gaps[zi] == t.GapAt(zi) && t.gaps[zi + 1] == t.GapAt(zi + 1)
  {
    TakeRight(y, z.right);
    Enlist(t, z, y, zi);
  }

  /** What rb_transplant needs now holds. */
  twostate lemma EnlistedStaged(t: Tree, new z: Entry, new y: Entry, new zi: int, new c: seq<Entry>)
    requires z in old(t.nodes) && old(allocated(y)) && y in t.nodes && old(t.Shape()) && Enlisted(t, z, y) && Keyed(t)
    requires zi == old(z.idx) && |old(t.gaps)| == |old(t.order)| + 1 && z.parent == old(z.parent)
    requires GapsTouched(old(t.gaps), t.gaps, zi) && old(t.ExactOffGaps(zi, zi + 1))
    requires forall m | m in old(t.nodes) :: m.lmaxgap == old(m.lmaxgap) && m.rmaxgap == old(m.rmaxgap)
    requires z.parent == null ==> c == []
    requires z.parent != null ==> z.parent in old(t.nodes) && z.parent != z && |c| > 0 && c[0] == z.parent
    requires z.parent != null ==>
      (forall j | 0 <= j < |c| :: c[j] in old(t.nodes) && c[j] != z && c[j] != old(z.right)) && old(t.Spine(c))
    requires forall m | m in c :: m in old(t.nodes) && old(m.lo <= z.lo && z.hi <= m.hi && m.lo <= z.parent.idx < m.hi)
    ensures Staged(t, z, y, c, zi, zi + 1)
  {
    var p := z.parent;
    EnlistedSides(t, z, y, zi);
    if p != null {
      EnlistedSpine(t, z, y, c);
      EnlistedParent(t, z, y, p, zi, c);
    }
    EnlistedChild(t, z, y, p, zi, c);
  }

  lemma KidFacts(t: Tree, z: Entry)
    requires t.Shape() && z in t.nodes && z.left != null && z.right != null
    ensures 0 <= z.idx < |t.order| && t.order[z.idx] == z && 0 <= z.lo <= z.idx < z.hi <= |t.order|
    ensures z.left in t.nodes && z.left != z && z.right in t.nodes && z.right != z && z.left != z.right
    ensures z.left.parent == z && z.right.parent == z && z.left != z.parent && z.right != z.parent
    ensures z.parent != null ==> z.parent in t.nodes && z.parent != z
  {
    assert t.Down(z) && t.Up(z) && t.Down(z.left) && t.Down(z.right);
  }

  /** y takes z's number and right child. */
  method StageInherit(t: Tree, z: Entry, y: Entry, ghost zi: int, ghost c: seq<Entry>)
    requires t.Shape() && Keyed(t) && z in t.nodes && y !in t.nodes && zi == z.idx && t.ExactOffGaps(zi, zi + 1)
    requires z.left != null && z.right != null && y.left == null
    requires 0 < zi <= |t.order| ==> t.order[zi - 1].vaddr < y.vaddr
    requires 0 <= zi + 1 < |t.order| ==> y.vaddr < t.order[zi + 1].vaddr
    requires c == if z.parent == null then [] else assert t.Up(z); t.Path(z.parent)
    modifies t`order, t`nodes, t`gaps, y`lo, y`idx, y`hi, y`right, z.right`parent
    ensures Staged(t, z, y, c, zi, zi + 1) && y.idx == zi && y.lo == z.lo && y.hi == z.hi && y.right == z.right
    ensures z.right.parent == y && Enlisted(t, z, y)
    ensures t.nodes == old(t.nodes) - {z} + {y} && 0 <= zi < |old(t.order)| && t.order == old(t.order)[zi := y]
  {
    KidFacts(t, z);
    if z.parent != null {
      AboveU(t, z, z.parent, c);
    }
    Draft(t, z, y, zi);
    EnlistedKeyed(t, y, zi);
    EnlistedStaged(t, z, y, zi, c);
  }

  /**
   The successor, already out of the tree, takes z's place; its summaries and those above it are still to be
   settled.
   */
  method Inherit(t: Tree, z: Entry, y: Entry)
    requires t.Shape() && Keyed(t) && z in t.nodes && y !in t.nodes && t.ExactOffGaps(z.idx, z.idx + 1)
    requires z.left != null && z.right != null && y.left == null
    requires 0 < z.idx <= |t.order| ==> t.order[z.idx - 1].vaddr < y.vaddr
    requires 0 <= z.idx + 1 < |t.order| ==> y.vaddr < t.order[z.idx + 1].vaddr
    modifies t`root, t`order, t`nodes, t`gaps, y`lo, y`idx, y`hi, y`left, y`right, y`parent, y`lmaxgap, y`rmaxgap
    modifies t.nodes`left, t.nodes`right, t.nodes`parent, t.nodes`lmaxgap, t.nodes`rmaxgap
    ensures Inherited(t, z, y, old(z.parent)) && Keyed(t) && y.idx == old(z.idx)
    ensures t.ExactOffGaps(old(z.idx), old(z.idx) + 1)
    ensures z.left == old(z.left) && z.right == old(z.right) && z.parent == old(z.parent)
  {
    ghost var zi, p := z.idx, z.parent;
    KidFacts(t, z);
    ghost var c := if p == null then [] else t.Path(p);
    StageInherit(t, z, y, zi, c);
    label S:
    Wire(t, z, y, c, zi, zi + 1);
    forall n | n in t.nodes && n != y && n != y.left && n != y.right ensures t.SameParent(n) {
      assert t.SameParent@S(n);
    }
    forall n | n in t.nodes && n != y && n != p ensures t.SameKids(n) { assert t.SameKids@S(n); }
    forall n | n in t.nodes && n != y ensures t.SameSlice(n) { assert t.SameSlice@S(n); }
  }
}
