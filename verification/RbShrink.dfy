/** Taking a node with at most one child out of the tree (rb_transplant at the bottom of lib_rbRemove). */
module RbShrink {
  import opened GapTree
  import opened RbAugment

  /** Number i after number q has been taken away. */
  function Before(i: int, q: int): int {
    if i <= q then i else i - 1
  }

  /** Renumber the nodes after number q has been taken away. */
  ghost method CloseSlot(nodes: set<Entry>, q: int)
    modifies nodes`lo, nodes`idx, nodes`hi
    ensures forall n | n in nodes ::
      n.lo == Before(old(n.lo), q) && n.idx == Before(old(n.idx), q) && n.hi == Before(old(n.hi), q)
  {
    forall n | n in nodes { n.lo := Before(n.lo, q); }
    forall n | n in nodes { n.idx := Before(n.idx, q); }
    forall n | n in nodes { n.hi := Before(n.hi, q); }
  }

  twostate predicate Closed(n: Entry, q: int)
    reads n`lo, n`idx, n`hi
  {
    n.lo == Before(old(n.lo), q) && n.idx == Before(old(n.idx), q) && n.hi == Before(old(n.hi), q)
  }

  /** Node u, number q, was replaced by its only child v, or by nothing. */
  twostate predicate Shrunk(t: Tree, u: Entry, v: Entry?, p: Entry?, q: int)
    reads t, t.nodes, v, p
  {
    && u in old(t.nodes) && q == old(u.idx) && p == old(u.parent) && t.nodes == old(t.nodes) - {u}
    && (p != null ==> p in t.nodes) && (v != null ==> v in t.nodes)
    && 0 <= q < |old(t.order)| && t.order == old(t.order)[..q] + old(t.order)[q + 1..]
    && ((old(u.left) == null && v == old(u.right)) || (old(u.right) == null && v == old(u.left)))
    && t.root == (if p == null then v else old(t.root))
    && (p != null ==> p.left == if old(p.left) == u then v else old(p.left))
    && (p != null ==> p.right == if old(p.left) == u then old(p.right) else v)
    && (v != null ==> v.parent == p)
    && (forall n {:trigger Closed(n, q)} | n in t.nodes :: Closed(n, q))
    && (forall n {:trigger t.SameParent(n)} | n in t.nodes && n != v :: t.SameParent(n))
    && (forall n {:trigger t.SameKids(n)} | n in t.nodes && n != p :: t.SameKids(n))
  }

  twostate lemma ShrunkDown(t: Tree, new u: Entry, new v: Entry?, new p: Entry?, new q: int, new n: Entry)
    requires u in old(t.nodes) && (p != null ==> p in old(t.nodes)) && (v != null ==> v in old(t.nodes))
    requires old(t.Shape()) && Shrunk(t, u, v, p, q) && n in t.nodes
    ensures t.Down(n)
  {
    assert old(t.Down(n));
    assert old(t.Down(u));
    assert old(t.Up(u));
    assert Closed(n, q);
    assert n != p ==> t.SameKids(n);
    if v != null { assert Closed(v, q); }
    if n.left != null && n.left != v { assert Closed(n.left, q); assert t.SameParent(n.left); }
    if n.right != null && n.right != v { assert Closed(n.right, q); assert t.SameParent(n.right); }
  }

  twostate lemma ShrunkUp(t: Tree, new u: Entry, new v: Entry?, new p: Entry?, new q: int, new n: Entry)
    requires u in old(t.nodes) && (p != null ==> p in old(t.nodes)) && (v != null ==> v in old(t.nodes))
    requires old(t.Shape()) && Shrunk(t, u, v, p, q) && n in t.nodes
    ensures t.Up(n)
  {
    assert old(t.Up(n));
    assert old(t.Down(n));
    assert old(t.Down(u));
    assert old(t.Up(u));
    assert Closed(n, q);
    assert n != v ==> t.SameParent(n);
    if p != null { assert old(t.Down(p)); assert Closed(p, q); }
    if n.parent != null {
      assert Closed(n.parent, q);
      assert n.parent != p ==> t.SameKids(n.parent);
      assert old(t.Down(n.parent));
    }
  }

  twostate lemma ShrunkShape(t: Tree, new u: Entry, new v: Entry?, new p: Entry?, new q: int)
    requires u in old(t.nodes) && (p != null ==> p in old(t.nodes)) && (v != null ==> v in old(t.nodes))
    requires old(t.Shape()) && Shrunk(t, u, v, p, q)
    ensures t.Shape()
  {
    assert old(t.Down(u));
    assert old(t.Up(u));
    forall i | 0 <= i < |t.order| ensures t.order[i] in t.nodes && t.order[i].idx == i {
      var m := old(t.order)[if i < q then i else i + 1];
      assert t.order[i] == m;
      assert old(m.idx) == if i < q then i else i + 1;
      assert Closed(m, q);
    }
    if old(t.root) != null && t.root != null && t.root != v { assert t.SameParent(t.root); }
    forall n | n in t.nodes ensures t.Down(n) {
      ShrunkDown(t, u, v, p, q, n);
    }
    forall n | n in t.nodes ensures t.Up(n) {
      ShrunkUp(t, u, v, p, q, n);
    }
  }

  /** One gap takes the place of gaps q and q+1. */
  ghost predicate GapsJoined(gaps: seq<nat>, gaps': seq<nat>, q: int)
  {
    && 0 <= q && q + 1 < |gaps| && |gaps'| == |gaps| - 1
    && (forall x | 0 <= x < q :: gaps'[x] == gaps[x])
    && (forall x | q + 1 < x < |gaps| :: gaps[x] == gaps'[x - 1])
  }

  /** The largest gap of a stretch clear of the joined gaps stays what it was. */
  lemma JoinKeeps(g: seq<nat>, g': seq<nat>, q: int, i: int, j: int)
    requires GapsJoined(g, g', q) && 0 <= i <= j < |g| && (j < q || q + 1 < i)
    ensures var d := if j < q then 0 else -1; j + d < |g'| && MaxGap(g', i + d, j + d) == MaxGap(g, i, j)
  {
    MaxGapSame(g, i, j, g', if j < q then 0 else -1);
  }

  /** Only summaries ranging over the joined gap can be stale. */
  twostate lemma ShrunkSide(t: Tree, new q: int, new a: int, new m: Entry)
    requires m in old(t.nodes) && GapsJoined(old(t.gaps), t.gaps, q) && a <= q
    requires Closed(m, q) && old(m.idx) != q && 0 <= old(m.lo) <= old(m.idx) < old(m.hi) < |old(t.gaps)|
    requires old(t.GapExact(m, a, q + 1)) && m.lmaxgap == old(m.lmaxgap) && m.rmaxgap == old(m.rmaxgap)
    ensures t.GapExact(m, a, q)
  {
    var lo, idx, hi := old(m.lo), old(m.idx), old(m.hi);
    if idx < q || q + 1 < lo { JoinKeeps(old(t.gaps), t.gaps, q, lo, idx); }
    if hi < q || q < idx { JoinKeeps(old(t.gaps), t.gaps, q, idx + 1, hi); }
  }

  twostate lemma ShrunkSides(t: Tree, new u: Entry, new q: int, new a: int)
    requires u in old(t.nodes) && a <= q
    requires old(t.Shape()) && GapsJoined(old(t.gaps), t.gaps, q) && |old(t.gaps)| == |old(t.order)| + 1
    requires q == old(u.idx) && t.nodes == old(t.nodes) - {u}
    requires forall n {:trigger Closed(n, q)} | n in t.nodes :: Closed(n, q)
    requires old(t.ExactOffGaps(a, q + 1))
    requires forall m | m in t.nodes :: m.lmaxgap == old(m.lmaxgap) && m.rmaxgap == old(m.rmaxgap)
    ensures t.ExactOffGaps(a, q)
  {
    assert old(t.Down(u));
    forall m | m in t.nodes ensures t.GapExact(m, a, q) {
      assert old(t.Down(m));
      assert Closed(m, q);
      assert old(t.GapExact(m, a, q + 1));
      ShrunkSide(t, q, a, m);
    }
  }

  twostate lemma ShrunkKeyed(t: Tree, new q: int)
    requires 0 <= q < |old(t.order)| && t.order == old(t.order)[..q] + old(t.order)[q + 1..]
    requires old(Keyed(t)) && GapsJoined(old(t.gaps), t.gaps, q) && t.gaps[q] == t.GapAt(q)
    requires forall i | 0 <= i < |old(t.order)| ::
      old(t.order)[i].vaddr == old(t.order[i].vaddr) && old(t.order)[i].size == old(t.order[i].size)
    ensures Keyed(t)
  {
    var o := old(t.order);
    assert forall i | 0 <= i < q :: t.order[i] == o[i];
    assert forall i | q <= i < |t.order| :: t.order[i] == o[i + 1];
    forall x | 0 <= x <= |t.order| ensures t.gaps[x] == t.GapAt(x) {
      if x < q {
        assert old(t.gaps[x] == t.GapAt(x));
      } else if x > q {
        assert old(t.gaps)[x + 1] == old(t.GapAt(x + 1));
        assert old(t.gaps)[x + 1] == t.gaps[(x + 1) - 1];
      }
    }
    forall i, j | 0 <= i < j < |t.order| ensures Starts(t.order, i, j) {
      assert old(Starts(t.order, if i < q then i else i + 1, if j < q then j else j + 1));
    }
  }

  /** The ghost numbers once u is gone. */
  ghost method Dismiss(t: Tree, u: Entry, q: int)
    requires u in t.nodes && 0 <= q < |t.order| && |t.gaps| == |t.order| + 1
    modifies t`order, t`nodes, t`gaps, t.nodes`lo, t.nodes`idx, t.nodes`hi
    ensures t.nodes == old(t.nodes) - {u} && t.order == old(t.order)[..q] + old(t.order)[q + 1..]
    ensures forall n | n in t.nodes ::
      n.lo == Before(old(n.lo), q) && n.idx == Before(old(n.idx), q) && n.hi == Before(old(n.hi), q)
    ensures GapsJoined(old(t.gaps), t.gaps, q) && t.gaps[q] == t.GapAt(q)
  {
    t.nodes := t.nodes - {u};
    CloseSlot(t.nodes, q);
    t.order := t.order[..q] + t.order[q + 1..];
    t.gaps := t.gaps[..q] + [t.GapAt(q)] + t.gaps[q + 2..];
  }
}
