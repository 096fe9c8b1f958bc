/**
 map_augment (vm/map.c) and its copies in proc/: recompute the gap summaries of
 one node and carry them up to the root.
 */
module RbAugment {
  import opened GapTree

  ghost predicate Keyed(t: Tree)
    reads t`order, t`gaps, t.order`vaddr, t.order`size
  {
    t.Ordered() && t.GapsMatch()
  }

  /** The ancestor on the left: the node just before node's slice, or a node not below it in key. */
  method LeftOf(t: Tree, node: Entry, ghost c: seq<Entry>) returns (p: Entry)
    requires t.Spine(c) && c[0] == node && t.Ordered()
    ensures 0 < node.lo <= |t.order| ==> p == t.order[node.lo - 1]
    ensures node.lo == 0 ==> node.vaddr <= p.vaddr
  {
    var it := node;
    p := node;
    ghost var i := 0;
    assert t.Rung(c, 0);
    while it.parent != null
      invariant 0 <= i < |c| && it == c[i] && p == it
      invariant it.lo == node.lo && node.idx <= it.idx
      invariant node.vaddr <= it.vaddr
      decreases |c| - i
    {
      assert t.Rung(c, i);
      assert t.Rung(c, i + 1);
      p := it.parent;
      if it.parent.right == it {
        return;
      }
      assert Starts(t.order, it.idx, p.idx);
      it := it.parent;
      i := i + 1;
    }
    assert t.Rung(c, i);
  }

  method RightOf(t: Tree, node: Entry, ghost c: seq<Entry>) returns (p: Entry)
    requires t.Spine(c) && c[0] == node && t.Ordered()
    ensures 0 <= node.hi < |t.order| ==> p == t.order[node.hi]
    ensures node.hi == |t.order| ==> node.vaddr >= p.vaddr
  {
    var it := node;
    p := node;
    ghost var i := 0;
    assert t.Rung(c, 0);
    while it.parent != null
      invariant 0 <= i < |c| && it == c[i] && p == it
      invariant it.hi == node.hi && it.idx <= node.idx
      invariant node.vaddr >= it.vaddr
      decreases |c| - i
    {
      assert t.Rung(c, i);
      assert t.Rung(c, i + 1);
      p := it.parent;
      if it.parent.left == it {
        return;
      }
      assert Starts(t.order, p.idx, it.idx);
      it := it.parent;
      i := i + 1;
    }
    assert t.Rung(c, i);
  }

  /** A spine node's summary of the side away from the spine's foot is exact. */
  ghost predicate OffExact(t: Tree, c: seq<Entry>, j: int)
    requires 0 < j < |c|
    reads t`gaps, c`left, c`lo, c`hi, c`idx, c`lmaxgap, c`rmaxgap
  {
    if c[j].left == c[j - 1] then t.RExact(c[j]) else t.LExact(c[j])
  }

  ghost predicate TowardExact(t: Tree, c: seq<Entry>, j: int)
    requires 0 < j < |c|
    reads t`gaps, c`left, c`lo, c`hi, c`idx, c`lmaxgap, c`rmaxgap
  {
    if c[j].left == c[j - 1] then t.LExact(c[j]) else t.RExact(c[j])
  }

  /** A spine node's summary towards the foot is what its child on the spine reports. */
  ghost predicate Reported(c: seq<Entry>, j: int)
    requires 0 < j < |c|
    reads c`left, c`lmaxgap, c`rmaxgap
  {
    var m := Max(c[j - 1].lmaxgap, c[j - 1].rmaxgap);
    if c[j].left == c[j - 1] then c[j].lmaxgap == m else c[j].rmaxgap == m
  }

  /** l and r hold the summaries of the rungs above the foot. */
  ghost predicate Recorded(c: seq<Entry>, l: seq<nat>, r: seq<nat>)
    reads c`lmaxgap, c`rmaxgap
  {
    && |l| == |r| == |c|
    && (forall j | 0 < j < |c| :: l[j] == c[j].lmaxgap)
    && (forall j | 0 < j < |c| :: r[j] == c[j].rmaxgap)
  }

  /** The summary away from the foot is still the one recorded in l or r. */
  ghost predicate OffKept(c: seq<Entry>, l: seq<nat>, r: seq<nat>, j: int)
    requires |l| == |r| == |c| && 0 < j < |c|
    reads c`left, c`lmaxgap, c`rmaxgap
  {
    if c[j].left == c[j - 1] then c[j].rmaxgap == r[j] else c[j].lmaxgap == l[j]
  }

  /** The last loop of map_augment. */
  method Propagate(t: Tree, node: Entry, ghost c: seq<Entry>, ghost l: seq<nat>, ghost r: seq<nat>)
    requires t.Spine(c) && c[0] == node && Recorded(c, l, r)
    modifies c`lmaxgap, c`rmaxgap
    ensures node.lmaxgap == old(node.lmaxgap) && node.rmaxgap == old(node.rmaxgap)
    ensures forall j {:trigger OffKept(c, l, r, j)} | 0 < j < |c| :: OffKept(c, l, r, j)
    ensures forall j {:trigger Reported(c, j)} | 0 < j < |c| :: Reported(c, j)
  {
    t.SpineDistinct(c);
    var it := node;
    ghost var i := 0;
    assert t.Rung(c, 0);
    while it.parent != null
      invariant 0 <= i < |c| && it == c[i]
      invariant node.lmaxgap == old(node.lmaxgap) && node.rmaxgap == old(node.rmaxgap)
      invariant forall j {:trigger OffKept(c, l, r, j)} | 0 < j < |c| :: OffKept(c, l, r, j)
      invariant forall j {:trigger Reported(c, j)} | 0 < j <= i :: Reported(c, j)
      decreases |c| - i
    {
      assert t.Rung(c, i);
      label L:
      if it.parent.left == it {
        it.parent.lmaxgap := Max(it.lmaxgap, it.rmaxgap);
      } else {
        it.parent.rmaxgap := Max(it.lmaxgap, it.rmaxgap);
      }
      forall j | 0 < j < |c| ensures OffKept(c, l, r, j) {
        assert old@L(OffKept(c, l, r, j));
      }
      forall j | 0 < j <= i ensures Reported(c, j) {
        assert old@L(Reported(c, j));
      }
      it := it.parent;
      i := i + 1;
    }
    assert t.Rung(c, i);
  }

  /** The left half of map_augment. */
  method AugmentLeft(t: Tree, node: Entry, ghost c: seq<Entry>)
    requires t.Spine(c) && c[0] == node && Keyed(t) && node.left != node
    modifies node`lmaxgap
    ensures node.left == null && node.lo == node.idx ==> t.LExact(node)
    ensures node.left != null ==> node.lmaxgap == Max(node.left.lmaxgap, node.left.rmaxgap)
  {
    if node.left == null {
      var p := LeftOf(t, node, c);
      node.lmaxgap := (if node.vaddr <= p.vaddr then node.vaddr - t.start else node.vaddr - p.vaddr - p.size) % WORD;
      assert t.Rung(c, 0);
      assert 0 < node.lo ==> Starts(t.order, node.lo - 1, node.idx);
      assert node.lo == node.idx ==> t.gaps[node.idx] == t.GapAt(node.idx);
    } else {
      node.lmaxgap := Max(node.left.lmaxgap, node.left.rmaxgap);
    }
  }

  /** The right half of map_augment. */
  method AugmentRight(t: Tree, node: Entry, ghost c: seq<Entry>)
    requires t.Spine(c) && c[0] == node && Keyed(t) && node.right != node
    modifies node`rmaxgap
    ensures node.right == null && node.hi == node.idx + 1 ==> t.RExact(node)
    ensures node.right != null ==> node.rmaxgap == Max(node.right.lmaxgap, node.right.rmaxgap)
  {
    if node.right == null {
      var p := RightOf(t, node, c);
      node.rmaxgap := (if node.vaddr >= p.vaddr then t.stop - node.vaddr - node.size
        else p.vaddr - node.vaddr - node.size) % WORD;
      assert t.Rung(c, 0);
      assert node.hi < |t.order| ==> Starts(t.order, node.idx, node.hi);
      assert node.hi == node.idx + 1 ==> t.gaps[node.hi] == t.GapAt(node.hi);
    } else {
      node.rmaxgap := Max(node.right.lmaxgap, node.right.rmaxgap);
    }
  }

  /** What map_augment leaves behind: the foot tells what it sees, every rung what its child reports. */
  ghost predicate Fresh(t: Tree, c: seq<Entry>)
    requires |c| > 0
    reads t`gaps, c`left, c`right, c`lo, c`idx, c`hi, c`lmaxgap, c`rmaxgap
    reads Just(c[0].left)`lmaxgap, Just(c[0].left)`rmaxgap, Just(c[0].right)`lmaxgap, Just(c[0].right)`rmaxgap
  {
    && (c[0].left == null && c[0].lo == c[0].idx ==> t.LExact(c[0]))
    && (c[0].right == null && c[0].hi == c[0].idx + 1 ==> t.RExact(c[0]))
    && (c[0].left != null ==> c[0].lmaxgap == Max(c[0].left.lmaxgap, c[0].left.rmaxgap))
    && (c[0].right != null ==> c[0].rmaxgap == Max(c[0].right.lmaxgap, c[0].right.rmaxgap))
    && (forall j {:trigger Reported(c, j)} | 0 < j < |c| :: Reported(c, j))
  }

  /** map_augment. */
  method Augment(t: Tree, node: Entry, ghost c: seq<Entry>, ghost l: seq<nat>, ghost r: seq<nat>)
    requires t.Spine(c) && c[0] == node && Keyed(t) && Recorded(c, l, r)
    requires node.left != null ==> node.left !in c
    requires node.right != null ==> node.right !in c
    modifies c`lmaxgap, c`rmaxgap
    ensures Fresh(t, c)
    ensures forall j {:trigger OffKept(c, l, r, j)} | 0 < j < |c| :: OffKept(c, l, r, j)
  {
    t.SpineDistinct(c);
    AugmentLeft(t, node, c);
    AugmentRight(t, node, c);
    Propagate(t, node, c, l, r);
  }

  /** Reports along a spine turn exact side summaries into exact summaries, up to rung k. */
  lemma SpineExact(t: Tree, c: seq<Entry>, k: int)
    requires t.Spine(c) && |t.gaps| == |t.order| + 1 && 0 < k <= |c|
    requires t.Exact(c[0])
    requires forall j {:trigger OffExact(t, c, j)} | 0 < j < k :: OffExact(t, c, j)
    requires forall j {:trigger Reported(c, j)} | 0 < j < |c| :: Reported(c, j)
    ensures forall j | 0 <= j < k :: t.Exact(c[j])
    ensures k < |c| ==> TowardExact(t, c, k)
    decreases k
  {
    if k > 1 {
      SpineExact(t, c, k - 1);
      assert OffExact(t, c, k - 1);
    }
    if k < |c| {
      assert Reported(c, k);
      assert t.Rung(c, k - 1);
      assert t.Rung(c, k);
      var it := c[k - 1];
      MaxGapSplit(t.gaps, it.lo, it.idx, it.hi);
    }
  }

  ghost function Ls(c: seq<Entry>): (l: seq<nat>)
    reads c`lmaxgap
    ensures |l| == |c| && forall j | 0 <= j < |c| :: l[j] == c[j].lmaxgap
  {
    if c == [] then [] else Ls(c[..|c| - 1]) + [c[|c| - 1].lmaxgap]
  }

  ghost function Rs(c: seq<Entry>): (r: seq<nat>)
    reads c`rmaxgap
    ensures |r| == |c| && forall j | 0 <= j < |c| :: r[j] == c[j].rmaxgap
  {
    if c == [] then [] else Rs(c[..|c| - 1]) + [c[|c| - 1].rmaxgap]
  }

  lemma KidsOffPath(t: Tree, node: Entry)
    requires t.Shape() && node in t.nodes
    ensures node.left != null ==> node.left !in t.Path(node)
    ensures node.right != null ==> node.right !in t.Path(node)
  {
    assert t.Down(node);
    if node.left != null {
      t.OnPath(node.left, node);
    }
    if node.right != null {
      t.OnPath(node.right, node);
    }
  }

  lemma OffPathExact(t: Tree, node: Entry, m: Entry)
    requires t.Shape() && node in t.nodes && t.ExactBut(node.idx) && m in t.nodes && m !in t.Path(node)
    ensures t.Exact(m)
  {
    t.OnPath(m, node);
    assert t.SideExact(m, node.idx);
  }

  /** The side a path node turns away from the path's foot. */
  lemma PathSide(t: Tree, node: Entry, j: int)
    requires t.Shape() && node in t.nodes && 0 < j < |t.Path(node)|
    ensures var c := t.Path(node); c[j].lo <= node.idx < c[j].hi && node.idx != c[j].idx
    ensures var c := t.Path(node); c[j].left == c[j - 1] <==> node.idx < c[j].idx
  {
    var c := t.Path(node);
    t.PathIsSpine(node);
    assert t.Rung(c, j - 1);
    assert t.Rung(c, j);
    t.OnPath(c[j], node);
    t.OnPath(c[j - 1], node);
    t.PathCovers(c[j - 1], node);
    assert t.Down(c[j]);
  }

  lemma OffSidesExact(t: Tree, node: Entry, j: int)
    requires t.Shape() && node in t.nodes && t.ExactBut(node.idx) && 0 < j < |t.Path(node)|
    ensures OffExact(t, t.Path(node), j)
  {
    PathSide(t, node, j);
    assert t.SideExact(t.Path(node)[j], node.idx);
  }

  /** Exact children make an exact node. */
  lemma FromKids(t: Tree, n: Entry)
    requires t.Shape() && n in t.nodes && |t.gaps| == |t.order| + 1
    requires n.left == null ==> t.LExact(n)
    requires n.right == null ==> t.RExact(n)
    requires n.left != null ==> t.Exact(n.left) && n.lmaxgap == Max(n.left.lmaxgap, n.left.rmaxgap)
    requires n.right != null ==> t.Exact(n.right) && n.rmaxgap == Max(n.right.lmaxgap, n.right.rmaxgap)
    ensures t.Exact(n)
  {
    assert t.Down(n);
    if n.left != null {
      assert t.Down(n.left);
      MaxGapSplit(t.gaps, n.left.lo, n.left.idx, n.left.hi);
    }
    if n.right != null {
      assert t.Down(n.right);
      MaxGapSplit(t.gaps, n.right.lo, n.right.idx, n.right.hi);
    }
  }

  /** How a slice node sees a number inside the foot's slice. */
  lemma SpineSide(t: Tree, c: seq<Entry>, j: int)
    requires t.Spine(c) && 0 < j < |c|
    ensures c[j].lo <= c[0].lo && c[0].hi <= c[j].hi
    ensures c[j].left == c[j - 1] ==> c[0].hi <= c[j].idx
    ensures c[j].left != c[j - 1] ==> c[j].idx < c[0].lo
  {
    assert t.Rung(c, j - 1);
    assert t.Rung(c, j);
    t.SpineNested(c, 0, j);
    if j > 1 {
      t.SpineNested(c, 0, j - 1);
    }
  }

  /** The links below n that an augmentation of n relies on, were l and r its children; the gaps a..b are in doubt. */
  ghost predicate FootedBy(t: Tree, n: Entry, l: Entry?, r: Entry?, c: seq<Entry>, a: int, b: int)
    requires n in t.nodes
    reads t`nodes, t.nodes`lo, t.nodes`idx, t.nodes`hi
  {
    && a <= b && n.lo <= b && a <= n.hi
    && (l == null ==> n.lo == n.idx || a <= n.idx)
    && (r == null ==> n.hi == n.idx + 1 || n.idx < b)
    && (l != null ==> l in t.nodes && l !in c && l.lo == n.lo && l.hi == n.idx && l.lo <= l.idx < l.hi)
    && (r != null ==> r in t.nodes && r !in c && r.lo == n.idx + 1 && r.hi == n.hi && r.lo <= r.idx < r.hi)
  }

  ghost predicate Footed(t: Tree, n: Entry, c: seq<Entry>, a: int, b: int)
    requires n in t.nodes
    reads t`nodes, t.nodes`left, t.nodes`right, t.nodes`lo, t.nodes`idx, t.nodes`hi
  {
    FootedBy(t, n, n.left, n.right, c, a, b)
  }

  lemma LeftFromKid(t: Tree, n: Entry)
    requires n.left != null && t.Exact(n.left) && n.left.lo == n.lo && n.left.hi == n.idx && n.idx < |t.gaps|
    requires n.lmaxgap == Max(n.left.lmaxgap, n.left.rmaxgap)
    ensures t.LExact(n)
  {
    MaxGapSplit(t.gaps, n.left.lo, n.left.idx, n.left.hi);
  }

  lemma RightFromKid(t: Tree, n: Entry)
    requires n.right != null && t.Exact(n.right) && n.right.lo == n.idx + 1 && n.right.hi == n.hi && n.hi < |t.gaps|
    requires n.rmaxgap == Max(n.right.lmaxgap, n.right.rmaxgap)
    ensures t.RExact(n)
  {
    MaxGapSplit(t.gaps, n.right.lo, n.right.idx, n.right.hi);
  }

  /** map_augment keeps exact whatever is exact on the far sides of its path. */
  method AugmentKeep(t: Tree, node: Entry, ghost c: seq<Entry>, ghost l: seq<nat>, ghost r: seq<nat>)
    requires t.Spine(c) && c[0] == node && Keyed(t) && Recorded(c, l, r)
    requires node.left != null ==> node.left !in c
    requires node.right != null ==> node.right !in c
    modifies c`lmaxgap, c`rmaxgap
    ensures Fresh(t, c)
    ensures forall j {:trigger OffKept(c, l, r, j)} | 0 < j < |c| :: OffKept(c, l, r, j)
    ensures forall j {:trigger OffExact(t, c, j)} | 0 < j < |c| && old(OffExact(t, c, j)) :: OffExact(t, c, j)
  {
    Augment(t, node, c, l, r);
    forall j | 0 < j < |c| && old(OffExact(t, c, j)) ensures OffExact(t, c, j) {
      assert OffKept(c, l, r, j);
    }
  }

  /** The summary away from the foot is exact, or ranges over the gaps in doubt. */
  ghost predicate FarExact(t: Tree, c: seq<Entry>, j: int, a: int, b: int)
    requires 0 < j < |c|
    reads t`gaps, c`left, c`lo, c`hi, c`idx, c`lmaxgap, c`rmaxgap
  {
    || OffExact(t, c, j)
    || (if c[j].left == c[j - 1] then c[j].idx < b && a <= c[j].hi else c[j].lo <= b && a <= c[j].idx)
  }

  /** The side towards the foot ranges over whatever the foot's slice touches. */
  lemma FarSideExact(t: Tree, c: seq<Entry>, j: int, a: int, b: int)
    requires t.Spine(c) && 0 < j < |c| && a <= b && c[0].lo <= b && a <= c[0].hi
    ensures t.GapExact(c[j], a, b) <==> FarExact(t, c, j, a, b)
  {
    assert t.Rung(c, 0);
    SpineSide(t, c, j);
  }

  /** The foot's own summaries, away from the gaps in doubt. */
  lemma FootExact(t: Tree, n: Entry, c: seq<Entry>, a: int, b: int)
    requires t.Spine(c) && n == c[0] && |t.gaps| == |t.order| + 1 && Footed(t, n, c, a, b) && Fresh(t, c)
    requires n.left != null ==> t.GapExact(n.left, a, b)
    requires n.right != null ==> t.GapExact(n.right, a, b)
    ensures t.GapExact(n, a, b)
  {
    assert t.Rung(c, 0);
    if n.left != null && n.idx < a { LeftFromKid(t, n); }
    if n.right != null && b <= n.idx { RightFromKid(t, n); }
  }

  /** An augmentation above the gaps a..b disturbs no summary that does not range over them. */
  method AugmentOver(t: Tree, node: Entry, ghost c: seq<Entry>, ghost a: int, ghost b: int)
    requires t.Spine(c) && c[0] == node && Keyed(t) && Footed(t, node, c, a, b) && t.ExactOffGaps(a, b)
    modifies c`lmaxgap, c`rmaxgap
    ensures t.ExactOffGaps(a, b) && Fresh(t, c)
  {
    forall j | 0 < j < |c| ensures FarExact(t, c, j, a, b) {
      assert t.GapExact(c[j], a, b);
      FarSideExact(t, c, j, a, b);
    }
    assert node.left != null ==> t.GapExact(node.left, a, b);
    assert node.right != null ==> t.GapExact(node.right, a, b);
    AugmentKeep(t, node, c, Ls(c), Rs(c));
    FootExact(t, node, c, a, b);
    forall j | 0 < j < |c| ensures FarExact(t, c, j, a, b) {
      assert old(FarExact(t, c, j, a, b));
    }
    OverKept(t, node, c, a, b);
  }

  twostate lemma OverKept(t: Tree, new node: Entry, new c: seq<Entry>, new a: int, new b: int)
    requires t.Spine(c) && c[0] == node && node in t.nodes && a <= b && c[0].lo <= b && a <= c[0].hi
    requires t.nodes == old(t.nodes) && t.gaps == old(t.gaps) && old(t.ExactOffGaps(a, b)) && t.GapExact(node, a, b)
    requires forall j | 0 < j < |c| :: FarExact(t, c, j, a, b)
    requires forall m | m in t.nodes && m !in c :: unchanged(m)
    ensures t.ExactOffGaps(a, b)
  {
    forall m | m in t.nodes ensures t.GapExact(m, a, b) {
      if m in c && m != node {
        var j :| 0 <= j < |c| && c[j] == m;
        FarSideExact(t, c, j, a, b);
      } else if m != node {
        assert old(t.GapExact(m, a, b));
      }
    }
  }

  /** If only gap k was in doubt, an augmentation of its holder settles everything. */
  lemma Settled1(t: Tree, h: Entry, k: int, c: seq<Entry>)
    requires t.Shape() && |t.gaps| == |t.order| + 1 && h in t.nodes && t.Holds(h, k) && t.ExactOffGaps(k, k)
    requires c == t.Path(h) && Fresh(t, c)
    ensures t.Exacts()
  {
    t.OffGapIsBut(h, k);
    assert t.Down(h);
    t.PathIsSpine(h);
    KidsOffPath(t, h);
    if h.left != null { OffPathExact(t, h, h.left); }
    if h.right != null { OffPathExact(t, h, h.right); }
    FromKids(t, h);
    forall j | 0 < j < |c| ensures OffExact(t, c, j) {
      OffSidesExact(t, h, j);
    }
    SpineExact(t, c, |c|);
    forall m | m in t.nodes ensures t.Exact(m) {
      if m !in c { OffPathExact(t, h, m); }
    }
  }

  /** map_augment repairs the summaries on the path from its node, up to the first rung whose other side is stale. */
  method AugmentSpine(t: Tree, node: Entry, ghost c: seq<Entry>, ghost k: int)
    requires t.Shape() && node in t.nodes && Keyed(t) && c == t.Path(node) && 0 < k <= |c|
    requires node.left != null ==> t.Exact(node.left)
    requires node.right != null ==> t.Exact(node.right)
    requires forall j {:trigger OffExact(t, c, j)} | 0 < j < k :: OffExact(t, c, j)
    modifies c`lmaxgap, c`rmaxgap
    ensures forall j | 0 <= j < k :: t.Exact(c[j])
    ensures k < |c| ==> TowardExact(t, c, k)
    ensures forall j {:trigger OffExact(t, c, j)} | 0 < j < |c| && old(OffExact(t, c, j)) :: OffExact(t, c, j)
    ensures forall m | m in t.nodes && !(m.lo <= node.idx <= m.idx) :: m.lmaxgap == old(m.lmaxgap)
    ensures forall m | m in t.nodes && !(m.idx <= node.idx < m.hi) :: m.rmaxgap == old(m.rmaxgap)
  {
    t.PathIsSpine(node);
    KidsOffPath(t, node);
    ghost var l, r := Ls(c), Rs(c);
    AugmentKeep(t, node, c, l, r);
    SpineDone(t, node, c, k, l, r);
  }

  lemma SpineDone(t: Tree, node: Entry, c: seq<Entry>, k: int, l: seq<nat>, r: seq<nat>)
    requires t.Shape() && node in t.nodes && Keyed(t) && c == t.Path(node) && 0 < k <= |c| && |l| == |r| == |c|
    requires Fresh(t, c)
    requires node.left != null ==> t.Exact(node.left)
    requires node.right != null ==> t.Exact(node.right)
    requires forall j {:trigger OffExact(t, c, j)} | 0 < j < k :: OffExact(t, c, j)
    requires forall j {:trigger OffKept(c, l, r, j)} | 0 < j < |c| :: OffKept(c, l, r, j)
    ensures forall j | 0 <= j < k :: t.Exact(c[j])
    ensures k < |c| ==> TowardExact(t, c, k)
    ensures forall j | 0 <= j < |c| && !(c[j].lo <= node.idx <= c[j].idx) :: c[j].lmaxgap == l[j]
    ensures forall j | 0 <= j < |c| && !(c[j].idx <= node.idx < c[j].hi) :: c[j].rmaxgap == r[j]
  {
    assert t.Down(node);
    t.PathIsSpine(node);
    FromKids(t, node);
    SpineExact(t, c, k);
    KeptAway(t, node, c, l, r);
  }

  /** What an augmentation leaves alone, told by slices. */
  lemma KeptAway(t: Tree, node: Entry, c: seq<Entry>, l: seq<nat>, r: seq<nat>)
    requires t.Shape() && node in t.nodes && c == t.Path(node) && |l| == |r| == |c|
    requires forall j {:trigger OffKept(c, l, r, j)} | 0 < j < |c| :: OffKept(c, l, r, j)
    ensures forall j | 0 <= j < |c| && !(c[j].lo <= node.idx <= c[j].idx) :: c[j].lmaxgap == l[j]
    ensures forall j | 0 <= j < |c| && !(c[j].idx <= node.idx < c[j].hi) :: c[j].rmaxgap == r[j]
  {
    assert t.Down(node);
    forall j | 0 < j < |c|
      ensures !(c[j].lo <= node.idx <= c[j].idx) ==> c[j].lmaxgap == l[j]
      ensures !(c[j].idx <= node.idx < c[j].hi) ==> c[j].rmaxgap == r[j]
    {
      PathSide(t, node, j);
      assert OffKept(c, l, r, j);
    }
  }

  /** map_augment repairs every summary that reaches towards its node. */
  method AugmentAll(t: Tree, node: Entry)
    requires t.Shape() && node in t.nodes && Keyed(t) && t.ExactBut(node.idx)
    modifies t.nodes`lmaxgap, t.nodes`rmaxgap
    ensures t.Exacts()
  {
    ghost var c := t.Path(node);
    KidsOffPath(t, node);
    assert t.Down(node);
    forall j | 0 < j < |c| ensures OffExact(t, c, j) {
      OffSidesExact(t, node, j);
    }
    forall m | m in t.nodes && m !in c ensures t.Exact(m) {
      OffPathExact(t, node, m);
    }
    AugmentSpine(t, node, c, |c|);
    forall m | m in t.nodes ensures t.Exact(m) {
      if m !in c {
        assert old(t.Exact(m));
      }
    }
  }
}
