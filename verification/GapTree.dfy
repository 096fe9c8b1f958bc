/**
 The gap-augmented red-black tree of lib/rb.c, with the fields that vm/map.c,
 proc/ports.c, proc/resource.c, proc/process.c and proc/threads.c hang on its
 nodes.

 Links, colours and gap summaries are ordinary fields of `Entry`.  Ghost fields
 say where an entry stands in the in-order sequence `order` of its tree: it is
 number `idx`, and its subtree is the slice `[lo..hi)`.  Every structural
 invariant is then local to a node and its neighbours.  Gap number `k` lies
 between `order[k-1]` and `order[k]`.
 */
module GapTree {

  const WORD: nat := 0x1_0000_0000

  datatype Color = Red | Black

  class Entry {
    var left: Entry?
    var right: Entry?
    var parent: Entry?
    var color: Color

    var vaddr: nat
    var size: nat
    var lmaxgap: nat
    var rmaxgap: nat

    // what the entry maps: an object (0 for none, that is, anonymous memory), its protection and flags
    var obj: nat
    var prot: nat
    var flags: nat
    var offs: int
    // the anonymous pages behind it, 0 for none in a slot, and how far into them it begins
    var amap: array?<nat>
    var aoffs: nat

    ghost var lo: int
    ghost var idx: int
    ghost var hi: int
    ghost var bh: int

    constructor (vaddr: nat, size: nat)
      ensures this.vaddr == vaddr && this.size == size
    {
      this.left, this.right, this.parent, this.color := null, null, null, Red;
      this.vaddr, this.size := vaddr, size;
      this.lmaxgap, this.rmaxgap := 0, 0;
      this.obj, this.prot, this.flags, this.offs, this.amap, this.aoffs := 0, 0, 0, 0, null, 0;
    }

    /** The stack-allocated nil of lib_rbRemoveBalance. */
    constructor Nil(parent: Entry?)
      ensures this.color == Black && this.parent == parent
    {
      this.left, this.right, this.parent, this.color := null, null, parent, Black;
      this.vaddr, this.size := 0, 0;
      this.lmaxgap, this.rmaxgap := 0, 0;
      this.obj, this.prot, this.flags, this.offs, this.amap, this.aoffs := 0, 0, 0, 0, null, 0;
    }
  }

  /** map_cmp (vm/map.c): where e1 lies with respect to e2. */
  function Compare(e1: Entry, e2: Entry): int
    reads e1`vaddr, e1`size, e2`vaddr, e2`size
  {
    if e2.vaddr + e2.size <= e1.vaddr then 1
    else if e1.vaddr + e1.size <= e2.vaddr then -1
    else 0
  }

  ghost predicate Overlap(e1: Entry, e2: Entry)
    reads e1`vaddr, e1`size, e2`vaddr, e2`size
  {
    e1.vaddr < e2.vaddr + e2.size && e2.vaddr < e1.vaddr + e1.size
  }

  /** Entry i begins, or ends, before entry j begins. */
  ghost predicate Starts(s: seq<Entry>, i: int, j: int)
    requires 0 <= i < j < |s|
    reads s`vaddr
  {
    s[i].vaddr < s[j].vaddr
  }

  ghost predicate Ends(s: seq<Entry>, i: int, j: int)
    requires 0 <= i < j < |s|
    reads s`vaddr, s`size
  {
    s[i].vaddr + s[i].size <= s[j].vaddr
  }

  /** The entries are non-empty intervals, disjoint and in order. */
  ghost predicate Apart(s: seq<Entry>)
    reads s`vaddr, s`size
  {
    && (forall i | 0 <= i < |s| :: s[i].size > 0)
    && (forall i, j {:trigger Ends(s, i, j)} | 0 <= i < j < |s| :: Ends(s, i, j))
  }

  lemma ApartSplice(s: seq<Entry>, z: Entry, k: int)
    requires Apart(s) && 0 <= k <= |s| && z.size > 0
    requires forall i | 0 <= i < k :: s[i].vaddr + s[i].size <= z.vaddr
    requires forall i | k <= i < |s| :: z.vaddr + z.size <= s[i].vaddr
    ensures Apart(s[..k] + [z] + s[k..])
  {
    var u := s[..k] + [z] + s[k..];
    forall i | 0 <= i < |u| ensures u[i] == if i < k then s[i] else if i == k then z else s[i - 1] {
    }
    forall i, j | 0 <= i < j < |u| ensures Ends(u, i, j) {
      if i != k && j != k {
        assert Ends(s, if i < k then i else i - 1, if j < k then j else j - 1);
      }
    }
  }

  function Max(a: nat, b: nat): nat {
    if a > b then a else b
  }

  /** The largest of gaps i, i+1, ..., j. */
  ghost function MaxGap(gaps: seq<nat>, i: int, j: int): nat
    requires 0 <= i <= j < |gaps|
    decreases j - i
  {
    if i == j then gaps[j] else Max(MaxGap(gaps, i, j - 1), gaps[j])
  }

  lemma MaxGapSplit(gaps: seq<nat>, i: int, k: int, j: int)
    requires 0 <= i <= k < j < |gaps|
    ensures MaxGap(gaps, i, j) == Max(MaxGap(gaps, i, k), MaxGap(gaps, k + 1, j))
    decreases j
  {
    if k + 1 < j {
      MaxGapSplit(gaps, i, k, j - 1);
    }
  }

  /** Equal stretches of gaps have equal maxima. */
  lemma MaxGapSame(g: seq<nat>, i: int, j: int, h: seq<nat>, d: int)
    requires 0 <= i <= j < |g| && 0 <= i + d && j + d < |h|
    requires forall x | i <= x <= j :: g[x] == h[x + d]
    ensures MaxGap(g, i, j) == MaxGap(h, i + d, j + d)
    decreases j - i
  {
    if i < j {
      MaxGapSame(g, i, j - 1, h, d);
    }
  }

  /** The largest gap of a stretch is one of its gaps and no other is larger. */
  lemma {:induction false} MaxGapOf(gaps: seq<nat>, i: int, j: int) returns (k: int)
    requires 0 <= i <= j < |gaps|
    ensures i <= k <= j && MaxGap(gaps, i, j) == gaps[k]
    ensures forall x | i <= x <= j :: gaps[x] <= gaps[k]
    decreases j - i
  {
    k := j;
    if i < j {
      var h := MaxGapOf(gaps, i, j - 1);
      if gaps[h] > gaps[j] { k := h; }
    }
  }

  /** A place where the black count below is one short, while a removal is being repaired. */
  datatype Debt = Settled | Owed(at: Entry, left: bool)

  class Tree {
    var root: Entry?
    const start: nat
    const stop: nat
    ghost var order: seq<Entry>
    ghost var nodes: set<Entry>
    ghost var gaps: seq<nat>

    /** lib_rbInit: the empty tree over [start, stop). */
    constructor (start: nat, stop: nat)
      requires start <= stop < WORD
      ensures this.start == start && this.stop == stop && root == null && nodes == {} && order == []
      ensures RedBlack() && GapsMatch()
    {
      this.start, this.stop, this.root := start, stop, null;
      this.order, this.nodes, this.gaps := [], {}, [(stop - start) % WORD];
    }

    /* ---- structure ---- */

    /** The children of n are linked back to it and share out its slice. */
    ghost predicate Down(n: Entry)
      requires n in nodes
      reads this`order, this`nodes, nodes`left, nodes`right, nodes`parent, nodes`lo, nodes`idx, nodes`hi
    {
      && 0 <= n.lo <= n.idx < n.hi <= |order| && order[n.idx] == n
      && (n.left == null ==> n.lo == n.idx)
      && (n.left != null ==> n.left in nodes && n.left.parent == n && n.left.lo == n.lo && n.left.hi == n.idx)
      && (n.right == null ==> n.hi == n.idx + 1)
      && (n.right != null ==> n.right in nodes && n.right.parent == n && n.right.lo == n.idx + 1 && n.right.hi == n.hi)
    }

    /** n is the root, or the proper child of its parent. */
    ghost predicate Up(n: Entry)
      requires n in nodes
      reads this`root, this`order, this`nodes, nodes`left, nodes`right, nodes`parent, nodes`lo, nodes`idx, nodes`hi
    {
      && 0 <= n.lo <= n.idx < n.hi <= |order| && order[n.idx] == n
      && (n.parent == null ==> n == root && n.lo == 0 && n.hi == |order|)
      && (n.parent != null ==>
            && n.parent in nodes && n.parent != n && n.parent.left != n.parent.right
            && (|| (n.parent.left == n && n.lo == n.parent.lo && n.hi == n.parent.idx)
                || (n.parent.right == n && n.lo == n.parent.idx + 1 && n.hi == n.parent.hi)))
    }

    ghost predicate Listed()
      reads this`root, this`order, this`nodes, nodes`idx, nodes`parent
    {
      && (root == null ==> |order| == 0)
      && (root != null ==> root in nodes && root.parent == null)
      && (forall i | 0 <= i < |order| :: order[i] in nodes && order[i].idx == i)
    }

    ghost predicate Shape()
      reads this`root, this`order, this`nodes, nodes`left, nodes`right, nodes`parent, nodes`lo, nodes`idx, nodes`hi
    {
      && Listed()
      && (forall n {:trigger Down(n)} | n in nodes :: Down(n))
      && (forall n {:trigger Up(n)} | n in nodes :: Up(n))
    }

    lemma EmptyTree()
      requires Shape() && root == null
      ensures nodes == {}
    {
      if nodes != {} {
        var n :| n in nodes;
        NodeCounts(n);
      }
    }

    lemma NodeCounts(n: Entry)
      requires Shape() && n in nodes
      ensures |order| > 0
    {
      assert Down(n);
    }

    /* ---- keys and gaps ---- */

    ghost predicate Ordered()
      reads this`order, order`vaddr
    {
      forall i, j {:trigger Starts(order, i, j)} | 0 <= i < j < |order| :: Starts(order, i, j)
    }

    ghost predicate Disjoint()
      reads this`order, order`vaddr, order`size
    {
      Apart(order)
    }

    /** Without entry number k the rest is still apart. */
    twostate lemma StillApart(new k: int)
      requires 0 <= k < |old(order)| && order == old(order)[..k] + old(order)[k + 1..] && old(Disjoint())
      requires forall x | x in order :: x.vaddr == old(x.vaddr) && x.size == old(x.size)
      ensures Disjoint()
    {
      forall i | 0 <= i < |order| ensures order[i] in order && order[i] == old(order)[if i < k then i else i + 1] {}
      forall i, j | 0 <= i < j < |order| ensures Ends(order, i, j) {
        assert old(Ends(order, if i < k then i else i + 1, if j < k then j else j + 1));
      }
    }

    /** What lies before number x ends before it, what lies after it begins after it. */
    lemma Around(x: int)
      requires Disjoint() && 0 <= x < |order|
      ensures forall i | 0 <= i < x :: order[i].vaddr + order[i].size <= order[x].vaddr
      ensures forall i | x < i < |order| :: order[x].vaddr + order[x].size <= order[i].vaddr
    {
      forall i | 0 <= i < x ensures order[i].vaddr + order[i].size <= order[x].vaddr {
        assert Ends(order, i, x);
      }
      forall i | x < i < |order| ensures order[x].vaddr + order[x].size <= order[i].vaddr {
        assert Ends(order, x, i);
      }
    }

    /** Gap k, in the wrap-around arithmetic of size_t. */
    ghost function GapAt(k: int): nat
      requires 0 <= k <= |order|
      reads this`order, order`vaddr, order`size
    {
      ((if k == |order| then stop else order[k].vaddr)
       - (if k == 0 then start else order[k - 1].vaddr + order[k - 1].size)) % WORD
    }

    ghost predicate GapsMatch()
      reads this`order, this`gaps, order`vaddr, order`size
    {
      && |gaps| == |order| + 1
      && forall k | 0 <= k <= |order| :: gaps[k] == GapAt(k)
    }

    ghost predicate LExact(n: Entry)
      reads this`gaps, n`lo, n`idx, n`lmaxgap
    {
      0 <= n.lo <= n.idx < |gaps| && n.lmaxgap == MaxGap(gaps, n.lo, n.idx)
    }

    ghost predicate RExact(n: Entry)
      reads this`gaps, n`hi, n`idx, n`rmaxgap
    {
      0 <= n.idx + 1 <= n.hi < |gaps| && n.rmaxgap == MaxGap(gaps, n.idx + 1, n.hi)
    }

    ghost predicate Exact(n: Entry)
      reads this`gaps, n`lo, n`hi, n`idx, n`lmaxgap, n`rmaxgap
    {
      LExact(n) && RExact(n)
    }

    /** Every gap summary is exact. */
    ghost predicate Exacts()
      reads this`gaps, this`nodes, nodes`lo, nodes`hi, nodes`idx, nodes`lmaxgap, nodes`rmaxgap
    {
      forall n {:trigger Exact(n)} | n in nodes :: Exact(n)
    }

    /* ---- the path from a node to the root ---- */

    ghost predicate Spine(c: seq<Entry>)
      reads this`root, this`order, this`nodes, nodes`left, nodes`right, nodes`parent, nodes`lo, nodes`idx, nodes`hi
    {
      && |c| > 0
      && (forall j | 0 <= j < |c| :: c[j] in nodes)
      && (forall j {:trigger Rung(c, j)} | 0 <= j < |c| :: Rung(c, j))
    }

    ghost predicate Rung(c: seq<Entry>, j: int)
      requires 0 <= j < |c| && forall j | 0 <= j < |c| :: c[j] in nodes
      reads this`root, this`order, this`nodes, nodes`left, nodes`right, nodes`parent, nodes`lo, nodes`idx, nodes`hi
    {
      Up(c[j]) && c[j].parent == if j + 1 < |c| then c[j + 1] else null
    }

    lemma SpineNested(c: seq<Entry>, j: int, k: int)
      requires Spine(c) && 0 <= j < k < |c|
      ensures c[k].lo <= c[j].lo && c[j].hi <= c[k].hi && c[j].hi - c[j].lo < c[k].hi - c[k].lo
      decreases k
    {
      assert Rung(c, k - 1);
      assert Rung(c, k);
      if j < k - 1 {
        SpineNested(c, j, k - 1);
      }
    }

    lemma SpineDistinct(c: seq<Entry>)
      requires Spine(c)
      ensures forall j, k | 0 <= j < k < |c| :: c[j] != c[k]
    {
      forall j, k | 0 <= j < k < |c| ensures c[j] != c[k] {
        SpineNested(c, j, k);
      }
    }

    /* ---- laminarity of the slices ---- */

    /** A node whose number falls in c's slice has its whole slice on one side of c. */
    lemma Inside(c: Entry, m: Entry)
      requires Shape() && c in nodes && m in nodes && c.lo <= m.idx < c.hi
      ensures c.lo <= m.lo && m.hi <= c.hi
      ensures m.idx < c.idx ==> c.left != null && m.hi <= c.idx
      ensures m.idx > c.idx ==> c.right != null && c.idx < m.lo
      ensures m.idx == c.idx ==> m == c
      decreases c.hi - c.lo
    {
      assert Down(c);
      assert Down(m);
      if m.idx < c.idx {
        assert Down(c.left);
        Inside(c.left, m);
      } else if m.idx > c.idx {
        assert Down(c.right);
        Inside(c.right, m);
      }
    }

    lemma RightEnd(m: Entry)
      requires Shape() && m in nodes
      ensures 0 < m.hi <= |order| && order[m.hi - 1].right == null
      decreases m.hi - m.lo
    {
      assert Down(m);
      if m.right != null {
        RightEnd(m.right);
      }
    }

    lemma LeftEnd(m: Entry)
      requires Shape() && m in nodes
      ensures 0 <= m.lo < |order| && order[m.lo].left == null
      decreases m.hi - m.lo
    {
      assert Down(m);
      if m.left != null {
        LeftEnd(m.left);
      }
    }

    /** Of two neighbours in the order exactly one has room for a child between them. */
    lemma Neighbours(c: Entry, k: int)
      requires Shape() && c in nodes && c.lo < k < c.hi
      ensures 0 < k < |order|
      ensures order[k - 1].right == null <==> order[k].left != null
      decreases c.hi - c.lo
    {
      assert Down(c);
      if k < c.idx {
        Neighbours(c.left, k);
      } else if k == c.idx {
        RightEnd(c.left);
      } else if k == c.idx + 1 {
        LeftEnd(c.right);
      } else {
        Neighbours(c.right, k);
      }
    }

    /* ---- paths ---- */

    ghost function Path(n: Entry): (c: seq<Entry>)
      requires Shape() && n in nodes
      reads this`root, this`order, this`nodes, nodes`left, nodes`right, nodes`parent, nodes`lo, nodes`idx, nodes`hi
      ensures |c| > 0 && c[0] == n && forall j | 0 <= j < |c| :: c[j] in nodes
      decreases |order| - (n.hi - n.lo)
    {
      assert Up(n);
      [n] + if n.parent == null then [] else assert Up(n.parent); Path(n.parent)
    }

    lemma PathIsSpine(n: Entry)
      requires Shape() && n in nodes
      ensures Spine(Path(n))
      decreases |order| - (n.hi - n.lo)
    {
      var c := Path(n);
      assert Up(n);
      if n.parent != null {
        assert Up(n.parent);
        PathIsSpine(n.parent);
        var d := Path(n.parent);
        forall j | 0 <= j < |c| ensures Rung(c, j) {
          if j > 0 { assert Rung(d, j - 1); }
        }
      }
    }

    /** The path from n to the root holds exactly the nodes whose slice holds n. */
    lemma OnPath(m: Entry, n: Entry)
      requires Shape() && n in nodes && m in nodes
      ensures m in Path(n) <==> m.lo <= n.idx < m.hi
    {
      if m in Path(n) {
        PathCovers(m, n);
      }
      if m.lo <= n.idx < m.hi {
        CoverOnPath(m, n);
      }
    }

    lemma PathCovers(m: Entry, n: Entry)
      requires Shape() && n in nodes && m in Path(n)
      ensures m.lo <= n.lo && n.hi <= m.hi && m.lo <= n.idx < m.hi
      decreases |order| - (n.hi - n.lo)
    {
      assert Up(n);
      if m != n {
        assert Up(n.parent);
        PathCovers(m, n.parent);
      }
    }

    lemma PathClosed(m: Entry, n: Entry)
      requires Shape() && n in nodes && m in Path(n) && m.parent != null
      ensures m.parent in Path(n)
      decreases |order| - (n.hi - n.lo)
    {
      assert Up(n);
      if m != n {
        assert Up(n.parent);
        PathClosed(m, n.parent);
      } else {
        assert Path(n)[1] == n.parent;
      }
    }

    lemma CoverOnPath(m: Entry, n: Entry)
      requires Shape() && n in nodes && m in nodes && m.lo <= n.idx < m.hi
      ensures m in Path(n)
      decreases m.hi - m.lo
    {
      assert Down(m);
      assert Down(n);
      if n.idx == m.idx {
        assert Path(n)[0] == m;
      } else {
        var d := if n.idx < m.idx then m.left else m.right;
        assert Down(d);
        CoverOnPath(d, n);
        PathClosed(d, n);
      }
    }

    /* ---- which summaries a change at one node can spoil ---- */

    /** The summaries of m that do not reach towards number i are exact. */
    ghost predicate SideExact(m: Entry, i: int)
      reads this`gaps, m`lo, m`hi, m`idx, m`lmaxgap, m`rmaxgap
    {
      && (i < m.lo || m.hi <= i ==> Exact(m))
      && (m.lo <= i < m.idx ==> RExact(m))
      && (m.idx < i < m.hi ==> LExact(m))
    }

    ghost predicate ExactBut(i: int)
      reads this`gaps, this`nodes, nodes`lo, nodes`hi, nodes`idx, nodes`lmaxgap, nodes`rmaxgap
    {
      forall m {:trigger SideExact(m, i)} | m in nodes :: SideExact(m, i)
    }

    /** The summaries of m that range over none of the gaps a..b are exact. */
    ghost predicate GapExact(m: Entry, a: int, b: int)
      reads this`gaps, m`lo, m`hi, m`idx, m`lmaxgap, m`rmaxgap
    {
      && ((m.lo <= b && a <= m.idx) || LExact(m))
      && ((m.idx < b && a <= m.hi) || RExact(m))
    }

    ghost predicate ExactOffGaps(a: int, b: int)
      reads this`gaps, this`nodes, nodes`lo, nodes`hi, nodes`idx, nodes`lmaxgap, nodes`rmaxgap
    {
      forall m {:trigger GapExact(m, a, b)} | m in nodes :: GapExact(m, a, b)
    }

    lemma ExactIsExactOffGaps(a: int, b: int)
      requires Exacts()
      ensures ExactOffGaps(a, b)
    {
      forall m | m in nodes ensures GapExact(m, a, b) {
        assert Exact(m);
      }
    }

    /** h has no child in gap k, so h is the node that sees gap k directly. */
    ghost predicate Holds(h: Entry, k: int)
      reads h`left, h`right, h`idx
    {
      (h.left == null && h.idx == k) || (h.right == null && h.idx + 1 == k)
    }

    /** A summary ranges over gap k only above the node that holds the gap. */
    lemma SlotOwner(m: Entry, h: Entry, k: int)
      requires Shape() && m in nodes && h in nodes && Holds(h, k) && m.lo <= k <= m.hi
      ensures m.lo <= h.idx < m.hi
    {
      assert Down(m) && Down(h) && Up(root);
      if k == m.hi && k == h.idx {
        RightEnd(m);
        Neighbours(root, k);
      } else if k == m.lo && k == h.idx + 1 {
        LeftEnd(m);
        Neighbours(root, k);
      }
    }

    /** If only gap k is in doubt, only summaries towards its holder are. */
    lemma OffGapIsBut(h: Entry, k: int)
      requires Shape() && h in nodes && Holds(h, k) && ExactOffGaps(k, k)
      ensures ExactBut(h.idx)
    {
      forall m | m in nodes ensures SideExact(m, h.idx) {
        assert GapExact(m, k, k);
        assert Down(m);
        if m.lo <= k <= m.hi {
          SlotOwner(m, h, k);
        }
      }
    }

    lemma ExactIsExactBut(i: int)
      requires Exacts()
      ensures ExactBut(i)
    {
      forall m | m in nodes ensures SideExact(m, i) {
        assert Exact(m);
      }
    }

    /* ---- rotations ---- */

    twostate predicate SameSlice(n: Entry)
      reads n`lo, n`idx, n`hi
    {
      n.lo == old(n.lo) && n.idx == old(n.idx) && n.hi == old(n.hi)
    }

    twostate predicate SameParent(n: Entry)
      reads n`parent
    {
      n.parent == old(n.parent)
    }

    twostate predicate SameKids(n: Entry)
      reads n`left, n`right
    {
      n.left == old(n.left) && n.right == old(n.right)
    }

    /** The fields changed by rb_rotateLeft at x, with y = x->right, p = x->parent and b = y->left. */
    twostate predicate RotationLeft(x: Entry, y: Entry, p: Entry?, b: Entry?)
      requires x in old(nodes) && y in old(nodes) && (p != null ==> p in old(nodes)) && (b != null ==> b in old(nodes))
      reads this`root, this`order, this`nodes, nodes`left, nodes`right, nodes`parent, nodes`lo, nodes`idx, nodes`hi
    {
      && y == old(x.right) && p == old(x.parent) && b == old(y.left)
      && nodes == old(nodes) && order == old(order)
      && x.right == b && x.parent == y && x.left == old(x.left)
      && x.lo == old(x.lo) && x.idx == old(x.idx) && x.hi == old(y.idx)
      && y.left == x && y.parent == p && y.right == old(y.right)
      && y.lo == old(x.lo) && y.idx == old(y.idx) && y.hi == old(y.hi)
      && root == (if p == null then y else old(root))
      && (p != null ==> p.left == if old(p.left) == x then y else old(p.left))
      && (p != null ==> p.right == if old(p.left) == x then old(p.right) else y)
      && (b != null ==> b.parent == x)
      && (forall n {:trigger SameSlice(n)} | n in nodes && n != x && n != y :: SameSlice(n))
      && (forall n {:trigger SameParent(n)} | n in nodes && n != x && n != y && n != b :: SameParent(n))
      && (forall n {:trigger SameKids(n)} | n in nodes && n != x && n != y && n != p :: SameKids(n))
    }

    twostate lemma RotatedLeftDown(x: Entry, new y: Entry, new p: Entry?, new b: Entry?, new n: Entry)
      requires x in old(nodes) && y in old(nodes) && (p != null ==> p in old(nodes)) && (b != null ==> b in old(nodes))
      requires old(Shape()) && RotationLeft(x, y, p, b) && n in nodes
      ensures Down(n)
    {
      assert old(Down(n));
      assert old(Down(x));
      assert old(Down(y));
      assert old(Up(x));
      assert n != x && n != y && n != p ==> SameKids(n);
      assert n != x && n != y ==> SameSlice(n);
      if n.left != null {
        assert n.left != x && n.left != y ==> SameSlice(n.left);
        assert n.left != x && n.left != y && n.left != b ==> SameParent(n.left);
      }
      if n.right != null {
        assert n.right != x && n.right != y ==> SameSlice(n.right);
        assert n.right != x && n.right != y && n.right != b ==> SameParent(n.right);
      }
    }

    twostate lemma RotatedLeftUp(x: Entry, new y: Entry, new p: Entry?, new b: Entry?, new n: Entry)
      requires x in old(nodes) && y in old(nodes) && (p != null ==> p in old(nodes)) && (b != null ==> b in old(nodes))
      requires old(Shape()) && RotationLeft(x, y, p, b) && n in nodes
      ensures Up(n)
    {
      assert old(Up(n));
      assert old(Up(x));
      assert old(Down(x));
      assert old(Down(y));
      assert n != x && n != y ==> SameSlice(n);
      assert n != x && n != y && n != b ==> SameParent(n);
      if n.parent != null {
        assert n.parent != x && n.parent != y ==> SameSlice(n.parent);
        assert n.parent != x && n.parent != y && n.parent != p ==> SameKids(n.parent);
      }
      if p != null { assert old(Down(p)); }
    }

    /** After the surgery of rb_rotateLeft the slices are again in order. */
    twostate lemma RotatedLeft(x: Entry, new y: Entry, new p: Entry?, new b: Entry?)
      requires x in old(nodes) && y in old(nodes) && (p != null ==> p in old(nodes)) && (b != null ==> b in old(nodes))
      requires old(Shape()) && RotationLeft(x, y, p, b)
      ensures Shape()
    {
      assert old(Up(x));
      assert old(Down(x));
      assert old(Down(y));
      forall i | 0 <= i < |order| ensures order[i] in nodes && order[i].idx == i {
        assert order[i] != x && order[i] != y ==> SameSlice(order[i]);
      }
      if root != null && root != x && root != y && root != b { assert SameParent(root); }
      forall n | n in nodes ensures Down(n) {
        RotatedLeftDown(x, y, p, b, n);
      }
      forall n | n in nodes ensures Up(n) {
        RotatedLeftUp(x, y, p, b, n);
      }
    }

    /** The fields changed by rb_rotateRight at x, with y = x->left, p = x->parent and b = y->right. */
    twostate predicate RotationRight(x: Entry, y: Entry, p: Entry?, b: Entry?)
      requires x in old(nodes) && y in old(nodes) && (p != null ==> p in old(nodes)) && (b != null ==> b in old(nodes))
      reads this`root, this`order, this`nodes, nodes`right, nodes`left, nodes`parent, nodes`lo, nodes`idx, nodes`hi
    {
      && y == old(x.left) && p == old(x.parent) && b == old(y.right)
      && nodes == old(nodes) && order == old(order)
      && x.left == b && x.parent == y && x.right == old(x.right)
      && x.lo == old(y.idx) + 1 && x.idx == old(x.idx) && x.hi == old(x.hi)
      && y.right == x && y.parent == p && y.left == old(y.left)
      && y.lo == old(y.lo) && y.idx == old(y.idx) && y.hi == old(x.hi)
      && root == (if p == null then y else old(root))
      && (p != null ==> p.right == if old(p.right) == x then y else old(p.right))
      && (p != null ==> p.left == if old(p.right) == x then old(p.left) else y)
      && (b != null ==> b.parent == x)
      && (forall n {:trigger SameSlice(n)} | n in nodes && n != x && n != y :: SameSlice(n))
      && (forall n {:trigger SameParent(n)} | n in nodes && n != x && n != y && n != b :: SameParent(n))
      && (forall n {:trigger SameKids(n)} | n in nodes && n != x && n != y && n != p :: SameKids(n))
    }

    twostate lemma RotatedRightDown(x: Entry, new y: Entry, new p: Entry?, new b: Entry?, new n: Entry)
      requires x in old(nodes) && y in old(nodes) && (p != null ==> p in old(nodes)) && (b != null ==> b in old(nodes))
      requires old(Shape()) && RotationRight(x, y, p, b) && n in nodes
      ensures Down(n)
    {
      assert old(Down(n));
      assert old(Down(x));
      assert old(Down(y));
      assert old(Up(x));
      assert n != x && n != y && n != p ==> SameKids(n);
      assert n != x && n != y ==> SameSlice(n);
      if n.right != null {
        assert n.right != x && n.right != y ==> SameSlice(n.right);
        assert n.right != x && n.right != y && n.right != b ==> SameParent(n.right);
      }
      if n.left != null {
        assert n.left != x && n.left != y ==> SameSlice(n.left);
        assert n.left != x && n.left != y && n.left != b ==> SameParent(n.left);
      }
    }

    twostate lemma RotatedRightUp(x: Entry, new y: Entry, new p: Entry?, new b: Entry?, new n: Entry)
      requires x in old(nodes) && y in old(nodes) && (p != null ==> p in old(nodes)) && (b != null ==> b in old(nodes))
      requires old(Shape()) && RotationRight(x, y, p, b) && n in nodes
      ensures Up(n)
    {
      assert old(Up(n));
      assert old(Up(x));
      assert old(Down(x));
      assert old(Down(y));
      assert n != x && n != y ==> SameSlice(n);
      assert n != x && n != y && n != b ==> SameParent(n);
      if n.parent != null {
        assert n.parent != x && n.parent != y ==> SameSlice(n.parent);
        assert n.parent != x && n.parent != y && n.parent != p ==> SameKids(n.parent);
      }
      if p != null { assert old(Down(p)); }
    }

    /** After the surgery of rb_rotateRight the slices are again in order. */
    twostate lemma RotatedRight(x: Entry, new y: Entry, new p: Entry?, new b: Entry?)
      requires x in old(nodes) && y in old(nodes) && (p != null ==> p in old(nodes)) && (b != null ==> b in old(nodes))
      requires old(Shape()) && RotationRight(x, y, p, b)
      ensures Shape()
    {
      assert old(Up(x));
      assert old(Down(x));
      assert old(Down(y));
      forall i | 0 <= i < |order| ensures order[i] in nodes && order[i].idx == i {
        assert order[i] != x && order[i] != y ==> SameSlice(order[i]);
      }
      if root != null && root != x && root != y && root != b { assert SameParent(root); }
      forall n | n in nodes ensures Down(n) {
        RotatedRightDown(x, y, p, b, n);
      }
      forall n | n in nodes ensures Up(n) {
        RotatedRightUp(x, y, p, b, n);
      }
    }

    /* ---- colours ---- */

    ghost function Bh(n: Entry?): int
      requires n == null || n in nodes
      reads this`nodes, nodes`bh
    {
      if n == null then 0 else n.bh
    }

    ghost function LBh(n: Entry, d: Debt): int
      requires n in nodes && (n.left == null || n.left in nodes)
      reads this`nodes, nodes`left, nodes`bh
    {
      Bh(n.left) + if d == Owed(n, true) then 1 else 0
    }

    ghost function RBh(n: Entry, d: Debt): int
      requires n in nodes && (n.right == null || n.right in nodes)
      reads this`nodes, nodes`right, nodes`bh
    {
      Bh(n.right) + if d == Owed(n, false) then 1 else 0
    }

    /** Every path down from n passes equally many black nodes; bh counts them, n included. */
    ghost predicate Balanced(n: Entry, d: Debt)
      requires n in nodes
      reads this`nodes, nodes`left, nodes`right, nodes`color, nodes`bh
    {
      && (n.left == null || n.left in nodes) && (n.right == null || n.right in nodes)
      && LBh(n, d) == RBh(n, d) && n.bh == LBh(n, d) + if n.color == Black then 1 else 0
    }

    ghost predicate Blacks(d: Debt)
      reads this`nodes, nodes`left, nodes`right, nodes`color, nodes`bh
    {
      forall n {:trigger Balanced(n, d)} | n in nodes :: Balanced(n, d)
    }

    /** A red node has no red parent. */
    ghost predicate RedOk(n: Entry)
      requires n in nodes
      reads this`nodes, nodes`color, nodes`parent
    {
      n.color == Red && n.parent != null ==> n.parent in nodes && n.parent.color == Black
    }

    /** Every node but z is RedOk. */
    ghost predicate Reds(z: Entry?)
      reads this`nodes, nodes`color, nodes`parent
    {
      forall n {:trigger RedOk(n)} | n in nodes && n != z :: RedOk(n)
    }

    /** The tree is a red-black tree and every gap summary is exact. */
    ghost predicate RedBlack()
      reads this`root, this`order, this`nodes, this`gaps
      reads nodes`left, nodes`right, nodes`parent, nodes`lo, nodes`idx, nodes`hi, nodes`color, nodes`bh, nodes`lmaxgap
      reads nodes`rmaxgap
    {
      && Shape() && Blacks(Settled) && Reds(null) && Exacts()
      && (root != null ==> root in nodes && root.color == Black)
    }

    twostate predicate SamePaint(n: Entry)
      reads n`color, n`bh
    {
      n.color == old(n.color) && n.bh == old(n.bh)
    }

    /** After a rotation it is enough to look at the colours and counts of its two nodes. */
    twostate lemma BalanceLeft(new x: Entry, new y: Entry, new p: Entry?, new b: Entry?, d: Debt)
      requires x in old(nodes) && y in old(nodes) && (p != null ==> p in old(nodes)) && (b != null ==> b in old(nodes))
      requires old(Shape()) && RotationLeft(x, y, p, b)
      requires forall n {:trigger old(Balanced(n, d))} | n in nodes && n != x && n != y :: old(Balanced(n, d))
      requires forall n {:trigger SamePaint(n)} | n in nodes && n != x && n != y :: SamePaint(n)
      requires Balanced(x, d) && Balanced(y, d) && y.bh == old(x.bh)
      ensures Blacks(d)
    {
      assert old(Up(x));
      assert old(Down(x));
      assert old(Down(y));
      forall n | n in nodes ensures Balanced(n, d) {
        if n != x && n != y {
          assert old(Balanced(n, d));
          assert old(Down(n));
          assert n != p ==> SameKids(n);
          assert SamePaint(n);
          if n.left != null && n.left != y { assert SamePaint(n.left); }
          if n.right != null && n.right != y { assert SamePaint(n.right); }
        }
      }
    }

    twostate lemma RedsLeft(x: Entry, new y: Entry, new p: Entry?, new b: Entry?, new z: Entry?)
      requires x in old(nodes) && y in old(nodes) && (p != null ==> p in old(nodes)) && (b != null ==> b in old(nodes))
      requires old(Shape()) && RotationLeft(x, y, p, b)
      requires forall n {:trigger old(RedOk(n))} | n in nodes && n != x && n != y && n != b && n != z :: old(RedOk(n))
      requires forall n | n in nodes :: n.color == old(n.color)
      requires (x != z ==> RedOk(x)) && (y != z ==> RedOk(y)) && (b != null && b != z ==> RedOk(b))
      ensures Reds(z)
    {
      forall n | n in nodes && n != z ensures RedOk(n) {
        if n != x && n != y && n != b {
          assert old(RedOk(n));
          assert SameParent(n);
        }
      }
    }

    /** After a rotation it is enough to look at the colours and counts of its two nodes. */
    twostate lemma BalanceRight(new x: Entry, new y: Entry, new p: Entry?, new b: Entry?, d: Debt)
      requires x in old(nodes) && y in old(nodes) && (p != null ==> p in old(nodes)) && (b != null ==> b in old(nodes))
      requires old(Shape()) && RotationRight(x, y, p, b)
      requires forall n {:trigger old(Balanced(n, d))} | n in nodes && n != x && n != y :: old(Balanced(n, d))
      requires forall n {:trigger SamePaint(n)} | n in nodes && n != x && n != y :: SamePaint(n)
      requires Balanced(x, d) && Balanced(y, d) && y.bh == old(x.bh)
      ensures Blacks(d)
    {
      assert old(Up(x));
      assert old(Down(x));
      assert old(Down(y));
      forall n | n in nodes ensures Balanced(n, d) {
        if n != x && n != y {
          assert old(Balanced(n, d));
          assert old(Down(n));
          assert n != p ==> SameKids(n);
          assert SamePaint(n);
          if n.right != null && n.right != y { assert SamePaint(n.right); }
          if n.left != null && n.left != y { assert SamePaint(n.left); }
        }
      }
    }

    twostate lemma RedsRight(x: Entry, new y: Entry, new p: Entry?, new b: Entry?, new z: Entry?)
      requires x in old(nodes) && y in old(nodes) && (p != null ==> p in old(nodes)) && (b != null ==> b in old(nodes))
      requires old(Shape()) && RotationRight(x, y, p, b)
      requires forall n {:trigger old(RedOk(n))} | n in nodes && n != x && n != y && n != b && n != z :: old(RedOk(n))
      requires forall n | n in nodes :: n.color == old(n.color)
      requires (x != z ==> RedOk(x)) && (y != z ==> RedOk(y)) && (b != null && b != z ==> RedOk(b))
      ensures Reds(z)
    {
      forall n | n in nodes && n != z ensures RedOk(n) {
        if n != x && n != y && n != b {
          assert old(RedOk(n));
          assert SameParent(n);
        }
      }
    }
  }

  ghost function Just(n: Entry?): set<Entry> { if n == null then {} else {n} }
}
