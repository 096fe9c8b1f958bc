/** Hanging a new leaf into the tree (the middle part of lib_rbInsert). */
module RbGrow {
  import opened GapTree
  import opened RbAugment

  /** Number i after a new node has been given number k. */
  function Past(i: int, k: int): int {
    if i < k then i else i + 1
  }

  /** The start of a slice after number k has been given out: a slice starting at k takes the new node in. */
  function PastLo(i: int, k: int): int {
    if i <= k then i else i + 1
  }

  /** Renumber the nodes to make room for number k. */
  ghost method OpenSlot(nodes: set<Entry>, k: int)
    modifies nodes`lo, nodes`idx, nodes`hi
    ensures forall n | n in nodes ::
      n.lo == PastLo(old(n.lo), k) && n.idx == Past(old(n.idx), k) && n.hi == Past(old(n.hi), k)
  {
    forall n | n in nodes { n.lo := PastLo(n.lo, k); }
    forall n | n in nodes { n.idx := Past(n.idx, k); }
    forall n | n in nodes { n.hi := Past(n.hi, k); }
  }

  twostate predicate Moved(n: Entry, k: int)
    reads n`lo, n`idx, n`hi
  {
    n.lo == PastLo(old(n.lo), k) && n.idx == Past(old(n.idx), k) && n.hi == Past(old(n.hi), k)
  }

  /** z became the left (or right) child of y and number k of the order. */
  twostate predicate Grown(t: Tree, z: Entry, y: Entry?, left: bool, k: int)
    reads t, t.nodes
  {
    && z !in old(t.nodes) && t.nodes == old(t.nodes) + {z} && (y != null ==> y in old(t.nodes))
    && 0 <= k <= |old(t.order)| && t.order == old(t.order)[..k] + [z] + old(t.order)[k..]
    && z.left == null && z.right == null && z.parent == y && z.lo == k && z.idx == k && z.hi == k + 1
    && (y == null ==> old(t.root) == null && t.root == z)
    && (y != null ==> t.root == old(t.root))
    && (y != null && left ==> old(y.left) == null && old(y.idx) == k && y.left == z && y.right == old(y.right))
    && (y != null && !left ==> old(y.right) == null && old(y.idx) + 1 == k && y.right == z && y.left == old(y.left))
    && (forall n {:trigger Moved(n, k)} | n in old(t.nodes) :: Moved(n, k))
    && (forall n {:trigger t.SameParent(n)} | n in old(t.nodes) :: t.SameParent(n))
    && (forall n {:trigger t.SameKids(n)} | n in old(t.nodes) && n != y :: t.SameKids(n))
  }

  twostate predicate OneRoom(t: Tree, k: int)
    reads t, t.nodes
  {
    0 < k < |old(t.order)| ==> (old(t.order[k - 1].right) == null <==> old(t.order[k].left) != null)
  }

  twostate lemma GrownDown(t: Tree, new z: Entry, new y: Entry?, new left: bool, new k: int, new n: Entry)
    requires z in t.nodes && (y != null ==> y in old(t.nodes)) && old(allocated(z))
    requires old(t.Shape()) && Grown(t, z, y, left, k) && OneRoom(t, k) && n in t.nodes
    ensures t.Down(n)
  {
    if n != z {
      assert old(t.Down(n));
      assert Moved(n, k);
      assert n != y ==> t.SameKids(n);
      if y != null {
        assert old(t.Down(y));
        assert Moved(y, k);
      }
      assert old(t.root) != null;
      if n.left != null && n.left != z { assert Moved(n.left, k); assert t.SameParent(n.left); }
      if n.right != null && n.right != z { assert Moved(n.right, k); assert t.SameParent(n.right); }
    }
  }

  twostate lemma GrownUp(t: Tree, new z: Entry, new y: Entry?, new left: bool, new k: int, new n: Entry)
    requires z in t.nodes && (y != null ==> y in old(t.nodes)) && old(allocated(z))
    requires old(t.Shape()) && Grown(t, z, y, left, k) && n in t.nodes
    ensures t.Up(n)
  {
    if y != null {
      assert old(t.Down(y));
      assert Moved(y, k);
    }
    if n != z {
      assert old(t.Up(n));
      assert Moved(n, k);
      assert t.SameParent(n);
      if n.parent != null {
        assert Moved(n.parent, k);
        assert old(t.Down(n.parent));
        assert n.parent != y ==> t.SameKids(n.parent);
      }
    }
  }

  twostate lemma GrownShape(t: Tree, new z: Entry, new y: Entry?, new left: bool, new k: int)
    requires z in t.nodes && (y != null ==> y in old(t.nodes)) && old(allocated(z))
    requires old(t.Shape()) && Grown(t, z, y, left, k) && OneRoom(t, k)
    ensures t.Shape()
  {
    forall i | 0 <= i < |t.order| ensures t.order[i] in t.nodes && t.order[i].idx == i {
      if i != k {
        var m := old(t.order)[if i < k then i else i - 1];
        assert t.order[i] == m;
        assert Moved(m, k);
      }
    }
    if old(t.root) != null { assert t.SameParent(old(t.root)); }
    forall n | n in t.nodes ensures t.Down(n) {
      GrownDown(t, z, y, left, k, n);
    }
    forall n | n in t.nodes ensures t.Up(n) {
      GrownUp(t, z, y, left, k, n);
    }
  }

  /** The gaps around the new node replace gap k. */
  ghost predicate GapsSplit(gaps: seq<nat>, gaps': seq<nat>, k: int)
  {
    && 0 <= k < |gaps| && |gaps'| == |gaps| + 1
    && (forall x | 0 <= x < k :: gaps'[x] == gaps[x])
    && (forall x | k < x < |gaps| :: gaps'[x + 1] == gaps[x])
  }

  /** The largest gap of a stretch clear of the split gap stays what it was. */
  lemma SplitKeeps(g: seq<nat>, g': seq<nat>, k: int, i: int, j: int)
    requires GapsSplit(g, g', k) && 0 <= i <= j < |g| && (j < k || k < i)
    ensures var d := if j < k then 0 else 1; MaxGap(g', i + d, j + d) == MaxGap(g, i, j)
  {
    MaxGapSame(g, i, j, g', if j < k then 0 else 1);
  }

  /** Only summaries towards the new node can be stale. */
  twostate lemma GrownSide(t: Tree, new k: int, new m: Entry)
    requires m in old(t.nodes) && GapsSplit(old(t.gaps), t.gaps, k)
    requires Moved(m, k) && 0 <= old(m.lo) <= old(m.idx) < old(m.hi) < |old(t.gaps)|
    requires old(t.GapExact(m, k, k)) && m.lmaxgap == old(m.lmaxgap) && m.rmaxgap == old(m.rmaxgap)
    ensures t.SideExact(m, k)
  {
    var lo, idx, hi := old(m.lo), old(m.idx), old(m.hi);
    if idx < k || k < lo { SplitKeeps(old(t.gaps), t.gaps, k, lo, idx); }
    if hi < k || k <= idx { SplitKeeps(old(t.gaps), t.gaps, k, idx + 1, hi); }
  }

  twostate lemma GrownKeyed(t: Tree, new z: Entry, new k: int)
    requires z in t.nodes && 0 <= k <= |old(t.order)| && t.order == old(t.order)[..k] + [z] + old(t.order)[k..]
    requires old(Keyed(t)) && GapsSplit(old(t.gaps), t.gaps, k) && t.gaps[k] == t.GapAt(k)
    requires t.gaps[k + 1] == t.GapAt(k + 1)
    requires forall i | 0 <= i < |old(t.order)| ::
      old(t.order)[i].vaddr == old(t.order[i].vaddr) && old(t.order)[i].size == old(t.order[i].size)
    requires forall i | 0 <= i < k :: old(t.order)[i].vaddr < z.vaddr
    requires forall i | k <= i < |old(t.order)| :: z.vaddr < old(t.order)[i].vaddr
    ensures Keyed(t)
  {
    var o := old(t.order);
    assert forall i | 0 <= i < k :: t.order[i] == o[i];
    assert forall i | k < i < |t.order| :: t.order[i] == o[i - 1];
    forall x | 0 <= x <= |t.order| ensures t.gaps[x] == t.GapAt(x) {
      if x < k {
        assert old(t.gaps[x] == t.GapAt(x));
      } else if x > k + 1 {
        assert old(t.gaps)[x - 1] == old(t.GapAt(x - 1));
        assert t.gaps[(x - 1) + 1] == old(t.gaps)[x - 1];
      }
    }
    forall i, j | 0 <= i < j < |t.order| ensures Starts(t.order, i, j) {
      if i != k && j != k {
        assert old(Starts(t.order, if i < k then i else i - 1, if j < k then j else j - 1));
      }
    }
  }

  /** The assignments with which lib_rbInsert hangs z under y. */
  method Link(t: Tree, z: Entry, y: Entry?, left: bool)
    requires y != z
    modifies t`root, z`left, z`right, z`parent, z`color, Just(y)`left, Just(y)`right
    ensures z.left == null && z.right == null && z.parent == y && z.color == Red
    ensures t.root == if y == null then z else old(t.root)
    ensures y != null ==> y.left == (if left then z else old(y.left)) && y.right == (if left then old(y.right) else z)
  {
    z.parent := y;
    if y == null {
      t.root := z;
    } else if left {
      y.left := z;
    } else {
      y.right := z;
    }
    z.left := null;
    z.right := null;
    z.color := Red;
  }

  /** The ghost numbers that go with a new node number k. */
  ghost method Enrol(t: Tree, z: Entry, k: int)
    requires z !in t.nodes && 0 <= k <= |t.order| && |t.gaps| == |t.order| + 1
    modifies t`order, t`nodes, t`gaps, t.nodes`lo, t.nodes`idx, t.nodes`hi, z`lo, z`idx, z`hi, z`bh
    ensures t.nodes == old(t.nodes) + {z} && t.order == old(t.order)[..k] + [z] + old(t.order)[k..]
    ensures z.lo == k && z.idx == k && z.hi == k + 1 && z.bh == 0
    ensures forall n | n in old(t.nodes) ::
      n.lo == PastLo(old(n.lo), k) && n.idx == Past(old(n.idx), k) && n.hi == Past(old(n.hi), k)
    ensures GapsSplit(old(t.gaps), t.gaps, k) && t.gaps[k] == t.GapAt(k) && t.gaps[k + 1] == t.GapAt(k + 1)
  {
    OpenSlot(t.nodes, k);
    z.lo, z.idx, z.hi, z.bh := k, k, k + 1, 0;
    t.nodes := t.nodes + {z};
    t.order := t.order[..k] + [z] + t.order[k..];
    t.gaps := t.gaps[..k] + [t.GapAt(k), t.GapAt(k + 1)] + t.gaps[k + 1..];
  }

  /** Link z and number it. */
  method Attach(t: Tree, z: Entry, y: Entry?, left: bool, ghost k: int)
    requires z !in t.nodes && (y != null ==> y in t.nodes) && 0 <= k <= |t.order| && |t.gaps| == |t.order| + 1
    requires y == null ==> t.root == null
    requires y != null && left ==> y.left == null && y.idx == k
    requires y != null && !left ==> y.right == null && y.idx + 1 == k
    modifies t`root, t`order, t`nodes, t`gaps, t.nodes`lo, t.nodes`idx, t.nodes`hi, z`lo, z`idx, z`hi, z`bh
    modifies z`left, z`right, z`parent, z`color, Just(y)`left, Just(y)`right
    ensures Grown(t, z, y, left, k) && z.color == Red && z.bh == 0
    ensures GapsSplit(old(t.gaps), t.gaps, k) && t.gaps[k] == t.GapAt(k) && t.gaps[k + 1] == t.GapAt(k + 1)
  {
    Link(t, z, y, left);
    Enrol(t, z, k);
  }

  twostate lemma GrownSides(t: Tree, new z: Entry, new y: Entry?, new left: bool, new k: int)
    requires z in t.nodes && (y != null ==> y in old(t.nodes)) && old(allocated(z))
    requires old(t.Shape()) && Grown(t, z, y, left, k) && GapsSplit(old(t.gaps), t.gaps, k)
    requires |old(t.gaps)| == |old(t.order)| + 1
    requires old(t.ExactOffGaps(k, k))
    requires forall m | m in old(t.nodes) :: m.lmaxgap == old(m.lmaxgap) && m.rmaxgap == old(m.rmaxgap)
    ensures t.ExactBut(k)
  {
    forall m | m in t.nodes ensures t.SideExact(m, k) {
      if m != z {
        assert old(t.GapExact(m, k, k));
        assert old(t.Down(m));
        assert Moved(m, k);
        GrownSide(t, k, m);
      }
    }
  }

  /** Everything up to the augmentation: the tree is in order, only summaries towards z are stale. */
  method Hang(t: Tree, z: Entry, y: Entry?, left: bool, ghost k: int)
    requires t.Shape() && Keyed(t) && t.ExactOffGaps(k, k) && z !in t.nodes && (y != null ==> y in t.nodes)
    requires 0 <= k <= |t.order|
    requires y == null ==> t.root == null && k == 0
    requires y != null && left ==> y.left == null && y.idx == k
    requires y != null && !left ==> y.right == null && y.idx + 1 == k
    requires forall i | 0 <= i < k :: t.order[i].vaddr < z.vaddr
    requires forall i | k <= i < |t.order| :: z.vaddr < t.order[i].vaddr
    modifies t`root, t`order, t`nodes, t`gaps, t.nodes`lo, t.nodes`idx, t.nodes`hi, z`lo, z`idx, z`hi, z`bh
    modifies z`left, z`right, z`parent, z`color, Just(y)`left, Just(y)`right
    ensures t.Shape() && Keyed(t) && Grown(t, z, y, left, k) && t.ExactBut(k)
    ensures z.color == Red && z.bh == 0
  {
    if 0 < k < |t.order| {
      assert t.Up(t.root);
      t.Neighbours(t.root, k);
    }
    Attach(t, z, y, left, k);
    GrownShape(t, z, y, left, k);
    GrownKeyed(t, z, k);
    GrownSides(t, z, y, left, k);
  }

  /** A red leaf changes no black count and breaks no rule but perhaps its own. */
  twostate lemma GrownColors(t: Tree, new z: Entry, new y: Entry?, new left: bool, new k: int)
    requires z in t.nodes && (y != null ==> y in old(t.nodes)) && old(allocated(z))
    requires old(t.Shape()) && t.Shape() && Grown(t, z, y, left, k) && z.color == Red && z.bh == 0
    requires old(t.Blacks(Settled)) && old(t.Reds(null))
    requires forall n {:trigger t.SamePaint(n)} | n in old(t.nodes) :: t.SamePaint(n)
    ensures t.Blacks(Settled) && t.Reds(z)
  {
    forall n | n in t.nodes ensures t.Balanced(n, Settled) {
      if n != z {
        assert old(t.Balanced(n, Settled));
        assert n != y ==> t.SameKids(n);
        assert t.SamePaint(n);
        assert t.Down(n);
        if n.left != null && n.left != z { assert t.SamePaint(n.left); }
        if n.right != null && n.right != z { assert t.SamePaint(n.right); }
      }
    }
    forall n | n in t.nodes && n != z ensures t.RedOk(n) {
      assert old(t.RedOk(n));
      assert t.SameParent(n);
      assert t.SamePaint(n);
      if n.parent != null { assert old(t.Up(n)); assert t.SamePaint(n.parent); }
    }
  }
}
