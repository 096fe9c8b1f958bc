/** Port ids (proc/ports.c): taken from the lowest gap, compared by signed subtraction. */
module PortAlloc {
  import opened Kernel
  import opened GapTree
  import opened RbAugment
  import opened IdSearch

  /** A red-black tree of port ids, with exact summaries. */
  ghost predicate Ports(t: Tree)
    reads t`root, t`order, t`nodes, t`gaps, t.order`vaddr, t.order`size, t.nodes`left, t.nodes`right, t.nodes`parent
    reads t.nodes`lo, t.nodes`idx, t.nodes`hi, t.nodes`color, t.nodes`bh, t.nodes`lmaxgap, t.nodes`rmaxgap
  {
    && t.RedBlack() && Keyed(t) && t.Disjoint() && t.start == 0 && t.stop == WORD - 1
    && forall i | 0 <= i < |t.order| :: t.order[i].vaddr < t.stop && t.order[i].size == 1
  }

  /** Below gap k every id is used, so entry i is number i. */
  ghost predicate Packed(t: Tree, k: int)
    requires k <= |t.order|
    reads t`order, t.order`vaddr
  {
    forall i | 0 <= i < k :: t.order[i].vaddr == i
  }

  /** Up to gap k there is no room. */
  ghost predicate Tight(t: Tree, k: int)
    reads t`gaps
  {
    k <= |t.gaps| && forall j | 0 <= j < k :: t.gaps[j] == 0
  }

  lemma PortGap(t: Tree, k: int)
    requires Ports(t) && 0 <= k <= |t.order|
    ensures |t.gaps| == |t.order| + 1
    ensures k < |t.order| ==> IdLo(t, k) <= t.order[k].vaddr && t.gaps[k] == t.order[k].vaddr - IdLo(t, k)
    ensures k == |t.order| ==> t.gaps[k] == t.stop - IdLo(t, k)
  {
    assert 0 < k < |t.order| ==> Ends(t.order, k - 1, k);
    assert t.gaps[k] == t.GapAt(k);
  }

  lemma {:induction false} TightIsPacked(t: Tree, k: int)
    requires Ports(t) && 0 <= k <= |t.order| && Tight(t, k)
    ensures Packed(t, k)
    decreases k
  {
    if k > 0 {
      TightIsPacked(t, k - 1);
      PortGap(t, k - 1);
    }
  }

  lemma TightSlice(t: Tree, i: int, j: int)
    requires Ports(t) && 0 <= i <= j < |t.gaps| && Tight(t, i) && MaxGap(t.gaps, i, j) == 0
    ensures Tight(t, j + 1)
  {
    var m := MaxGapOf(t.gaps, i, j);
  }

  /** The search of lib_rbFindEx with ports_gapcmp: the node at the lowest gap with room. */
  method LowestRoom(t: Tree) returns (p: Entry, ghost k: int)
    requires Ports(t) && t.root != null
    ensures p in t.nodes && 0 <= k <= |t.order| && |t.gaps| == |t.order| + 1 && Tight(t, k)
    ensures p.lmaxgap > 0 ==> k == p.idx && t.gaps[k] > 0
    ensures p.lmaxgap == 0 && p.rmaxgap > 0 ==> k == p.idx + 1 && t.gaps[k] > 0
    ensures p.lmaxgap == 0 && p.rmaxgap == 0 ==> Tight(t, |t.order| + 1)
  {
    p := t.root;
    assert t.Up(p);
    PortGap(t, 0);
    while true
      invariant p in t.nodes && 0 <= p.lo < p.hi <= |t.order| && Tight(t, p.lo)
      invariant p == t.root || p.lmaxgap > 0 || p.rmaxgap > 0
      decreases p.hi - p.lo
    {
      LookAt(t, p);
      if p.lmaxgap > 0 {
        if p.left == null {
          return p, p.idx;
        }
        p := p.left;
      } else {
        if p.rmaxgap == 0 {
          return p, p.hi;
        }
        if p.right == null {
          return p, p.idx + 1;
        }
        p := p.right;
      }
    }
  }

  /** What the search learns at p: there is room to the left, or none there but some to the right, or none at all. */
  lemma LookAt(t: Tree, p: Entry)
    requires Ports(t) && p in t.nodes && 0 <= p.lo < p.hi <= |t.order| && Tight(t, p.lo)
    requires p == t.root || p.lmaxgap > 0 || p.rmaxgap > 0
    ensures |t.gaps| == |t.order| + 1 && 0 <= p.idx < |t.order|
    ensures p.lmaxgap > 0 && p.left == null ==> Tight(t, p.idx) && t.gaps[p.idx] > 0
    ensures p.lmaxgap > 0 && p.left != null ==> Deeper(t, p, p.left)
    ensures p.lmaxgap == 0 && p.rmaxgap == 0 ==> Tight(t, |t.order| + 1) && Tight(t, p.hi)
    ensures p.lmaxgap == 0 && p.rmaxgap > 0 && p.right == null ==> Tight(t, p.idx + 1) && t.gaps[p.idx + 1] > 0
    ensures p.lmaxgap == 0 && p.rmaxgap > 0 && p.right != null ==> Deeper(t, p, p.right)
  {
    assert t.Down(p) && t.Exact(p);
    if p.lmaxgap > 0 {
      if p.left != null { Inner(t, p.left); }
    } else {
      TightSlice(t, p.lo, p.idx);
      if p.rmaxgap == 0 {
        TightSlice(t, p.idx + 1, p.hi);
        assert t.Up(t.root);
      } else if p.right != null {
        Inner(t, p.right);
      }
    }
  }

  /** The search goes on below p, with all gaps before c tight and room below c. */
  ghost predicate Deeper(t: Tree, p: Entry, c: Entry)
    reads t, t.nodes, t.order, p, c
  {
    && c in t.nodes && 0 <= c.lo < c.hi <= |t.order| && Tight(t, c.lo) && (c.lmaxgap > 0 || c.rmaxgap > 0)
    && c.hi - c.lo < p.hi - p.lo
  }

  /** What the parent's summary says about a child. */
  lemma Inner(t: Tree, c: Entry)
    requires Ports(t) && c in t.nodes && c.parent != null && c.parent in t.nodes
    requires if c == c.parent.left then c.parent.lmaxgap > 0 else c == c.parent.right && c.parent.rmaxgap > 0
    ensures c.lmaxgap > 0 || c.rmaxgap > 0
    ensures 0 <= c.lo < c.hi <= |t.order|
  {
    assert t.Down(c) && t.Exact(c) && t.Down(c.parent) && t.Exact(c.parent);
    MaxGapSplit(t.gaps, c.lo, c.idx, c.hi);
  }

  /** id is at an end of gap k, and every id below that gap is used. */
  ghost predicate Lowest(t: Tree, k: int, id: nat)
    reads t`order, t.order`vaddr
  {
    && 0 <= k <= |t.order| && IdLo(t, k) <= id && (k < |t.order| ==> id < t.order[k].vaddr)
    && Full(t, 0, IdLo(t, k)) && (id == IdLo(t, k) || (k < |t.order| && id == t.order[k].vaddr - 1))
  }

  lemma PackedIsFull(t: Tree, k: int)
    requires 0 <= k <= |t.order| && Packed(t, k)
    ensures Full(t, 0, IdLo(t, k)) && IdLo(t, k) == k
  {
    forall w: nat | 0 <= w < k ensures Used(t, w) { assert t.order[w].vaddr == w; }
  }

  /** _proc_portAlloc: an unused id, from the lowest gap. */
  method PortId(t: Tree) returns (err: int, id: nat)
    requires Ports(t)
    ensures err == EOK ==> !Used(t, id) && id < t.stop
    ensures err == EOK ==> Below(t, id)
    ensures err == EOK ==> exists k {:trigger Lowest(t, k, id)} :: Lowest(t, k, id)
    ensures err != EOK ==> err == ENOMEM && Full(t, 0, t.stop)
  {
    if t.root == null {
      assert Lowest(t, 0, 0);
      return EOK, 0;
    }
    var p; ghost var k;
    p, k := LowestRoom(t);
    AtLowest(t, p, k);
    if p.lmaxgap > 0 {
      return EOK, p.vaddr - 1;
    } else if p.rmaxgap > 0 {
      return EOK, p.vaddr + 1;
    } else {
      return ENOMEM, 0;
    }
  }

  ghost predicate Below(t: Tree, id: nat)
    reads t`order, t.order`vaddr
  {
    id <= |t.order| || exists i :: 0 <= i < |t.order| && id < t.order[i].vaddr
  }

  /** What the node the search ends at tells. */
  lemma AtLowest(t: Tree, p: Entry, k: int)
    requires Ports(t) && p in t.nodes && 0 <= k <= |t.order| && |t.gaps| == |t.order| + 1 && Tight(t, k)
    requires p.lmaxgap > 0 ==> k == p.idx && t.gaps[k] > 0
    requires p.lmaxgap == 0 && p.rmaxgap > 0 ==> k == p.idx + 1 && t.gaps[k] > 0
    requires p.lmaxgap == 0 && p.rmaxgap == 0 ==> Tight(t, |t.order| + 1)
    ensures p.lmaxgap > 0 ==> p.vaddr > 0 && !Used(t, p.vaddr - 1) && Lowest(t, k, p.vaddr - 1)
    ensures p.lmaxgap > 0 ==> p.vaddr - 1 < t.stop && Below(t, p.vaddr - 1)
    ensures p.lmaxgap == 0 && p.rmaxgap > 0 ==> !Used(t, p.vaddr + 1) && Lowest(t, k, p.vaddr + 1)
    ensures p.lmaxgap == 0 && p.rmaxgap > 0 ==> p.vaddr + 1 < t.stop && Below(t, p.vaddr + 1)
    ensures p.lmaxgap == 0 && p.rmaxgap == 0 ==> Full(t, 0, t.stop)
  {
    assert t.Down(p);
    PortGap(t, k);
    TightIsPacked(t, k);
    PackedIsFull(t, k);
    if p.lmaxgap > 0 {
      Fresh(t, p.vaddr - 1, k);
    } else if p.rmaxgap > 0 {
      t.Around(p.idx);
      if k < |t.order| { Fresh(t, p.vaddr + 1, k); }
    } else {
      TightIsPacked(t, |t.order|);
      PortGap(t, |t.order|);
      PackedIsFull(t, |t.order|);
    }
  }

  /** An id inside gap k is unused. */
  lemma Fresh(t: Tree, id: nat, k: int)
    requires Ports(t) && 0 <= k < |t.order| && IdLo(t, k) <= id < t.order[k].vaddr
    ensures !Used(t, id)
  {
    forall i | 0 <= i < |t.order| ensures t.order[i].vaddr != id {
      if i < k - 1 { assert Starts(t.order, i, k - 1); }
      if i > k { assert Starts(t.order, k, i); }
    }
  }

  /** All ids, and the number of ports, are within the bound. */
  ghost predicate Under(t: Tree, peak: nat)
    reads t`order, t.order`vaddr
  {
    |t.order| <= peak && forall i | 0 <= i < |t.order| :: t.order[i].vaddr < peak
  }

  /** ports_cmp: the difference of two u32, read as an int. */
  function Compare32(a: nat, b: nat): int
    requires a < WORD && b < WORD
  {
    var d := (a - b) % WORD;
    if d < WORD / 2 then d else d - WORD
  }

  /** It orders ids that are less than half the range apart, and only those. */
  lemma CompareIsOrder(a: nat, b: nat)
    requires a < WORD && b < WORD
    ensures (Compare32(a, b) < 0 <==> a < b) && (Compare32(a, b) > 0 <==> a > b) <==>
      -0x8000_0000 <= a - b < 0x8000_0000
  {
    if a < b { assert (a - b) % WORD == a - b + WORD; } else { assert (a - b) % WORD == a - b; }
  }
}
