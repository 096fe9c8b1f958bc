/** The table of ports over its life (proc/ports.c). */
module PortTable {
  import opened Kernel
  import opened GapTree
  import opened RbInsert
  import opened RbRemove
  import opened IdSearch
  import opened IdAlloc
  import opened PortAlloc

  const HALF: nat := 0x8000_0000

  /** The ids of t are those it had, but for one. */
  twostate predicate Lost(t: Tree, new id: nat)
    reads t`order, t.order`vaddr
  {
    forall w: nat {:trigger Used(t, w)} :: Used(t, w) <==> old(Used(t, w)) && w != id
  }

  /** Entry number k is gone, and its id with it. */
  twostate lemma LostOne(t: Tree, new z: Entry, new k: int)
    requires 0 <= k < |old(t.order)| && old(t.order)[k] == z && t.order == old(t.order)[..k] + old(t.order)[k + 1..]
    requires forall i | 0 <= i < |old(t.order)| :: old(t.order)[i].vaddr == old(t.order[i].vaddr)
    requires forall i | 0 <= i < |old(t.order)| && i != k :: old(t.order[i].vaddr) != z.vaddr
    ensures Lost(t, z.vaddr)
  {
    var o := old(t.order);
    forall i | 0 <= i < |t.order| ensures t.order[i] == o[if i < k then i else i + 1] {}
    forall w: nat ensures Used(t, w) <==> old(Used(t, w)) && w != z.vaddr {
      if old(Used(t, w)) && w != z.vaddr {
        var j :| 0 <= j < |o| && old(t.order[j].vaddr) == w;
        assert t.order[if j < k then j else j - 1] == o[j];
      }
    }
  }

  class Table {
    const tree: Tree
    ghost var peak: nat  // the largest number of ports there has been

    /** _port_init. */
    constructor ()
      ensures Valid() && tree.order == [] && peak == 0 && fresh(tree)
    {
      tree := new Tree(0, WORD - 1);
      peak := 0;
    }

    ghost predicate Valid()
      reads this, tree, tree.nodes, tree.order
    {
      Ports(tree) && Under(tree, peak)
    }

    /** The first insertion of proc_portCreate. */
    method Enrol(z: Entry, id: nat)
      requires Valid() && z !in tree.nodes && !Used(tree, id) && id < tree.stop
      requires id <= |tree.order| || exists i :: 0 <= i < |tree.order| && id < tree.order[i].vaddr
      modifies this`peak, tree`root, tree`order, tree`nodes, tree`gaps, z
      modifies tree.nodes`left, tree.nodes`right, tree.nodes`parent, tree.nodes`lo, tree.nodes`idx, tree.nodes`hi
      modifies tree.nodes`lmaxgap, tree.nodes`rmaxgap, tree.nodes`color, tree.nodes`bh
      ensures Valid() && Gained(tree, id) && z.vaddr == id && tree.nodes == old(tree.nodes) + {z}
      ensures |tree.order| == |old(tree.order)| + 1 && peak == Max(old(peak), |tree.order|) && id < peak
    {
      Admit(tree, z, id);
      peak := Max(peak, |tree.order|);
    }

    /** The second insertion of proc_portCreate, of a port that is in the tree: it is refused. */
    method EnrolAgain(z: Entry) returns (r: int)
      requires Valid() && z in tree.nodes
      ensures r == EEXIST
    {
      var found, y, left; ghost var k;
      assert tree.Down(z);
      found, y, left, k := Descend(tree, z);
      if !found {
        NoClash(tree, z, k);
        assert false;
      }
      return EEXIST;
    }

    /** proc_portCreate: the port gets an unused id, below the largest number of ports there has been. */
    method Create(z: Entry) returns (err: int, id: nat)
      requires Valid() && z !in tree.nodes
      modifies this`peak, tree`root, tree`order, tree`nodes, tree`gaps, z
      modifies tree.nodes`left, tree.nodes`right, tree.nodes`parent, tree.nodes`lo, tree.nodes`idx, tree.nodes`hi
      modifies tree.nodes`lmaxgap, tree.nodes`rmaxgap, tree.nodes`color, tree.nodes`bh
      ensures Valid() && (err == EOK || err == EINVAL)
      ensures err == EOK ==> !old(Used(tree, id)) && Gained(tree, id) && tree.nodes == old(tree.nodes) + {z}
      ensures err == EOK ==> |tree.order| == |old(tree.order)| + 1 && peak == Max(old(peak), |tree.order|) && id < peak
      ensures err == EINVAL ==> unchanged(tree) && unchanged(tree.nodes) && peak == old(peak)
      ensures err == EINVAL <==> old(Full(tree, 0, tree.stop))
    {
      err, id := PortId(tree);
      if err != EOK {
        return EINVAL, 0;
      }
      Enrol(z, id);
      var again := EnrolAgain(z);
    }

    lemma DistinctIds(i: int, j: int)
      requires Valid() && 0 <= i < |tree.order| && 0 <= j < |tree.order| && i != j
      ensures tree.order[i].vaddr != tree.order[j].vaddr
    {
      if i < j { assert Starts(tree.order, i, j); } else { assert Starts(tree.order, j, i); }
    }

    /** port_put, for the last reference: the port and its id are gone. */
    method Destroy(z: Entry)
      requires Valid() && z in tree.nodes
      modifies tree`root, tree`order, tree`nodes, tree`gaps
      modifies tree.nodes`left, tree.nodes`right, tree.nodes`parent, tree.nodes`lo, tree.nodes`idx, tree.nodes`hi
      modifies tree.nodes`lmaxgap, tree.nodes`rmaxgap, tree.nodes`color, tree.nodes`bh
      ensures Valid() && tree.nodes == old(tree.nodes) - {z} && Lost(tree, z.vaddr)
      ensures |tree.order| == |old(tree.order)| - 1
    {
      tree.ExactIsExactOffGaps(z.idx, z.idx + 1);
      ghost var k := z.idx;
      assert tree.Down(z);
      forall i | 0 <= i < |tree.order| && i != k ensures tree.order[i].vaddr != z.vaddr { DistinctIds(i, k); }
      Remove(tree, z);
      LostOne(tree, z, k);
      tree.StillApart(k);
    }

    /** As long as there were never more than 2^31 ports at a time, ports_cmp orders them as the tree does. */
    lemma ComparesAll(i: int, j: int)
      requires Valid() && peak <= HALF && 0 <= i < |tree.order| && 0 <= j < |tree.order|
      ensures var c := Compare32(tree.order[i].vaddr, tree.order[j].vaddr);
        (c < 0 <==> i < j) && (c > 0 <==> i > j)
    {
      CompareIsOrder(tree.order[i].vaddr, tree.order[j].vaddr);
      if i < j { assert Starts(tree.order, i, j); }
      if j < i { assert Starts(tree.order, j, i); }
    }

    /** ... and sends a descent towards any id below 2^31 the same way at every port. */
    lemma ComparesProbe(e: Entry, probe: Entry)
      requires Valid() && peak <= HALF && e in tree.nodes && probe.size == 1 && probe.vaddr < HALF
      ensures e.vaddr < WORD && (Compare32(e.vaddr, probe.vaddr) > 0 <==> Compare(e, probe) > 0)
      ensures Compare32(e.vaddr, probe.vaddr) < 0 <==> Compare(e, probe) < 0
    {
      assert tree.Down(e);
      assert tree.order[e.idx] == e;
      CompareIsOrder(e.vaddr, probe.vaddr);
    }
  }
}
