/** Handing out ids: process_alloc, thread_alloc, resource_alloc and _proc_portAlloc. */
module IdAlloc {
  import opened GapTree
  import opened RbAugment
  import opened RbInsert
  import opened IdSearch

  /** The ids of t are those it had and one more. */
  twostate predicate Gained(t: Tree, new id: nat)
    reads t`order, t.order`vaddr
  {
    forall w: nat {:trigger Used(t, w)} :: Used(t, w) <==> old(Used(t, w)) || w == id
  }

  /** A red-black tree whose entries are one id long. */
  ghost predicate Singles(t: Tree)
    reads t`root, t`order, t`nodes, t`gaps, t.order`vaddr, t.order`size, t.nodes`left, t.nodes`right, t.nodes`parent
    reads t.nodes`lo, t.nodes`idx, t.nodes`hi, t.nodes`color, t.nodes`bh, t.nodes`lmaxgap, t.nodes`rmaxgap
  {
    t.RedBlack() && Keyed(t) && t.Disjoint() && forall i | 0 <= i < |t.order| :: t.order[i].size == 1
  }

  lemma IdsReady(t: Tree, z: Entry)
    requires Singles(t) && z !in t.nodes && z.size == 1 && !Used(t, z.vaddr)
    ensures Ready(t, z) && forall e | e in t.nodes :: !Overlap(e, z)
  {
    forall k | Between(t, z, k) ensures t.ExactOffGaps(k, k) {
      t.ExactIsExactOffGaps(k, k);
    }
    forall e | e in t.nodes ensures !Overlap(e, z) {
      assert t.Down(e);
    }
  }

  lemma Spliced(o: seq<Entry>, z: Entry, k: int)
    requires 0 <= k <= |o|
    ensures var s := o[..k] + [z] + o[k..];
      |s| == |o| + 1 && forall i | 0 <= i < |s| :: s[i] == if i < k then o[i] else if i == k then z else o[i - 1]
  {
  }

  lemma SplicedOld(o: seq<Entry>, z: Entry, k: int)
    requires 0 <= k <= |o|
    ensures var s := o[..k] + [z] + o[k..]; s[k] == z && forall i | 0 <= i < |s| :: s[i] == z || s[i] in o
  {
  }

  twostate lemma GainedOne(t: Tree, new z: Entry, new k: int)
    requires 0 <= k <= |old(t.order)| && t.order == old(t.order)[..k] + [z] + old(t.order)[k..]
    requires forall e | e in old(t.order) :: e.vaddr == old(e.vaddr) && e.size == old(e.size)
    ensures Gained(t, z.vaddr)
  {
    var o := old(t.order);
    Spliced(o, z, k);
    SplicedOld(o, z, k);
    forall w: nat ensures Used(t, w) <==> old(Used(t, w)) || w == z.vaddr {
      if old(Used(t, w)) {
        var j :| 0 <= j < |o| && old(t.order[j].vaddr) == w;
        assert o[j] in o && t.order[if j < k then j else j + 1] == o[j];
      }
      if w == z.vaddr { assert t.order[k] == z; }
      if Used(t, w) && w != z.vaddr {
        var i :| 0 <= i < |t.order| && t.order[i].vaddr == w;
        assert t.order[i] in o;
      }
    }
  }

  method InsertOne(t: Tree, z: Entry) returns (ghost k: int)
    requires Singles(t) && z !in t.nodes && z.size == 1 && !Used(t, z.vaddr)
    modifies t`root, t`order, t`nodes, t`gaps, z`left, z`right, z`parent, z`lo, z`idx, z`hi, z`lmaxgap, z`rmaxgap
    modifies z`color, z`bh
    modifies t.nodes`left, t.nodes`right, t.nodes`parent, t.nodes`lo, t.nodes`idx, t.nodes`hi, t.nodes`lmaxgap
    modifies t.nodes`rmaxgap
    modifies t.nodes`color, t.nodes`bh
    ensures Singles(t) && t.nodes == old(t.nodes) + {z}
    ensures 0 <= k <= |old(t.order)| && t.order == old(t.order)[..k] + [z] + old(t.order)[k..]
  {
    IdsReady(t, z);
    var r := Insert(t, z);
    k :| old(Between(t, z, k)) && t.order == old(t.order)[..k] + [z] + old(t.order)[k..];
  }

  /** An unused id goes into a tree of ids with its entry; the other entries stay. */
  method Admit(t: Tree, z: Entry, id: nat)
    requires Singles(t) && z !in t.nodes && !Used(t, id)
    modifies t`root, t`order, t`nodes, t`gaps, z
    modifies t.nodes`left, t.nodes`right, t.nodes`parent, t.nodes`lo, t.nodes`idx, t.nodes`hi, t.nodes`lmaxgap
    modifies t.nodes`rmaxgap
    modifies t.nodes`color, t.nodes`bh
    ensures Singles(t) && Gained(t, id) && z.vaddr == id && t.nodes == old(t.nodes) + {z}
    ensures |t.order| == |old(t.order)| + 1
    ensures forall i | 0 <= i < |t.order| :: t.order[i] == z || t.order[i] in old(t.order)
    ensures z in t.order && z !in old(t.order)
  {
    assert z !in t.order;
    z.vaddr, z.size := id, 1;
    label S:
    assert forall w: nat {:trigger Used(t, w)} :: Used(t, w) <==> old(Used(t, w));
    ghost var k := InsertOne(t, z);
    GainedOne(t, z, k);
    SplicedOld(old(t.order), z, k);
  }

  /** An unused id goes into the tree with its entry. */
  method Enter(t: Tree, z: Entry, id: nat)
    requires Ids(t) && z !in t.nodes && !Used(t, id) && id > 0
    modifies t`root, t`order, t`nodes, t`gaps, z
    modifies t.nodes`left, t.nodes`right, t.nodes`parent, t.nodes`lo, t.nodes`idx, t.nodes`hi, t.nodes`lmaxgap
    modifies t.nodes`rmaxgap
    modifies t.nodes`color, t.nodes`bh
    ensures Gained(t, id) && z.vaddr == id && t.nodes == old(t.nodes) + {z} && (Ids(t) <==> id <= MAX_ID)
  {
    Admit(t, z, id);
  }

  /** The search: from the counter on, then from 1. */
  method Choose(t: Tree, counter: nat) returns (id: nat, next: nat)
    requires Ids(t) && 1 <= counter <= MAX_ID
    ensures id == 0 <==> OnlyLast(t, 1)
    ensures next == if OnlyLast(t, counter) then 1 else counter
    ensures Answer(t, next, id)
    ensures id > MAX_ID <==> Full(t, counter, MAX_ID + 1)
  {
    next := counter;
    id := Alloc(t, next);
    if id == 0 {
      next := 1;
      id := Alloc(t, next);
    }
  }

  /**
   process_alloc and thread_alloc: from the counter on, or from 1 if nothing is left above it.
   resource_alloc is the same without the counter.
   */
  method Allocate(t: Tree, z: Entry, counter: nat) returns (id: nat, next: nat)
    requires Ids(t) && z !in t.nodes && 1 <= counter <= MAX_ID
    modifies t`root, t`order, t`nodes, t`gaps, z
    modifies t.nodes`left, t.nodes`right, t.nodes`parent, t.nodes`lo, t.nodes`idx, t.nodes`hi, t.nodes`lmaxgap
    modifies t.nodes`rmaxgap
    modifies t.nodes`color, t.nodes`bh
    ensures 1 <= next <= MAX_ID
    ensures id == 0 <==> old(OnlyLast(t, 1))
    ensures id == 0 ==> unchanged(t) && unchanged(t.nodes) && next == 1
    ensures id != 0 ==> !old(Used(t, id)) && Gained(t, id) && (Ids(t) <==> id <= MAX_ID)
    ensures var from := if old(OnlyLast(t, counter)) then 1 else counter;
      id != 0 ==> old(Answer(t, from, id)) && next == if from == MAX_ID then 2 else from + 1
    ensures id > MAX_ID <==> old(Full(t, counter, MAX_ID + 1))
  {
    id, next := Choose(t, counter);
    if next == MAX_ID {
      next := 1;
    }
    if id != 0 {
      Enter(t, z, id);
      next := next + 1;
    }
  }

  /** With only the last id but one in use, asking for that gives none, though the last is left. */
  method LastNotFound() returns (t: Tree, x: nat)
    ensures !Used(t, MAX_ID) && x == 0
  {
    t := new Tree(0, MAX_ID);
    var z := new Entry(0, 1);
    assert !Used(t, MAX_ID - 1) && !Used(t, MAX_ID);
    Enter(t, z, MAX_ID - 1);
    assert Used(t, MAX_ID - 1) && !Used(t, MAX_ID);
    x := Alloc(t, MAX_ID - 1);
  }

  /** With the last id in use, asking for it gives the one beyond. */
  method BeyondTheLast() returns (x: nat)
    ensures x > MAX_ID
  {
    var t := new Tree(0, MAX_ID);
    var z := new Entry(0, 1);
    assert !Used(t, MAX_ID);
    Enter(t, z, MAX_ID);
    assert Used(t, MAX_ID) && Full(t, MAX_ID, MAX_ID + 1);
    x := Alloc(t, MAX_ID);
  }
}
