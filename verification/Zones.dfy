/** Zones of equal blocks with the free list threaded through them (vm/zone.c). */
module Zones {
  import opened Lists
  import opened Powers

  /** A pointer: NULL, or to the start of block i of a zone. */
  datatype Block = Null | Block(zone: Zone, i: nat)

  /** next[i] is the word at the start of block i while it is free: the next free block, or -1 for NULL. */
  class Zone {
    const idx: nat       // log2 of the size of a block
    const blocks: nat
    const vaddr: nat
    const header: Block  // where the vm_zone_t itself lives
    var next: seq<int>
    var first: int
    var used: nat
    ghost var free: seq<int>

    /** _vm_zoneCreate. */
    constructor (idx: nat, blocks: nat, vaddr: nat, header: Block)
      requires blocks > 0
      ensures Valid() && used == 0
      ensures this.idx == idx && this.blocks == blocks && this.vaddr == vaddr && this.header == header
    {
      this.idx, this.blocks, this.vaddr, this.header := idx, blocks, vaddr, header;
      next := seq(blocks, i => if i + 1 < blocks then i + 1 else -1);
      first, used := 0, 0;
      free := seq(blocks, i => i);
    }

    /** Free block number k of the list leads to number k + 1. */
    ghost predicate Link(k: int)
      requires 0 <= k < |free| && 0 <= free[k] < |next|
      reads this
    {
      next[free[k]] == if k + 1 < |free| then free[k + 1] else -1
    }

    ghost predicate Valid()
      reads this
    {
      && |next| == blocks > 0 && Distinct(free) && used + |free| == blocks
      && first == (if free == [] then -1 else free[0])
      && (forall k | 0 <= k < |free| :: 0 <= free[k] < blocks)
      && (forall k {:trigger Link(k)} | 0 <= k < |free| :: Link(k))
    }

    /** Block i is in use. */
    ghost predicate Live(i: int)
      reads this`free
    {
      0 <= i < blocks && i !in free
    }

    /** Where block i begins. */
    function Address(i: nat): nat {
      vaddr + i * Pow2(idx)
    }

    /** Address p lies in the zone. */
    predicate Contains(p: nat) {
      vaddr <= p < End()
    }

    /** The block that address p of the zone lies in. */
    function BlockAt(p: nat): nat
      requires vaddr <= p
    {
      Pow2Grows(0, idx);
      Slot(p - vaddr, Pow2(idx))
    }

    /** Where the zone ends. */
    function End(): nat {
      Address(blocks)
    }

    /** _vm_zalloc: a block that was free; NULL (-1) exactly if the zone is full. */
    method Alloc() returns (i: int)
      requires Valid()
      modifies this
      ensures Valid() && (i == -1 <==> old(used) == blocks) && (i == -1 ==> unchanged(this))
      ensures i != -1 ==> 0 <= i < blocks && !old(Live(i)) && used == old(used) + 1
      ensures i != -1 ==> forall j :: Live(j) <==> old(Live(j)) || j == i
    {
      if used == blocks {
        return -1;
      }
      assert Link(0);
      i := first;
      first := next[first];
      used := used + 1;
      free := free[1..];
      forall k | 0 <= k < |free| ensures Link(k) { assert old(Link(k + 1)); }
    }

    /** _vm_zfree: a pointer outside the zone is ignored. */
    method Free(i: int)
      requires Valid() && (0 <= i < blocks ==> Live(i))
      modifies this
      ensures Valid() && (!(0 <= i < blocks) ==> unchanged(this))
      ensures 0 <= i < blocks ==> used == old(used) - 1 && forall j :: Live(j) <==> old(Live(j)) && j != i
    {
      if i < 0 || i >= blocks {
        return;
      }
      FreeFewer(i);
      next := next[i := first];
      first := i;
      used := used - 1;
      free := [i] + free;
      forall k | 0 <= k < |free| ensures Link(k) { if k > 0 { assert old(Link(k - 1)); } }
    }

    /** If a block is in use, used is not zero. */
    lemma FreeFewer(i: int)
      requires Valid() && Live(i)
      ensures used > 0
    {
      Sizes(free, Below(blocks) - {i});
    }

    /** A zone with nothing in use has every block free. */
    lemma NoneLive(i: int)
      requires Valid() && used == 0
      ensures !Live(i)
    {
      if Live(i) { FreeFewer(i); }
    }
  }

  /** d / p. */
  function Slot(d: nat, p: nat): nat
    requires p > 0
  {
    if d < p then 0 else 1 + Slot(d - p, p)
  }

  lemma {:induction false} SlotOf(i: nat, p: nat)
    requires p > 0
    ensures Slot(i * p, p) == i
  {
    if i > 0 {
      assert i * p == (i - 1) * p + p;
      SlotOf(i - 1, p);
    }
  }

  /** The numbers below n. */
  ghost function Below(n: nat): (s: set<int>)
    ensures |s| == n && forall k :: k in s <==> 0 <= k < n
  {
    if n == 0 then {} else Below(n - 1) + {n - 1}
  }

  /** Distinct members of a set are no more than the set has. */
  lemma {:induction false} Sizes(s: seq<int>, all: set<int>)
    requires Distinct(s) && forall k | 0 <= k < |s| :: s[k] in all
    ensures |s| <= |all|
  {
    if s != [] {
      Sizes(s[1..], all - {s[0]});
    }
  }
}
