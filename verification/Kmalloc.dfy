/** The kernel heap over zones whose headers live in blocks of other zones (vm/kmalloc.c). */
module Kmalloc {
  import opened Kernel
  import opened Lists
  import opened Powers
  import opened Zones

  const SIZES := 17
  const ZONE_HDRS := 16

  /** How many blocks a new zone has: a page of them, and never fewer than ZONE_HDRS headers. */
  function Blocks(idx: nat, header: bool): (n: nat)
    ensures n > 0 && (header ==> n >= ZONE_HDRS)
  {
    Pow2Grows(0, idx);
    var least := if header then ZONE_HDRS else 1;
    if SIZE_PAGE / Pow2(idx) > least then SIZE_PAGE / Pow2(idx) else least
  }

  /** The size class of a request: the least power of two, from 16 on, that holds it. */
  function Index(size: nat): (idx: nat)
    ensures idx >= 4 && size <= Pow2(idx) && (idx > 4 ==> Pow2(idx - 1) < size)
  {
    var s := if size < 16 then 16 else size;
    assert Pow2(1) == 2 && Pow2(2) == 4 && Pow2(3) == 8 && Pow2(4) == 16;
    RoundUpBounds(s, 4, RoundUp(s));
    RoundUp(s)
  }

  /** Free blocks in the zones of blocks of size 2^idx. */
  ghost function Spare(zs: seq<Zone>, idx: nat): int
    reads zs
  {
    if zs == [] then 0 else (if zs[0].idx == idx then zs[0].blocks - zs[0].used else 0) + Spare(zs[1..], idx)
  }

  /** Bytes in the blocks in use. */
  ghost function Taken(zs: seq<Zone>): int
    reads zs
  {
    if zs == [] then 0 else zs[0].used * Pow2(zs[0].idx) + Taken(zs[1..])
  }

  /** One block of z more or less in use. */
  twostate lemma {:induction false} OneMore(zs: seq<Zone>, new z: Zone, new d: int, new idx: nat)
    requires Distinct(zs) && -1 <= d <= 1
    requires forall w | w in zs :: w.used == old(w.used) + if w == z then d else 0
    ensures Spare(zs, idx) == old(Spare(zs, idx)) - if z in zs && z.idx == idx then d else 0
    ensures Taken(zs) == old(Taken(zs)) + if z in zs then d * Pow2(z.idx) else 0
  {
    if zs != [] {
      OneMore(zs[1..], z, d, idx);
      if zs[0] == z {
        Scaled(old(z.used), d, Pow2(z.idx));
      }
    }
  }

  lemma Scaled(a: int, d: int, p: int)
    ensures (a + d) * p == a * p + d * p
  {
  }

  lemma OneAdded(zs: seq<Zone>, z: Zone, idx: nat)
    requires z.used == 0
    ensures Spare([z] + zs, idx) == Spare(zs, idx) + if z.idx == idx then z.blocks else 0
    ensures Taken([z] + zs) == Taken(zs)
  {
    assert ([z] + zs)[1..] == zs;
  }

  /** Dropping a zone drops its part of the sums. */
  lemma {:induction false} OneFewer(zs: seq<Zone>, z: Zone, idx: nat)
    requires Distinct(zs) && z in zs
    ensures Spare(Without(zs, z), idx) == Spare(zs, idx) - if z.idx == idx then z.blocks - z.used else 0
    ensures Taken(Without(zs, z)) == Taken(zs) - z.used * Pow2(z.idx)
  {
    if zs[0] != z {
      OneFewer(zs[1..], z, idx);
    }
  }

  lemma {:induction false} Shorter(zs: seq<Zone>, z: Zone)
    requires z in zs
    ensures |Without(zs, z)| < |zs|
  {
    if zs[0] != z { Shorter(zs[1..], z); }
  }

  /** There is a free block exactly where some zone has one. */
  lemma {:induction false} SomeSpare(zs: seq<Zone>, idx: nat)
    requires forall z | z in zs :: z.used <= z.blocks
    ensures Spare(zs, idx) >= 0
    ensures Spare(zs, idx) > 0 <==> exists z :: z in zs && z.idx == idx && z.used < z.blocks
  {
    if zs != [] {
      SomeSpare(zs[1..], idx);
      assert zs == [zs[0]] + zs[1..];
    }
  }

  /** Giving back block b leaves its zone without any, and the zone goes; used tells the blocks in use. */
  ghost predicate Falls(first: Zone, b: Block, zs: set<Zone>, used: map<Zone, nat>) {
    b.Block? && b.zone in zs && b.zone != first && b.zone in used && used[b.zone] == 1
  }

  /** The zones that go when b is given back, each for the header of the one before. */
  ghost function Falling(first: Zone, b: Block, zs: set<Zone>, used: map<Zone, nat>): seq<Zone>
    decreases zs
  {
    if Falls(first, b, zs, used) then [b.zone] + Falling(first, b.zone.header, zs - {b.zone}, used) else []
  }

  /** The block given back last. */
  ghost function Final(b: Block, gone: seq<Zone>): Block {
    if gone == [] then b else gone[|gone| - 1].header
  }

  /** A zone that goes had one block in use. */
  lemma {:induction false} FallingLast(first: Zone, b: Block, zs: set<Zone>, used: map<Zone, nat>, z: Zone)
    requires z in Falling(first, b, zs, used)
    ensures z != first && z in zs && z in used && used[z] == 1
    decreases zs
  {
    if z != b.zone { FallingLast(first, b.zone.header, zs - {b.zone}, used, z); }
  }

  /** The block given back last is not the last one of a zone that could go. */
  lemma {:induction false} FallingEnds(first: Zone, b: Block, zs: set<Zone>, used: map<Zone, nat>)
    ensures var gone := Falling(first, b, zs, used);
      !Falls(first, Final(b, gone), zs - (set z | z in gone), used)
    decreases zs
  {
    var gone := Falling(first, b, zs, used);
    if Falls(first, b, zs, used) {
      var h, rest := b.zone.header, zs - {b.zone};
      var more := Falling(first, h, rest, used);
      FallingEnds(first, h, rest, used);
      assert gone == [b.zone] + more && Final(b, gone) == Final(h, more);
      assert zs - (set z | z in gone) == rest - (set z | z in more);
    } else {
      assert zs - (set z | z in gone) == zs;
    }
  }

  ghost function Headers(gone: seq<Zone>): set<Block> {
    if gone == [] then {} else Headers(gone[..|gone| - 1]) + {gone[|gone| - 1].header}
  }

  lemma OneMoreGone(gone: seq<Zone>, z: Zone, rest: seq<Zone>, all: set<Zone>)
    ensures gone + ([z] + rest) == (gone + [z]) + rest
    ensures all - (set w | w in gone) - {z} == all - (set w | w in gone + [z])
  {
  }

  lemma OneMoreHeader(gone: seq<Zone>, z: Zone)
    ensures Headers(gone + [z]) == Headers(gone) + {z.header} && Final(Null, gone + [z]) == z.header
  {
    assert (gone + [z])[..|gone|] == gone;
  }

  class Heap {
    const hdr: nat               // log2 of the size of a block that holds a vm_zone_t
    const first: Zone
    var sizes: seq<seq<Zone>>    // by block size, the zones with a free block
    var full: seq<Zone>          // the used list
    var tree: seq<Zone>          // all zones
    var hdrblocks: int
    var allocsz: int
    ghost var held: set<Block>   // blocks in the hands of callers
    ghost var owner: map<Block, Zone>  // which zone has its header in a block

    /** _kmalloc_init. */
    constructor (hdr: nat, vaddr: nat)
      requires hdr < SIZES
      ensures Valid() && fresh(tree) && hdrblocks >= 1 && held == {} && allocsz == 0
    {
      var z := new Zone(hdr, Blocks(hdr, true), vaddr, Null);
      this.hdr, first := hdr, z;
      sizes := seq(SIZES, k => if k == hdr then [z] else []);
      full, tree, hdrblocks, allocsz := [], [z], z.blocks, 0;
      held, owner := {}, map[];
      new;
      forall i: nat ensures !z.Live(i) { z.NoneLive(i); }
    }

    /** z is on the list of its size or on the used list, as told. */
    ghost predicate On(z: Zone, used: bool)
      reads this`sizes, this`full
    {
      (z in full <==> used) && forall k | 0 <= k < |sizes| :: z in sizes[k] <==> k == z.idx && !used
    }

    /** A zone is on the used list exactly when it has no free block. */
    ghost predicate Listed(z: Zone)
      reads this`sizes, this`full, z`used
    {
      On(z, z.used == z.blocks)
    }

    /** The blocks of z in use are held by someone or hold the header of a zone. */
    ghost predicate Manned(z: Zone)
      reads this`held, this`owner, z`free
    {
      forall i: nat {:trigger z.Live(i)} :: z.Live(i) <==> Block(z, i) in held || Block(z, i) in owner
    }

    ghost predicate Sound(z: Zone)
      reads this, z
    {
      && z.Valid() && z.idx < SIZES && z.blocks == Blocks(z.idx, z.idx == hdr) && Listed(z) && Manned(z)
      && (z != first ==> z.header in owner && owner[z.header] == z)
    }

    ghost predicate Known(b: Block)
      reads this
    {
      b.Block? && b.zone in tree
    }

    /** Block b is where the header of a zone of the tree lives. */
    ghost predicate Houses(b: Block)
      requires b in owner
      reads this
    {
      Known(b) && b.zone.idx == hdr && owner[b] in tree && owner[b] != first && owner[b].header == b
    }

    ghost predicate Lines()
      reads this`sizes, this`full, this`tree
    {
      && |sizes| == SIZES && Distinct(full) && Distinct(tree)
      && (forall z | z in full :: z in tree)
      && (forall k | 0 <= k < SIZES :: Distinct(sizes[k]) && forall z | z in sizes[k] :: z in tree)
    }

    ghost predicate Blocked()
      reads this
    {
      && held !! owner.Keys
      && (forall b {:trigger Known(b)} | b in held :: Known(b))
      && (forall b {:trigger Houses(b)} | b in owner :: Houses(b))
    }

    ghost predicate Valid()
      reads this, tree
    {
      && hdr < SIZES && first in tree && first.idx == hdr && Lines() && Blocked() && Spread(tree)
      && (forall z {:trigger Sound(z)} | z in tree :: Sound(z))
      && hdrblocks == Spare(tree, hdr) && allocsz == Taken(tree)
    }

    /** A zone that has become full moves to the used list. */
    method Fill(z: Zone)
      requires Lines() && z in tree && z.idx < SIZES && On(z, false)
      modifies this`sizes, this`full
      ensures Lines() && On(z, true)
      ensures forall w, u | w in tree && w != z && old(On(w, u)) :: On(w, u)
      ensures forall k | 0 <= k < SIZES && k != z.idx :: sizes[k] == old(sizes[k])
    {
      WithoutAll(sizes[z.idx], z);
      AppendAll(full, z);
      sizes := sizes[z.idx := Without(sizes[z.idx], z)];
      full := full + [z];
    }

    /** A full zone with a block back moves to the list of its size. */
    method Drain(z: Zone)
      requires Lines() && z in tree && z.idx < SIZES && On(z, true)
      modifies this`sizes, this`full
      ensures Lines() && On(z, false)
      ensures forall w, u | w in tree && w != z && old(On(w, u)) :: On(w, u)
      ensures forall k | 0 <= k < SIZES && k != z.idx :: sizes[k] == old(sizes[k])
    {
      WithoutAll(full, z);
      AppendAll(sizes[z.idx], z);
      full := Without(full, z);
      sizes := sizes[z.idx := sizes[z.idx] + [z]];
    }

    /** Block b has been taken (d is 1) or given back (d is -1), and no other. */
    twostate predicate Turned(new b: Block, new d: int)
      reads this, tree
    {
      && b.Block? && b.zone in tree && (d == 1 || d == -1) && b !in owner
      && tree == old(tree) && owner == old(owner)
      && held == (if d == 1 then old(held) + {b} else old(held) - {b})
      && (d == 1 ==> b !in old(held))
      && hdrblocks == old(hdrblocks) - (if b.zone.idx == hdr then d else 0)
      && allocsz == old(allocsz) + d * Pow2(b.zone.idx)
    }

    twostate predicate Zoned(new w: Zone, new b: Block, new d: int)
      requires b.Block? && old(allocated(w))
      reads w
    {
      && w.Valid() && w.used == old(w.used) + (if w == b.zone then d else 0)
      && forall i: nat {:trigger w.Live(i)} :: w.Live(i) <==> (if Block(w, i) == b then d == 1 else old(w.Live(i)))
    }

    twostate lemma StillManned(new w: Zone, new b: Block, new d: int)
      requires old(allocated(w)) && Turned(b, d) && Zoned(w, b, d) && old(Manned(w))
      ensures Manned(w)
    {
      forall i: nat ensures w.Live(i) <==> Block(w, i) in held || Block(w, i) in owner {
        assert old(w.Live(i)) <==> Block(w, i) in old(held) || Block(w, i) in owner;
      }
    }

    twostate lemma StillBlocked(new b: Block, new d: int)
      requires old(Blocked()) && Turned(b, d)
      ensures Blocked()
    {
      forall c | c in held ensures Known(c) { assert c != b ==> old(Known(c)); }
      forall c | c in owner ensures Houses(c) { assert old(Houses(c)); }
    }

    twostate lemma Changed(new b: Block, new d: int)
      requires old(Valid()) && Turned(b, d) && Lines()
      requires forall w {:trigger Zoned(w, b, d)} | w in tree :: Zoned(w, b, d)
      requires forall w {:trigger Listed(w)} | w in tree :: Listed(w)
      ensures Valid()
    {
      forall w | w in tree ensures w.used == old(w.used) + (if w == b.zone then d else 0) && Sound(w) {
        assert old(Sound(w)) && Zoned(w, b, d) && Listed(w);
        StillManned(w, b, d);
      }
      OneMore(tree, b.zone, d, hdr);
      StillBlocked(b, d);
    }

    /** Takes a block out of a zone that has one free. */
    method Take(z: Zone) returns (b: Block)
      requires Valid() && z in tree && z.used < z.blocks
      modifies this`hdrblocks, this`allocsz, this`held, z
      ensures Turned(b, 1) && b.zone == z
      ensures forall w {:trigger Zoned(w, b, 1)} | w in tree :: Zoned(w, b, 1)
    {
      assert Sound(z);
      var i := z.Alloc();
      b := Block(z, i);
      allocsz := allocsz + Pow2(z.idx);
      if z.idx == hdr {
        hdrblocks := hdrblocks - 1;
      }
      held := held + {b};
      forall w | w in tree ensures Zoned(w, b, 1) { assert old(Sound(w)); }
    }

    /** _kmalloc_alloc. */
    method AllocBlock(idx: nat) returns (b: Block)
      requires Valid() && idx < SIZES && sizes[idx] != []
      modifies this, tree
      ensures Valid() && Turned(b, 1) && b.zone == old(sizes[idx])[0] && b.zone.idx == idx
      ensures forall w {:trigger Zoned(w, b, 1)} | w in tree :: Zoned(w, b, 1)
      ensures |sizes| == SIZES && forall k | 0 <= k < SIZES && k != idx :: sizes[k] == old(sizes[k])
    {
      var z := sizes[idx][0];
      assert z in sizes[idx];
      assert Sound(z);
      b := Take(z);
      forall w | w in tree && w != z ensures Listed(w) { assert old(Sound(w)) && Zoned(w, b, 1); }
      assert Zoned(z, b, 1);
      if z.used == z.blocks {
        Fill(z);
      }
      Changed(b, 1);
    }

    /** Gives a block back to its zone. */
    method Give(b: Block)
      requires Valid() && b in held && Known(b)
      modifies this`hdrblocks, this`allocsz, this`held, b.zone
      ensures Turned(b, -1)
      ensures forall w {:trigger Zoned(w, b, -1)} | w in tree :: Zoned(w, b, -1)
    {
      assert Sound(b.zone);
      assert b.zone.Live(b.i);
      b.zone.Free(b.i);
      allocsz := allocsz - Pow2(b.zone.idx);
      if b.zone.idx == hdr {
        hdrblocks := hdrblocks + 1;
      }
      held := held - {b};
      forall w | w in tree ensures Zoned(w, b, -1) { assert old(Sound(w)); }
    }

    /** A block goes back to its zone, and the zone to the list of its size if it was full. */
    method PutBack(b: Block)
      requires Valid() && b in held && Known(b)
      modifies this, tree
      ensures Valid() && Turned(b, -1)
      ensures forall w {:trigger Zoned(w, b, -1)} | w in tree :: Zoned(w, b, -1)
      ensures |sizes| == SIZES && forall k | 0 <= k < SIZES && k != b.zone.idx :: sizes[k] == old(sizes[k])
    {
      var z := b.zone;
      assert Sound(z);
      Give(b);
      forall w | w in tree && w != z ensures Listed(w) { assert old(Sound(w)) && Zoned(w, b, -1); }
      assert Zoned(z, b, -1);
      if z.used == z.blocks - 1 {
        Drain(z);
      }
      Changed(b, -1);
    }

    /** Address p is that of block b held by someone, or, if b is Null, in no zone. */
    ghost predicate Names(p: nat, b: Block)
      reads this
    {
      if b.Null? then forall z | z in tree :: !z.Contains(p) else b in held && p == b.zone.Address(b.i)
    }

    /** lib_rbFind of the zone around p. */
    method Lookup(p: nat) returns (z: Zone?)
      ensures z != null ==> z in tree && z.Contains(p)
      ensures z == null ==> forall w | w in tree :: !w.Contains(p)
    {
      for k := 0 to |tree|
        invariant forall j | 0 <= j < k :: !tree[j].Contains(p)
      {
        if tree[k].Contains(p) {
          return tree[k];
        }
      }
      return null;
    }

    /** At most one zone is around p. */
    lemma OneZone(p: nat, z: Zone, w: Zone)
      requires Valid() && z in tree && w in tree && z.Contains(p) && w.Contains(p)
      ensures z == w
    {
      assert z == w || Clear(z, w);
    }

    /** The block at address p, found by address alone, is b. */
    lemma Located(p: nat, b: Block, z: Zone?)
      requires Valid() && Names(p, b)
      requires z != null ==> z in tree && z.Contains(p)
      requires z == null ==> forall w | w in tree :: !w.Contains(p)
      ensures z == null <==> b.Null?
      ensures z != null ==> b == Block(z, z.BlockAt(p)) && Known(b)
    {
      if b.Block? {
        Inside(b);
        Pow2Grows(0, b.zone.idx);
        assert b.zone.Contains(p);
        OneZone(p, z, b.zone);
        SlotOf(b.i, Pow2(z.idx));
      }
    }

    /** _kmalloc_free; a pointer into no zone is ignored. */
    method FreeBlock(p: nat, ghost b: Block) returns (z: Zone?)
      requires Valid() && Names(p, b)
      modifies this, tree
      ensures Valid()
      ensures z == null <==> b.Null?
      ensures z == null ==> unchanged(this) && unchanged(tree)
      ensures z != null ==> z == b.zone && Turned(b, -1)
      ensures z != null ==> forall w {:trigger Zoned(w, b, -1)} | w in tree :: Zoned(w, b, -1)
      ensures z != null ==> |sizes| == SIZES && forall k | 0 <= k < SIZES && k != z.idx :: sizes[k] == old(sizes[k])
    {
      z := Lookup(p);
      Located(p, b, z);
      if z == null {
        return;
      }
      label L:
      PutBack(Block(z, z.BlockAt(p)));
      forall w | w in tree ensures Zoned(w, b, -1) { assert Zoned@L(w, b, -1); }
    }

    /** Where a zone of blocks of size 2^idx at vaddr would end. */
    function Limit(vaddr: nat, idx: nat): nat {
      vaddr + Blocks(idx, idx == hdr) * Pow2(idx)
    }

    /** Adds a new zone to the tree and to the list of its size. */
    method Join(z: Zone)
      requires Lines() && z !in tree && z.idx < SIZES
      modifies this`sizes, this`tree
      ensures Lines() && tree == [z] + old(tree) && On(z, false)
      ensures sizes == old(sizes)[z.idx := old(sizes)[z.idx] + [z]]
      ensures forall w, u | w in old(tree) && old(On(w, u)) :: On(w, u)
    {
      AppendAll(sizes[z.idx], z);
      sizes := sizes[z.idx := sizes[z.idx] + [z]];
      tree := [z] + tree;
    }

    /** Zone z has come, its header in block b. */
    twostate predicate Come(new z: Zone, new b: Block)
      reads this, z
    {
      && z !in old(tree) && tree == [z] + old(tree) && z.header == b && z.idx < SIZES
      && z.Valid() && z.used == 0 && z.blocks == Blocks(z.idx, z.idx == hdr)
      && b in old(held) && held == old(held) - {b} && owner == old(owner)[b := z]
      && hdrblocks == old(hdrblocks) + (if z.idx == hdr then z.blocks else 0) && allocsz == old(allocsz)
    }

    twostate lemma ComeManned(new z: Zone, new b: Block, new w: Zone)
      requires old(Valid()) && Come(z, b) && w in tree && (w != z ==> w.free == old(w.free) && old(Manned(w)))
      ensures Manned(w)
    {
      forall i: nat ensures w.Live(i) <==> Block(w, i) in held || Block(w, i) in owner {
        if w != z {
          assert old(w.Live(i)) <==> Block(w, i) in old(held) || Block(w, i) in old(owner);
        } else {
          z.NoneLive(i);
          forall c | c in old(held) ensures c.Block? && c.zone != z { assert old(Known(c)); }
          forall c | c in old(owner) ensures c.Block? && c.zone != z { assert old(Houses(c)); }
        }
      }
    }

    twostate lemma Entered(new z: Zone, new b: Block)
      requires old(Valid()) && Come(z, b) && Lines() && b.Block? && b.zone.idx == hdr
      requires Vacant(old(tree), z.vaddr, z.End())
      requires forall w {:trigger Listed(w)} | w in tree :: Listed(w)
      requires forall w | w in old(tree) :: unchanged(w)
      ensures Valid()
    {
      forall w | w in tree ensures Sound(w) {
        if w != z { assert old(Sound(w)); }
        ComeManned(z, b, w);
        assert Listed(w);
      }
      OneMore(old(tree), z, 0, hdr);
      OneAdded(old(tree), z, hdr);
      forall c | c in held ensures Known(c) { assert old(Known(c)); }
      forall c | c in owner ensures Houses(c) { if c == b { assert old(Known(b)); } else { assert old(Houses(c)); } }
      SpreadMore(old(tree), z);
    }

    /** The header of a new zone goes into a block held so far. */
    method Enter(b: Block, idx: nat, vaddr: nat) returns (z: Zone)
      requires Valid() && b in held && Known(b) && b.zone.idx == hdr && idx < SIZES
      requires Vacant(tree, vaddr, Limit(vaddr, idx))
      modifies this
      ensures Valid() && fresh(z) && z.idx == idx && z.vaddr == vaddr && Come(z, b)
      ensures |sizes| == SIZES && sizes == old(sizes)[idx := old(sizes)[idx] + [z]]
    {
      z := new Zone(idx, Blocks(idx, idx == hdr), vaddr, b);
      Join(z);
      forall w | w in old(tree) ensures Listed(w) { assert old(Sound(w)); }
      if idx == hdr {
        hdrblocks := hdrblocks + z.blocks;
      }
      held, owner := held - {b}, owner[b := z];
      Entered(z, b);
    }

    /** As long as a header block is in reserve, the list of their size is not empty. */
    lemma HeadersListed()
      requires Valid() && hdrblocks >= 1
      ensures sizes[hdr] != []
    {
      forall z | z in tree ensures z.used <= z.blocks && Listed(z) { assert Sound(z); }
      SomeSpare(tree, hdr);
    }

    /** _kmalloc_addZone; ok tells whether _vm_zoneCreate found pages, and vaddr where it mapped them. */
    method AddZone(idx: nat, ok: bool, vaddr: nat)
      requires Valid() && hdrblocks >= 1 && idx < SIZES && (ok ==> Vacant(tree, vaddr, Limit(vaddr, idx)))
      modifies this, tree
      ensures Valid() && held == old(held)
      ensures !ok ==> tree == old(tree) && hdrblocks == old(hdrblocks)
      ensures ok ==> tree != [] && tree == [tree[0]] + old(tree) && fresh(tree[0])
      ensures ok ==> tree[0].vaddr == vaddr && tree[0].End() == Limit(vaddr, idx) && sizes[idx] != []
      ensures ok ==> hdrblocks == old(hdrblocks) - 1 + if idx == hdr then Blocks(hdr, true) else 0
      ensures forall k | 0 <= k < SIZES && k != idx && k != hdr :: sizes[k] == old(sizes[k])
    {
      HeadersListed();
      var b := AllocBlock(hdr);
      assert Known(b);
      if ok {
        var z := Enter(b, idx, vaddr);
      } else {
        var z := FreeBlock(b.zone.Address(b.i), b);
      }
    }

    /** The zones vm_kmalloc creates before it allocates: of headers if one block is left, and of the size asked for. */
    method Provide(idx: nat, ok: bool, vaddr: nat, ok2: bool, vaddr2: nat) returns (err: bool)
      requires Valid() && hdrblocks >= 1 && idx < SIZES
      requires ok ==> Vacant(tree, vaddr, Limit(vaddr, hdr))
      requires ok2 ==> Vacant(tree, vaddr2, Limit(vaddr2, idx))
      requires ok && ok2 ==> Limit(vaddr, hdr) <= vaddr2 || Limit(vaddr2, idx) <= vaddr
      modifies this, tree
      ensures Valid() && hdrblocks >= 1 && held == old(held)
      ensures err <==> (old(hdrblocks) == 1 && !ok) || (old(sizes)[idx] == [] && !ok2)
      ensures !err ==> |sizes| == SIZES && sizes[idx] != [] && (idx == hdr ==> hdrblocks > 1)
      ensures |tree| == |old(tree)| + (if old(hdrblocks) == 1 && ok then 1 else 0)
        + if (old(hdrblocks) > 1 || ok) && old(sizes)[idx] == [] && ok2 then 1 else 0
      ensures forall z | z in old(tree) :: z in tree
      ensures forall k | 0 <= k < |tree| :: tree[k] in old(tree) || fresh(tree[k])
    {
      HeadersListed();
      err := false;
      if hdrblocks == 1 {
        AddZone(hdr, ok, vaddr);
        err := !ok;
      }
      if !err && sizes[idx] == [] {
        AddZone(idx, ok2, vaddr2);
        err := !ok2;
      }
    }

    /**
     vm_kmalloc, the first zone creation it may need being of headers and the second of blocks of the size
     asked for.
     */
    method Malloc(size: nat, ok: bool, vaddr: nat, ok2: bool, vaddr2: nat) returns (b: Block)
      requires Valid() && hdrblocks >= 1
      requires ok ==> Vacant(tree, vaddr, Limit(vaddr, hdr))
      requires ok2 ==> Vacant(tree, vaddr2, Limit(vaddr2, Index(size)))
      requires ok && ok2 ==> Limit(vaddr, hdr) <= vaddr2 || Limit(vaddr2, Index(size)) <= vaddr
      modifies this, tree
      ensures Valid() && hdrblocks >= 1
      ensures b.Null? <==>
        Index(size) >= SIZES || (old(hdrblocks) == 1 && !ok) || (old(sizes)[Index(size)] == [] && !ok2)
      ensures b.Null? ==> held == old(held)
      ensures Index(size) >= SIZES ==> unchanged(this) && unchanged(tree)
      ensures Index(size) < SIZES ==>
        |tree| == |old(tree)| + (if old(hdrblocks) == 1 && ok then 1 else 0)
          + if (old(hdrblocks) > 1 || ok) && old(sizes)[Index(size)] == [] && ok2 then 1 else 0
      ensures forall z | z in old(tree) :: z in tree
      ensures b.Block? ==> b.zone.idx == Index(size) && b !in old(held) && held == old(held) + {b}
    {
      b := Null;
      var idx := Index(size);
      if idx >= SIZES {
        return;
      }
      var err := Provide(idx, ok, vaddr, ok2, vaddr2);
      if !err {
        b := AllocBlock(idx);
      }
    }

    /** Takes a zone with a free block off its list and out of the tree. */
    method Part(z: Zone)
      requires Lines() && z in tree && z.idx < SIZES && On(z, false)
      modifies this`sizes, this`tree
      ensures Lines() && tree == Without(old(tree), z) && (forall w :: w in tree <==> w in old(tree) && w != z)
      ensures forall w, u | w in tree && old(On(w, u)) :: On(w, u)
    {
      WithoutAll(sizes[z.idx], z);
      WithoutAll(tree, z);
      sizes := sizes[z.idx := Without(sizes[z.idx], z)];
      tree := Without(tree, z);
    }

    /** Zone z is gone, and its header is a block like any other. */
    twostate predicate Gone(new z: Zone)
      reads this, z
    {
      && z in old(tree) && z != first && z.Valid() && z.used == 0
      && tree == Without(old(tree), z)
      && held == old(held) + {z.header} && owner == old(owner) - {z.header}
      && hdrblocks == old(hdrblocks) - (if z.idx == hdr then z.blocks else 0) && allocsz == old(allocsz)
    }

    twostate lemma Departed(new z: Zone)
      requires old(Valid()) && Gone(z) && Lines()
      requires forall w {:trigger Listed(w)} | w in tree :: Listed(w)
      requires forall w | w in old(tree) :: unchanged(w)
      ensures Valid() && Known(z.header) && z.header.zone.idx == hdr
    {
      WithoutAll(old(tree), z);
      assert old(Sound(z));
      assert old(Houses(z.header));
      forall w | w in tree ensures Sound(w) {
        assert old(Sound(w)) && Listed(w);
        assert Manned(w) by {
          forall i: nat ensures w.Live(i) <==> Block(w, i) in held || Block(w, i) in owner {
            assert old(w.Live(i)) <==> Block(w, i) in old(held) || Block(w, i) in old(owner);
          }
        }
      }
      forall i: nat ensures Block(z, i) !in old(held) && Block(z, i) !in old(owner) {
        z.NoneLive(i);
        assert !old(z.Live(i));
      }
      forall c | c in held ensures Known(c) { assert c != z.header ==> old(Known(c)); }
      forall c | c in owner ensures Houses(c) { assert old(Houses(c)); }
      OneMore(old(tree), z, 0, hdr);
      OneFewer(old(tree), z, hdr);
    }

    /** A zone with nothing in use is destroyed, and its header left over. */
    method Leave(z: Zone)
      requires Valid() && z in tree && z != first && z.used == 0
      modifies this
      ensures Valid() && Gone(z) && Known(z.header) && z.header.zone.idx == hdr
      ensures |tree| < |old(tree)| && forall w | w in tree :: w in old(tree)
    {
      assert Sound(z) && Houses(z.header);
      Part(z);
      forall w | w in tree ensures Listed(w) { assert old(Sound(w)); }
      if z.idx == hdr {
        hdrblocks := hdrblocks - z.blocks;
      }
      held, owner := held + {z.header}, owner - {z.header};
      Departed(z);
      Shorter(old(tree), z);
    }

    /** The free header blocks are never fewer than none. */
    lemma SpareHeaders()
      requires Valid()
      ensures hdrblocks >= 0
    {
      forall z | z in tree ensures z.used <= z.blocks { assert Sound(z); }
      SomeSpare(tree, hdr);
    }

    /** _kmalloc_freeAtom. A zone that goes leaves the block of its header in the hands of the caller. */
    method FreeAtom(p: nat, ghost b: Block) returns (c: Block)
      requires Valid() && Names(p, b) && (hdrblocks >= 1 || (b.Block? && b.zone.idx == hdr))
      modifies this, tree
      ensures Valid() && (hdrblocks >= 1 || c.Block?)
      ensures c.Block? <==> old(Lasts(b))
      ensures c.Null? ==> held == old(held) - {b} && tree == old(tree) && owner == old(owner)
      ensures c.Block? ==> c == b.zone.header && Known(c) && c.zone.idx == hdr && c !in old(held)
      ensures c.Block? ==> held == old(held) - {b} + {c} && owner == old(owner) - {c}
      ensures c.Block? ==> tree == Without(old(tree), b.zone) && |tree| < |old(tree)|
      ensures forall z | z in tree :: z in old(tree)
      ensures forall z | z in tree :: z.used == old(z.used) - if b.Block? && z == b.zone then 1 else 0
    {
      SpareHeaders();
      forall x | x in held ensures x.Block? { assert Known(x); }
      var z := FreeBlock(p, b);
      assert z != null ==> Zoned(z, b, -1);
      forall w | z != null && w in tree ensures w.used == old(w.used) - if w == b.zone then 1 else 0
        { assert Zoned(w, b, -1); }
      if z == null || z.used > 0 || z == first {
        return Null;
      }
      assert z.header in owner && z.header !in old(held) by { assert Sound(z); }
      Leave(z);
      SpareHeaders();
      return z.header;
    }

    /** b is the last block in use of a zone other than the first. */
    ghost predicate Lasts(b: Block)
      reads this, tree
    {
      Known(b) && b.zone != first && b.zone.used == 1
    }


    /** The zones there are. */
    ghost function All(): set<Zone>
      reads this
    {
      set z | z in tree
    }

    /** How many blocks are in use in each. */
    ghost function Counts(): map<Zone, nat>
      reads this, tree
    {
      map z | z in tree :: z.used
    }

    /** One turn of the loop of vm_kfree. */
    method FreeTurn(p: nat, ghost b: Block) returns (c: Block)
      requires Valid() && Names(p, b) && (hdrblocks >= 1 || (b.Block? && b.zone.idx == hdr))
      modifies this, tree
      ensures Valid() && (hdrblocks >= 1 || c.Block?)
      ensures c.Block? ==> c in held && Known(c) && c.zone.idx == hdr
      ensures (if c.Block? then held - {c} else held) == old(held) - {b}
      ensures c.Block? <==> Falls(first, b, old(All()), old(Counts()))
      ensures c.Block? ==> c == b.zone.header && All() == old(All()) - {b.zone} && owner == old(owner) - {c}
      ensures c.Block? ==> |tree| < |old(tree)|
      ensures c.Null? ==> All() == old(All()) && owner == old(owner)
      ensures forall z | z in All() ::
        z in old(Counts()) && z.used + (if b.Block? && z == b.zone then 1 else 0) == old(Counts())[z]
      ensures forall z | z in tree :: z in old(tree)
    {
      forall x | x in held ensures x.Block? { assert Known(x); }
      ghost var was := tree;
      assert b.Block? ==> Known(b);
      c := FreeAtom(p, b);
      if c.Block? { WithoutAll(was, b.zone); }
    }

    /** Where the loop stands: the zones gone are gone, c is to be given back next, and nothing else has changed. */
    ghost predicate Fallen(b: Block, c: Block, gone: seq<Zone>, all: set<Zone>, used: map<Zone, nat>,
        owned: map<Block, Zone>)
      reads this, tree
    {
      && All() == all - (set z | z in gone)
      && (c.Block? ==> c == Final(b, gone) && Falling(first, b, all, used) == gone + Falling(first, c, All(), used))
      && (c.Null? ==> Falling(first, b, all, used) == gone) && owner == owned - Headers(gone)
      && forall z | z in All() ::
        z in used && z.used + (if c.Null? && Final(b, gone).Block? && z == Final(b, gone).zone then 1 else 0) == used[z]
    }

    /** A turn after the first. */
    method FallOn(ghost b: Block, d: Block, ghost gone: seq<Zone>, ghost all: set<Zone>, ghost used: map<Zone, nat>,
        ghost owned: map<Block, Zone>)
      returns (c: Block, ghost more: seq<Zone>)
      requires Valid() && d in held && Known(d) && d.zone.idx == hdr && Fallen(b, d, gone, all, used, owned)
      modifies this, tree
      ensures Valid() && (hdrblocks >= 1 || c.Block?)
      ensures c.Block? ==> c in held && Known(c) && c.zone.idx == hdr && |tree| < |old(tree)|
      ensures (if c.Block? then held - {c} else held) == old(held) - {d}
      ensures Fallen(b, c, more, all, used, owned) && forall z | z in tree :: z in old(tree)
    {
      c := FreeTurn(d.zone.Address(d.i), d);
      more := gone;
      if c.Block? {
        more := gone + [d.zone];
        OneMoreHeader(gone, d.zone);
        OneMoreGone(gone, d.zone, Falling(first, c, All(), used), all);
      } else {
        assert gone + [] == gone;
      }
    }

    /** The turns after the first. */
    method FallAll(ghost b: Block, d: Block, ghost gone0: seq<Zone>, ghost all: set<Zone>, ghost used: map<Zone, nat>,
        ghost owned: map<Block, Zone>)
      returns (ghost gone: seq<Zone>)
      requires Valid() && d in held && Known(d) && d.zone.idx == hdr && Fallen(b, d, gone0, all, used, owned)
      modifies this, tree
      ensures Valid() && hdrblocks >= 1 && held == old(held) - {d} && Fallen(b, Null, gone, all, used, owned)
    {
      var c := d;
      gone := gone0;
      while c.Block?
        invariant Valid() && (hdrblocks >= 1 || c.Block?) && Fallen(b, c, gone, all, used, owned)
        invariant c.Block? ==> c in held && Known(c) && c.zone.idx == hdr
        invariant (if c.Block? then held - {c} else held) == old(held) - {d}
        invariant forall k | 0 <= k < |tree| :: tree[k] in old(tree)
        decreases c.Block?, |tree|
      {
        ghost var was := tree;
        c, gone := FallOn(b, c, gone, all, used, owned);
        forall k | 0 <= k < |tree| ensures tree[k] in old(tree) { assert tree[k] in tree && tree[k] in was; }
      }
    }

    /**
     vm_kfree of address p, that of block b: it goes back, and so does the header of every zone that has lost its
     last block by that, which go; all others stay.
     */
    method Free(p: nat, ghost b: Block)
      requires Valid() && hdrblocks >= 1 && Names(p, b)
      modifies this, tree
      ensures Valid() && hdrblocks >= 1 && held == old(held) - {b}
      ensures Fallen(b, Null, Falling(first, b, old(All()), old(Counts())), old(All()), old(Counts()), old(owner))
    {
      var c; ghost var gone;
      c, gone := FallFirst(p, b, All(), Counts(), owner);
      if c.Block? {
        gone := FallAll(b, c, gone, old(All()), old(Counts()), old(owner));
      }
    }

    /** The first turn. */
    method FallFirst(p: nat, ghost b: Block, ghost all: set<Zone>, ghost used: map<Zone, nat>,
        ghost owned: map<Block, Zone>)
      returns (c: Block, ghost gone: seq<Zone>)
      requires Valid() && hdrblocks >= 1 && Names(p, b) && all == All() && used == Counts() && owned == owner
      modifies this, tree
      ensures Valid() && (hdrblocks >= 1 || c.Block?) && Fallen(b, c, gone, all, used, owned)
      ensures c.Block? ==> c in held && Known(c) && c.zone.idx == hdr
      ensures (if c.Block? then held - {c} else held) == old(held) - {b}
      ensures forall k | 0 <= k < |tree| :: tree[k] in old(tree)
    {
      c := FreeTurn(p, b);
      forall k | 0 <= k < |tree| ensures tree[k] in old(tree) { assert tree[k] in tree; }
      gone := [];
      if c.Block? {
        gone := [b.zone];
        OneMoreHeader([], b.zone);
        assert [] + [b.zone] == [b.zone];
      }
    }

    /** What that comes to: exactly the zones without a block in use are gone, and a block has gone back to one left. */
    lemma FallenMeans(b: Block, gone: seq<Zone>, all: set<Zone>, used: map<Zone, nat>, owned: map<Block, Zone>, z: Zone)
      requires Fallen(b, Null, gone, all, used, owned) && z in all
      ensures z in tree <==> z !in gone
      ensures z in tree ==>
        z in used && z.used + (if Final(b, gone).Block? && z == Final(b, gone).zone then 1 else 0) == used[z]
      ensures z in gone ==> z != first && z in used && used[z] == 1
      ensures z in tree && z != first && z in used && used[z] > 0 ==> z.used > 0
    {
      assert z in tree <==> z in All();
      if z in gone { FallingLast(first, b, all, used, z); }
      FallingEnds(first, b, all, used);
    }

    /** Blocks held do not share addresses. */
    lemma HeldApart(b: Block, c: Block)
      requires Valid() && b in held && c in held && b != c && b.Block? && c.Block?
      ensures var p := b.zone.Address(b.i); var q := c.zone.Address(c.i);
              p + Pow2(b.zone.idx) <= q || q + Pow2(c.zone.idx) <= p
    {
      Inside(b);
      Inside(c);
      if b.zone == c.zone {
        SlotsApart(b.i, c.i, Pow2(b.zone.idx));
      } else {
        assert Clear(b.zone, c.zone);
      }
    }

    /** A block held lies within its zone. */
    lemma Inside(b: Block)
      requires Valid() && b in held
      ensures Known(b) && b.i < b.zone.blocks && b.zone.Address(b.i) + Pow2(b.zone.idx) <= b.zone.End()
    {
      assert Known(b) && Sound(b.zone);
      assert b.zone.Live(b.i);
      Steps(b.i + 1, b.zone.blocks, Pow2(b.zone.idx));
    }
  }

  lemma Steps(i: nat, j: nat, p: nat)
    requires 1 <= i <= j
    ensures (i - 1) * p + p == i * p <= j * p
  {
    Scaled(i, j - i, p);
    Scaled(i, -1, p);
  }

  lemma SlotsApart(i: nat, j: nat, p: nat)
    requires i != j
    ensures i * p + p <= j * p || j * p + p <= i * p
  {
    if i < j { Steps(i + 1, j, p); } else { Steps(j + 1, i, p); }
  }

  /** The zones lie one after the other. */
  ghost predicate Clear(z: Zone, w: Zone) {
    z.End() <= w.vaddr || w.End() <= z.vaddr
  }

  /** Zones do not share addresses. */
  ghost predicate Spread(zs: seq<Zone>) {
    forall z, w {:trigger Clear(z, w)} | z in zs && w in zs && z != w :: Clear(z, w)
  }

  /** Zone z ends before lo or begins after hi. */
  ghost predicate Beside(z: Zone, lo: nat, hi: nat) {
    z.End() <= lo || hi <= z.vaddr
  }

  /** No zone meets the addresses from lo to hi. */
  ghost predicate Vacant(zs: seq<Zone>, lo: nat, hi: nat) {
    forall z {:trigger Beside(z, lo, hi)} | z in zs :: Beside(z, lo, hi)
  }

  lemma SpreadMore(zs: seq<Zone>, z: Zone)
    requires Spread(zs) && Vacant(zs, z.vaddr, z.End())
    ensures Spread([z] + zs)
  {
    forall w, v | w in [z] + zs && v in [z] + zs && w != v ensures Clear(w, v) {
      if w == z { assert Beside(v, z.vaddr, z.End()); }
      else if v == z { assert Beside(w, z.vaddr, z.End()); }
    }
  }
}
