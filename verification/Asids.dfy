/** Address space identifiers (hal/armv7a/imx6ull/pmap.c). */
module Asids {
  const SLOTS: nat := 256

  class Pmap {
    var asid_ix: nat

    constructor ()
      ensures asid_ix == 0
    {
      asid_ix := 0;
    }
  }

  /** How many steps back from slot ptr slot i lies, round the ring of slots 1 to 255. */
  function Back(ptr: nat, i: nat): int {
    if i <= ptr then ptr - i else ptr + 255 - i
  }

  class Allocator {
    const asid_map: array<Pmap?>
    const asids: array<nat>
    var asidptr: nat
    ghost var live: nat
    ghost var spaces: set<Pmap>

    /** pmap_common as _pmap_init leaves it. */
    constructor ()
      ensures Valid() && spaces == {} && live == 0
    {
      asid_map := new Pmap?[SLOTS](i => null);
      asids := new nat[SLOTS](i => i);
      asidptr, live, spaces := 0, 0, {};
    }

    /** A slot is taken exactly if it is one of the last ones handed out, and its owner knows it. */
    ghost predicate Slot(i: int)
      requires asid_map.Length == SLOTS && 0 < i < SLOTS
      reads this, asid_map, spaces
    {
      && (asid_map[i] != null <==> Back(asidptr, i) < live)
      && (asid_map[i] != null ==> asid_map[i] in spaces && asid_map[i].asid_ix == i)
    }

    ghost predicate Space(p: Pmap)
      requires asid_map.Length == SLOTS
      reads this, asid_map, p
    {
      p.asid_ix < SLOTS && (p.asid_ix != 0 ==> asid_map[p.asid_ix] == p)
    }

    ghost predicate Valid()
      reads this, asid_map, asids, spaces
    {
      && asid_map.Length == asids.Length == SLOTS && asid_map[0] == null && asidptr < SLOTS && live < SLOTS
      && (asidptr == 0 ==> live == 0)
      && (forall i {:trigger Slot(i)} | 0 < i < SLOTS :: Slot(i))
      && (forall p {:trigger Space(p)} | p in spaces :: Space(p))
      && (forall i | 0 <= i < SLOTS :: asids[i] < SLOTS)
      && (forall i, j | 0 <= i < j < SLOTS :: asids[i] != asids[j])
    }

    /** The identifier the hardware uses for p. */
    ghost function Asid(p: Pmap): nat
      reads this, asids, p
    {
      if p.asid_ix < asids.Length then asids[p.asid_ix] else 0
    }

    /** No two address spaces that have an identifier share it. */
    lemma Unshared(p: Pmap, q: Pmap)
      requires Valid() && p in spaces && q in spaces && p.asid_ix != 0 && q.asid_ix != 0 && p != q
      ensures Asid(p) != Asid(q)
    {
      assert Space(p) && Space(q);
    }

    /** The search of _pmap_asidAlloc: the next slot, unless the address space that runs has it. */
    method NextSlot(ctx: nat) returns (ptr: nat, evicted: Pmap?)
      requires Valid()
      ensures 0 < ptr < SLOTS && evicted == asid_map[ptr]
      ensures evicted != null ==> live == SLOTS - 1 && asids[ptr] != ctx
      ensures evicted == null ==> live < SLOTS - 1 && ptr == if asidptr == SLOTS - 1 then 1 else asidptr + 1
    {
      ptr, evicted := asidptr, null;
      while true
        invariant ptr < SLOTS
        invariant evicted == null ==> ptr == asidptr || (asidptr == SLOTS - 1 && ptr == 0)
        invariant evicted != null ==>
          live == SLOTS - 1 && 0 < evicted.asid_ix < SLOTS && asids[evicted.asid_ix] == ctx
          && asid_map[evicted.asid_ix] == evicted
        invariant evicted != null ==> ptr == evicted.asid_ix || (ptr == 0 && evicted.asid_ix == SLOTS - 1)
        decreases evicted == null, ptr == SLOTS - 1
      {
        ptr := (ptr + 1) % SLOTS;
        if ptr != 0 {
          assert Slot(ptr);
          evicted := asid_map[ptr];
          if evicted == null {
            return;
          }
        }
        if evicted != null {
          if ctx == asids[evicted.asid_ix] {
            continue;
          }
          return;
        }
      }
    }

    /**
     _pmap_asidAlloc: p gets an identifier; at most one other address space loses its own,
     and never the one that runs, whose identifier is ctx.
     */
    method Alloc(p: Pmap, ctx: nat)
      requires Valid() && p.asid_ix == 0
      modifies this`asidptr, this`live, this`spaces, asid_map, spaces, p
      ensures Valid() && spaces == old(spaces) + {p} && 0 < p.asid_ix == asidptr
      ensures forall q | q in old(spaces) && q != p ::
        q.asid_ix == old(q.asid_ix) || (q == old(asid_map[..])[asidptr] && q.asid_ix == 0 && old(Asid(q)) != ctx)
      ensures live == if old(asid_map[..])[asidptr] == null then old(live) + 1 else old(live)
    {
      var ptr, evicted := NextSlot(ctx);
      assert Slot(ptr);
      if evicted != null {
        evicted.asid_ix := 0;
      } else {
        live := live + 1;
      }
      asidptr := ptr;
      asid_map[ptr] := p;
      p.asid_ix := ptr;
      spaces := spaces + {p};
      forall i | 0 < i < SLOTS ensures Slot(i) {
        assert old(Slot(i));
      }
      forall q | q in spaces ensures Space(q) {
        if q != p { assert old(Space(q)); }
      }
    }

    /** The space in slot ptr moves to slot ix and takes its identifier along. */
    method MoveLast(last: Pmap, ix: nat, ptr: nat)
      requires asid_map.Length == asids.Length == SLOTS && ix < SLOTS && ptr < SLOTS && ix != ptr
      requires (forall i | 0 <= i < SLOTS :: asids[i] < SLOTS)
      requires forall i, j | 0 <= i < j < SLOTS :: asids[i] != asids[j]
      modifies asid_map, asids, last
      ensures last.asid_ix == ix && asid_map[..] == old(asid_map[..])[ix := last]
      ensures asids[..] == old(asids[..])[ix := old(asids[ptr])][ptr := old(asids[ix])]
      ensures (forall i | 0 <= i < SLOTS :: asids[i] < SLOTS)
      ensures forall i, j | 0 <= i < j < SLOTS :: asids[i] != asids[j]
    {
      asid_map[ix] := last;
      last.asid_ix := ix;
      var tmp := asids[last.asid_ix];
      asids[last.asid_ix] := asids[ptr];
      asids[ptr] := tmp;
    }

    /** Slot ptr is empty and the space that was there, unless it is p, has p's slot and its own identifier. */
    twostate lemma Settled(new p: Pmap, new last: Pmap, new ix: nat, new ptr: nat)
      requires old(Valid()) && spaces == old(spaces) && p in spaces && ptr == old(asidptr)
      requires SLOTS > ix == old(p.asid_ix) != 0
      requires asidptr == (if ptr == 1 then SLOTS - 1 else ptr - 1) && live == old(live) - 1
      requires last == old(asid_map[ptr])
      requires asid_map[..] == old(asid_map[..])[ix := last][ptr := null]
      requires asids[..] == old(asids[..])[ix := old(asids[ptr])][ptr := old(asids[ix])]
      requires forall q | q in spaces :: q.asid_ix == if q == p then 0 else if q == last then ix else old(q.asid_ix)
      ensures Valid()
      ensures forall q | q in spaces && q != p :: (q.asid_ix == 0 <==> old(q.asid_ix) == 0) && Asid(q) == old(Asid(q))
    {
      assert old(Space(p)) && old(Slot(ix)) && old(Slot(ptr));
      forall i | 0 <= i < SLOTS
        ensures asid_map[i] == if i == ptr then null else if i == ix then last else old(asid_map[i])
        ensures asids[i] == if i == ptr then old(asids[ix]) else if i == ix then old(asids[ptr]) else old(asids[i])
      {
        assert asid_map[i] == asid_map[..][i] && asids[i] == asids[..][i];
      }
      forall i | 0 < i < SLOTS ensures Slot(i) {
        assert old(Slot(i));
      }
      forall q | q in spaces ensures Space(q) {
        assert old(Space(q));
      }
    }

    /**
     _pmap_asidDealloc: p gives its identifier back, and every other address space keeps its own,
     though one may be moved to another slot.
     */
    method Dealloc(p: Pmap)
      requires Valid() && p in spaces
      modifies this`asidptr, this`live, asid_map, asids, spaces
      ensures Valid() && p.asid_ix == 0 && live == if old(p.asid_ix) == 0 then old(live) else old(live) - 1
      ensures forall q | q in spaces && q != p :: (q.asid_ix == 0 <==> old(q.asid_ix) == 0) && Asid(q) == old(Asid(q))
    {
      assert Space(p);
      if p.asid_ix != 0 {
        assert Slot(p.asid_ix) && Slot(asidptr);
        if p.asid_ix != asidptr {
          MoveLast(asid_map[asidptr], p.asid_ix, asidptr);
        }
        asid_map[asidptr] := null;
        asidptr := asidptr - 1;
        if asidptr == 0 {
          asidptr := SLOTS - 1;
        }
        p.asid_ix := 0;
        live := live - 1;
        Settled(p, old(asid_map[asidptr]), old(p.asid_ix), old(asidptr));
      }
    }
  }
}
