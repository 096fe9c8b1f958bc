/**
 Copy-on-write across fork (vm/amap.c, vm_mapCopy and _map_force in vm/map.c), with the eager
 setting and successful allocation.  Offsets and sizes are in pages.
 */
module Cow {
  import Kernel

  /** A reference-counted page of anonymous memory. */
  class Anon {
    const page: nat
    var refs: int

    constructor (page: nat)
      ensures this.page == page && refs == 1
    {
      this.page, refs := page, 1;
    }
  }

  class Amap {
    var anons: seq<Anon?>
    var refs: int

    constructor (anons: seq<Anon?>)
      ensures this.anons == anons && refs == 1
    {
      this.anons, refs := anons, 1;
    }
  }

  /** A map entry; backing lists the pages of the object behind it, and is empty for anonymous memory. */
  class Entry {
    const size: nat
    const writable: bool
    const backing: seq<nat>
    var amap: Amap?
    var aoffs: nat
    var needscopy: bool

    constructor (size: nat, writable: bool, backing: seq<nat>, amap: Amap?, aoffs: nat, needscopy: bool)
      ensures this.size == size && this.writable == writable && this.backing == backing
      ensures this.amap == amap && this.aoffs == aoffs && this.needscopy == needscopy
    {
      this.size, this.writable, this.backing := size, writable, backing;
      this.amap, this.aoffs, this.needscopy := amap, aoffs, needscopy;
    }
  }

  /** All the slots in all the tables. */
  ghost function All(ts: seq<seq<Anon?>>): multiset<Anon?> {
    if ts == [] then multiset{} else All(ts[..|ts| - 1]) + multiset(ts[|ts| - 1])
  }

  lemma {:induction false} AllSet(ts: seq<seq<Anon?>>, k: int, t: seq<Anon?>)
    requires 0 <= k < |ts|
    ensures multiset(ts[k]) <= All(ts) && All(ts[k := t]) == All(ts) - multiset(ts[k]) + multiset(t)
    decreases |ts|
  {
    var n := |ts| - 1;
    if k < n {
      AllSet(ts[..n], k, t);
      assert ts[k := t][..n] == ts[..n][k := t];
    } else {
      assert ts[k := t][..n] == ts[..n];
    }
  }

  /** A slot counts. */
  lemma AllSeen(ts: seq<seq<Anon?>>, k: int, i: int)
    requires 0 <= k < |ts| && 0 <= i < |ts[k]|
    ensures All(ts)[ts[k][i]] >= 1
  {
    AllSet(ts, k, ts[k]);
    assert ts[k][i] in multiset(ts[k]);
  }

  /** A part of a table holds an anon no more often than all of them do. */
  lemma AllPart(ts: seq<seq<Anon?>>, k: int, h: int, i: int, a: Anon?)
    requires 0 <= k < |ts| && 0 <= h <= i <= |ts[k]|
    ensures multiset(ts[k][h..i])[a] <= All(ts)[a]
  {
    AllSet(ts, k, []);
    MiddlePart(ts[k], h, i, a);
  }

  lemma MiddlePart(t: seq<Anon?>, h: int, i: int, a: Anon?)
    requires 0 <= h <= i <= |t|
    ensures multiset(t[h..i])[a] <= multiset(t)[a]
  {
    assert t == t[..h] + t[h..i] + t[i..];
  }

  /** The slots from lo up to hi of a table, if there is one. */
  ghost function Part(t: seq<Anon?>, lo: int, hi: int): (r: seq<Anon?>) {
    if 0 <= lo <= hi <= |t| then t[lo..hi] else []
  }

  lemma SliceOf(s: seq<Anon?>, o: nat, n: nat, lo: nat, hi: nat)
    requires o + n <= |s| && lo <= hi <= n
    ensures Part(s[o..o + n], lo, hi) == s[o + lo..o + hi]
  {
    var a, b := s[o..o + n][lo..hi], s[o + lo..o + hi];
    assert |a| == |b| == hi - lo;
    forall i | 0 <= i < hi - lo ensures a[i] == b[i] {
      assert s[o..o + n][lo + i] == s[o + lo + i];
    }
    assert a == b;
  }

  /** The tables after a cut. */
  ghost function TablesCut(ts: seq<seq<Anon?>>, k: int, n: nat, lo: nat, hi: nat, split: bool): seq<seq<Anon?>>
    requires 0 <= k < |ts|
  {
    ts[k := if lo == 0 then Part(ts[k], hi, n) else Part(ts[k], 0, lo)] + if split then [Part(ts[k], hi, n)] else []
  }

  /** A cut takes out the slots inside it. */
  lemma AllCut(ts: seq<seq<Anon?>>, k: int, n: nat, lo: nat, hi: nat, split: bool, a: Anon)
    requires 0 <= k < |ts| && lo < hi <= n && (ts[k] == [] || |ts[k]| == n)
    requires (lo == 0 ==> !split) && (lo > 0 && !split ==> hi == n)
    ensures All(TablesCut(ts, k, n, lo, hi, split))[a] + multiset(Part(ts[k], lo, hi))[a] == All(ts)[a]
  {
    var u := if lo == 0 then Part(ts[k], hi, n) else Part(ts[k], 0, lo);
    AllSet(ts, k, u);
    PartCounts(ts[k], n, lo, hi, a);
    if split {
      AllJoin(ts[k := u], [Part(ts[k], hi, n)]);
      AllOne(Part(ts[k], hi, n));
    } else {
      assert ts[k := u] + [] == ts[k := u];
    }
  }

  lemma AllOne(t: seq<Anon?>)
    ensures All([t]) == multiset(t)
  {
    assert [t][..0] == [];
  }

  /** A table is the parts before, inside and behind a cut. */
  lemma PartCounts(t: seq<Anon?>, n: nat, lo: nat, hi: nat, a: Anon)
    requires lo < hi <= n && (t == [] || |t| == n)
    ensures multiset(t)[a] == multiset(Part(t, 0, lo))[a] + multiset(Part(t, lo, hi))[a] + multiset(Part(t, hi, n))[a]
  {
    if t != [] { assert t == t[0..lo] + t[lo..hi] + t[hi..n]; }
  }

  /** Two slots with the same anon count twice. */
  lemma AllTwice(ts: seq<seq<Anon?>>, k: int, i: int, l: int, j: int)
    requires 0 <= k < |ts| && 0 <= i < |ts[k]| && 0 <= l < |ts| && 0 <= j < |ts[l]| && (k != l || i != j)
    requires ts[k][i] == ts[l][j] != null
    ensures All(ts)[ts[k][i]] >= 2
  {
    var t := ts[k][i := null];
    var us := ts[k := t];
    AllSet(ts, k, t);
    assert us[l][j] == ts[l][j];
    AllSeen(us, l, j);
  }

  lemma AllSlot(ts: seq<seq<Anon?>>, k: int, i: int, b: Anon?, x: Anon?)
    requires 0 <= k < |ts| && 0 <= i < |ts[k]|
    ensures All(ts[k := ts[k][i := b]])[x] + (if x == ts[k][i] then 1 else 0) == All(ts)[x] + (if x == b then 1 else 0)
  {
    AllSet(ts, k, ts[k][i := b]);
    assert multiset(ts[k][i := b]) == multiset(ts[k]) - multiset{ts[k][i]} + multiset{b};
    assert ts[k][i] in multiset(ts[k]);
  }

  lemma {:induction false} AllNone(ts: seq<seq<Anon?>>, b: Anon)
    requires forall l, j | 0 <= l < |ts| && 0 <= j < |ts[l]| :: ts[l][j] != b
    ensures All(ts)[b] == 0
    decreases |ts|
  {
    if ts != [] {
      AllNone(ts[..|ts| - 1], b);
      assert b !in ts[|ts| - 1];
    }
  }

  lemma {:induction false} AllJoin(ts: seq<seq<Anon?>>, us: seq<seq<Anon?>>)
    ensures All(ts + us) == All(ts) + All(us)
    decreases |us|
  {
    if us == [] {
      assert ts + us == ts;
    } else {
      AllJoin(ts, us[..|us| - 1]);
      assert (ts + us)[..|ts + us| - 1] == ts + us[..|us| - 1];
    }
  }

  lemma AllWithout(a: seq<seq<Anon?>>, t: seq<Anon?>, b: seq<seq<Anon?>>)
    ensures multiset(t) <= All(a + [t] + b) && All(a + b) == All(a + [t] + b) - multiset(t)
  {
    AllJoin(a + [t], b);
    AllJoin(a, b);
    assert (a + [t])[..|a|] == a;
    Regroup(All(a), All(b), multiset(t));
  }

  lemma AroundOne(ts: seq<seq<Anon?>>, k: int)
    requires 0 <= k < |ts|
    ensures ts[..k] + [ts[k]] + ts[k + 1..] == ts
  {
  }

  /** Taking out a table takes out its slots. */
  lemma AllDrop(ts: seq<seq<Anon?>>, k: int)
    requires 0 <= k < |ts|
    ensures multiset(ts[k]) <= All(ts) && All(ts[..k] + ts[k + 1..]) == All(ts) - multiset(ts[k])
  {
    AroundOne(ts, k);
    AllWithout(ts[..k], ts[k], ts[k + 1..]);
  }

  lemma Regroup(a: multiset<Anon?>, b: multiset<Anon?>, m: multiset<Anon?>)
    ensures m <= a + m + b && a + b == a + m + b - m
  {
  }

  lemma OwnerDrop(o: seq<Amap?>, k: int, x: Amap)
    requires 0 <= k < |o|
    ensures multiset(o[..k] + o[k + 1..])[x] + (if x == o[k] then 1 else 0) == multiset(o)[x]
  {
    assert o == o[..k] + [o[k]] + o[k + 1..];
  }

  /** Slots that differ from one another count once each. */
  lemma {:induction false} OnceEach(t: seq<Anon?>, a: Anon)
    requires forall i, j | 0 <= i < j < |t| :: t[i] != t[j]
    ensures multiset(t)[a] == if a in t then 1 else 0
    decreases |t|
  {
    if t != [] {
      var n := |t| - 1;
      OnceEach(t[..n], a);
      assert t == t[..n] + [t[n]];
    }
  }

  /** Empty slots in place of none change no count. */
  lemma AllRenewed(ts: seq<seq<Anon?>>, k: int, t: seq<Anon?>, a: Anon)
    requires 0 <= k < |ts| && (t == ts[k] || (ts[k] == [] && forall i | 0 <= i < |t| :: t[i] == null))
    ensures All(ts[k := t])[a] == All(ts)[a]
  {
    AllSet(ts, k, t);
    if t == ts[k] {
      assert ts[k := t] == ts;
    } else {
      assert a !in t;
    }
  }

  /** The number of entries that use x, when entry k turns from one amap to another. */
  lemma OwnerSet(o: seq<Amap?>, k: int, m: Amap?, x: Amap?)
    requires 0 <= k < |o|
    ensures multiset(o[k := m])[x] == multiset(o)[x] - (if x == o[k] then 1 else 0) + (if x == m then 1 else 0)
  {
    assert multiset(o[k := m]) == multiset(o) - multiset{o[k]} + multiset{m};
    assert o[k] in multiset(o);
  }

  lemma FirstFew(t: seq<Anon?>, i: int, a: Anon)
    requires 0 <= i <= |t|
    ensures multiset(t[..i])[a] <= multiset(t)[a]
  {
    assert t == t[..i] + t[i..];
  }

  lemma OneLonger(t: seq<Anon?>, i: int, a: Anon)
    requires 0 <= i < |t|
    ensures multiset(t[..i + 1])[a] == multiset(t[..i])[a] + if a == t[i] then 1 else 0
  {
    assert t[..i + 1] == t[..i] + [t[i]];
  }

  /** As many references to a are given back as t holds, and it is freed with the last of all. */
  ghost predicate Paid(refs: map<Anon, int>, a: Anon, t: seq<Anon?>, freed: seq<Anon>)
    reads a`refs
  {
    a in refs && a.refs == refs[a] - multiset(t)[a] && (a in freed <==> multiset(t)[a] > 0 && a.refs == 0)
  }

  lemma PaidOff(refs: map<Anon, int>, a: Anon, t: seq<Anon?>, freed: seq<Anon>)
    requires Paid(refs, a, t, freed)
    ensures a.refs == refs[a] - multiset(t)[a] && (a in freed <==> a in t && a.refs == 0)
  {
  }

  /** amap_putanon, for slot i of a table t. */
  method PutAnon(a: Anon?, freed0: seq<Anon>, ghost anons: set<Anon>, ghost refs: map<Anon, int>, ghost t: seq<Anon?>,
      ghost i: nat) returns (freed: seq<Anon>)
    requires i < |t| && t[i] == a && forall x | x in freed0 :: x in anons
    requires forall x {:trigger Paid(refs, x, t[..i], freed0)} | x in anons :: Paid(refs, x, t[..i], freed0)
    requires a != null ==> a in anons && a in refs && multiset(t[..i + 1])[a] <= refs[a]
    modifies (if a == null then {} else {a})`refs
    ensures forall x | x in freed :: x in anons
    ensures forall x {:trigger Paid(refs, x, t[..i + 1], freed)} | x in anons :: Paid(refs, x, t[..i + 1], freed)
  {
    freed := freed0;
    if a != null {
      assert Paid(refs, a, t[..i], freed0);
      OneLonger(t, i, a);
      a.refs := a.refs - 1;
      if a.refs == 0 {
        freed := freed + [a];
      }
    }
    forall x | x in anons ensures Paid(refs, x, t[..i + 1], freed) {
      assert old(Paid(refs, x, t[..i], freed0));
      OneLonger(t, i, x);
    }
  }

  class Vm {
    var mem: map<nat, nat>  // the contents of each page
    var unused: nat         // pages from here on are not in use
    var entries: seq<Entry>
    ghost var amaps: set<Amap>
    ghost var anons: set<Anon>
    ghost var files: set<nat>             // pages of objects
    ghost var tables: seq<seq<Anon?>>     // the slots each entry covers
    ghost var owners: seq<Amap?>          // the amap of each entry

    constructor ()
      ensures Valid() && entries == [] && amaps == {} && anons == {}
    {
      mem, unused, entries := map[], 0, [];
      amaps, anons, files, tables, owners := {}, {}, {}, [], [];
    }

    /** Entry k covers slots of its amap; anonymous memory is there from the start. */
    ghost predicate EntryOk(k: int)
      requires 0 <= k < |entries| && |tables| == |owners| == |entries|
      reads this, entries, amaps
    {
      var e := entries[k];
      && owners[k] == e.amap && (e.needscopy ==> e.writable)
      && (e.backing != [] ==> |e.backing| == e.size && forall i | 0 <= i < e.size :: e.backing[i] in files)
      && (e.amap == null ==> tables[k] == [] && e.backing != [])
      && (e.amap != null ==>
        e.amap in amaps && e.aoffs + e.size <= |e.amap.anons| && tables[k] == e.amap.anons[e.aoffs..e.aoffs + e.size])
      && (e.backing == [] ==> |tables[k]| == e.size && forall i | 0 <= i < e.size :: tables[k][i] != null)
      && (forall i | 0 <= i < |tables[k]| && tables[k][i] != null :: tables[k][i] in anons)
    }

    /** The references of an anon are the slots, covered by some entry, that hold it; its page is its own. */
    ghost predicate AnonOk(a: Anon)
      reads this, a
    {
      a.refs == All(tables)[a] && a.page in mem && a.page < unused && a.page !in files
    }

    /** The references of an amap are the entries that use it. */
    ghost predicate AmapOk(m: Amap)
      reads this, m
    {
      m.refs == multiset(owners)[m]
    }

    /** Two entries cover the same slot only if neither is written to before it has got an amap of its own. */
    ghost predicate Apart(k: int, l: int)
      requires 0 <= k < |entries| && 0 <= l < |entries|
      reads this, entries
    {
      var e, f := entries[k], entries[l];
      e.amap == f.amap != null ==>
        e.aoffs + e.size <= f.aoffs || f.aoffs + f.size <= e.aoffs || (!e.writable && !f.writable)
          || (e.needscopy && f.needscopy)
    }

    ghost predicate Valid()
      reads this, entries, amaps, anons
    {
      && |tables| == |owners| == |entries|
      && (forall k, l | 0 <= k < l < |entries| :: entries[k] != entries[l])
      && (forall k {:trigger EntryOk(k)} | 0 <= k < |entries| :: EntryOk(k))
      && (forall a {:trigger AnonOk(a)} | a in anons :: AnonOk(a))
      && (forall m {:trigger AmapOk(m)} | m in amaps :: AmapOk(m))
      && (forall k, l {:trigger Apart(k, l)} | 0 <= k < |entries| && 0 <= l < |entries| && k != l :: Apart(k, l))
      && (forall a, b | a in anons && b in anons && a != b :: a.page != b.page)
      && (forall p | p in files :: p in mem && p < unused)
    }

    /** An anon is behind page i of entry k. */
    ghost predicate HasAnon(k: int, i: int)
      requires 0 <= k < |tables|
      reads this
    {
      0 <= i < |tables[k]| && tables[k][i] != null
    }

    /** Page i of the object behind an entry. */
    ghost function Behind(e: Entry, i: int): nat {
      if 0 <= i < |e.backing| then e.backing[i] else 0
    }

    /** The page entry k shows at offset i. */
    ghost function PageAt(k: int, i: int): nat
      requires 0 <= k < |entries| && |tables| == |entries|
      reads this, entries
    {
      Shows(tables[k], entries[k], i)
    }

    ghost function Shows(t: seq<Anon?>, e: Entry, i: int): nat {
      if 0 <= i < |t| && t[i] != null then t[i].page else Behind(e, i)
    }

    /** What it shows there. */
    ghost function View(k: int, i: int): nat
      requires 0 <= k < |entries| && |tables| == |entries|
      reads this, entries
    {
      if PageAt(k, i) in mem then mem[PageAt(k, i)] else 0
    }

    /** Entry k has offset i to itself: nobody else refers to the page. */
    ghost predicate Private(k: int, i: int)
      requires 0 <= k < |entries| && |tables| == |entries|
      reads this, entries, anons
    {
      0 <= i < |tables[k]| && tables[k][i] != null && tables[k][i] in anons && tables[k][i].refs == 1
        && !entries[k].needscopy
    }

    /** Any other place shows another page. */
    lemma Alone(k: int, i: int, l: int, j: int)
      requires Valid() && 0 <= k < |entries| && Private(k, i) && 0 <= l < |entries| && 0 <= j < entries[l].size
      requires (l != k || j != i)
      ensures PageAt(l, j) != PageAt(k, i)
    {
      var a := tables[k][i];
      assert EntryOk(k) && EntryOk(l) && AnonOk(a);
      if 0 <= j < |tables[l]| && tables[l][j] != null {
        if tables[l][j] == a { AllTwice(tables, k, i, l, j); }
      }
    }

    /** A write through entry k where it is private is seen there and nowhere else. */
    method Write(k: nat, i: nat, v: nat)
      requires Valid() && k < |entries| && i < entries[k].size && Private(k, i)
      modifies this`mem
      ensures Valid() && View(k, i) == v
      ensures forall l, j | 0 <= l < |entries| && 0 <= j < entries[l].size && (l != k || j != i) ::
        View(l, j) == old(View(l, j))
    {
      assert EntryOk(k);
      var a := entries[k].amap.anons[entries[k].aoffs + i];
      assert a == tables[k][i] && AnonOk(a);
      forall l, j | 0 <= l < |entries| && 0 <= j < entries[l].size && (l != k || j != i)
        ensures PageAt(l, j) != a.page {
        Alone(k, i, l, j);
      }
      mem := mem[a.page := v];
      forall b | b in anons ensures AnonOk(b) { assert old(AnonOk(b)); }
      forall l | 0 <= l < |entries| ensures EntryOk(l) { assert old(EntryOk(l)); }
      forall m | m in amaps ensures AmapOk(m) { assert old(AmapOk(m)); }
      forall l, m | 0 <= l < |entries| && 0 <= m < |entries| && l != m ensures Apart(l, m) { assert old(Apart(l, m)); }
    }

    /** An amap with one reference has one entry. */
    lemma Sole(k: int, l: int)
      requires Valid() && 0 <= k < |entries| && 0 <= l < |entries| && k != l && entries[k].amap != null
      requires entries[k].amap.refs == 1
      ensures entries[l].amap != entries[k].amap
    {
      assert EntryOk(k) && EntryOk(l) && AmapOk(entries[k].amap);
      OwnerSet(owners, k, null, owners[k]);
      var rest := owners[k := null];
      assert rest[l] in multiset(rest);
    }

    /** An entry nothing happened to, now at place l, is as right as before. */
    twostate lemma SameOk(new l: int, new m: int)
      requires 0 <= m < |old(entries)| == |old(tables)| == |old(owners)| && old(EntryOk(m))
      requires 0 <= l < |entries| == |tables| == |owners| && entries[l] == old(entries)[m] && unchanged(old(entries)[m])
      requires tables[l] == old(tables)[m] && owners[l] == old(owners)[m]
      requires old(amaps) <= amaps && old(anons) <= anons && old(files) <= files
      requires forall x | x in old(amaps) :: x.anons == old(x.anons)
      ensures EntryOk(l)
    {
    }

    /** The anons of a new amap: the covered slots of the old one, if there was one, and room to grow. */
    method NewAnons(e: Entry) returns (s: seq<Anon?>)
      requires e.amap != null ==> e.aoffs + e.size <= |e.amap.anons|
      ensures |s| >= e.size
      ensures s[..e.size] == if e.amap == null then seq(e.size, i => null) else e.amap.anons[e.aoffs..e.aoffs + e.size]
    {
      var n := if e.size < Kernel.AMAP_CHUNK then Kernel.AMAP_CHUNK else e.size;
      if e.amap == null {
        s := seq(n, i => null);
      } else {
        s := e.amap.anons[e.aoffs..e.aoffs + e.size] + seq(n - e.size, i => null);
      }
    }

    /** The slots of entry k after amap_create. */
    ghost function Renewed(k: int): seq<Anon?>
      requires 0 <= k < |entries| && |tables| == |entries|
      reads this, entries
    {
      if entries[k].amap == null then seq(entries[k].size, i => null) else tables[k]
    }

    /** amap_create, and the end of MAP_NEEDSCOPY: entry k has an amap that no other entry uses, with the same slots. */
    method OwnAmap(k: nat)
      requires Valid() && k < |entries|
      modifies this`amaps, this`owners, this`tables, amaps`refs, entries[k]
      ensures Valid() && entries[k].amap != null && !entries[k].needscopy && tables == old(tables)[k := old(Renewed(k))]
      ensures anons == old(anons) && forall l, j | 0 <= l < |entries| :: PageAt(l, j) == old(PageAt(l, j))
      ensures (entries[k].amap in old(amaps) || fresh(entries[k].amap)) && fresh(amaps - old(amaps))
      ensures forall l | 0 <= l < |entries| && l != k :: entries[l].amap != entries[k].amap
    {
      var e := entries[k];
      assert EntryOk(k);
      if e.amap != null && e.amap.refs == 1 {
        forall l | 0 <= l < |entries| && l != k ensures entries[l].amap != e.amap { Sole(k, l); }
        e.needscopy := false;
        tables := tables[k := tables[k]];
        Kept(k);
      } else {
        var s := NewAnons(e);
        var m := new Amap(s);
        Replace(k, m);
      }
    }

    /** Entry k drops its amap for m, which has the same slots. */
    method Replace(k: nat, m: Amap)
      requires Valid() && k < |entries| && m !in amaps && m.refs == 1 && |m.anons| >= entries[k].size
      requires m.anons[..entries[k].size] == Renewed(k)
      requires forall l | 0 <= l < |entries| :: entries[l].amap != m
      modifies this`amaps, this`owners, this`tables, amaps`refs, entries[k]
      ensures Valid() && entries[k].amap == m && !entries[k].needscopy && tables == old(tables)[k := old(Renewed(k))]
      ensures amaps == old(amaps) + {m}
    {
      var e := entries[k];
      assert EntryOk(k);
      if e.amap != null {
        assert AmapOk(e.amap);
        e.amap.refs := e.amap.refs - 1;
      }
      tables := tables[k := Renewed(k)];
      e.amap, e.aoffs, e.needscopy := m, 0, false;
      owners := owners[k := m];
      amaps := amaps + {m};
      Replaced(k, m);
    }

    twostate lemma Replaced(new k: nat, new m: Amap)
      requires old(Valid()) && k < |entries| && entries == old(entries) && m !in old(amaps)
      requires amaps == old(amaps) + {m} && m.refs == 1
      requires anons == old(anons) && files == old(files) && mem == old(mem) && unused == old(unused)
      requires forall l | 0 <= l < |old(entries)| :: old(entries[l].amap) != m
      requires var e := entries[k];
        e.amap == m && e.aoffs == 0 && !e.needscopy && |m.anons| >= e.size && m.anons[..e.size] == old(Renewed(k))
      requires tables == old(tables)[k := old(Renewed(k))] && owners == old(owners)[k := m]
      requires forall x | x in old(amaps) ::
        x.anons == old(x.anons) && x.refs == if x == old(entries[k].amap) then old(x.refs) - 1 else old(x.refs)
      requires forall l | 0 <= l < |entries| && l != k :: unchanged(entries[l])
      requires forall a | a in anons :: unchanged(a)
      ensures Valid()
    {
      assert old(EntryOk(k));
      forall l | 0 <= l < |entries| ensures EntryOk(l) { assert old(EntryOk(l)); }
      forall a | a in anons ensures AnonOk(a) {
        assert old(AnonOk(a));
        AllRenewed(old(tables), k, old(Renewed(k)), a);
      }
      forall l | 0 <= l < |old(owners)| ensures old(owners)[l] != m { assert old(EntryOk(l)); }
      forall x | x in amaps ensures AmapOk(x) {
        OwnerSet(old(owners), k, m, x);
        if x != m { assert old(AmapOk(x)); }
      }
      ReplacedApart(k, m);
    }

    twostate lemma ReplacedApart(new k: nat, new m: Amap)
      requires old(Valid()) && k < |entries| && entries == old(entries) && entries[k].amap == m
      requires forall l | 0 <= l < |entries| && l != k :: unchanged(entries[l]) && entries[l].amap != m
      ensures forall i, j {:trigger Apart(i, j)} | 0 <= i < |entries| && 0 <= j < |entries| && i != j :: Apart(i, j)
    {
      forall i, j | 0 <= i < |entries| && 0 <= j < |entries| && i != j ensures Apart(i, j) {
        assert old(Apart(i, j));
      }
    }

    /** Entry k, the only one to use its amap, is no longer marked. */
    twostate lemma Kept(new k: nat)
      requires old(Valid()) && k < |entries| && entries == old(entries) && amaps == old(amaps) && anons == old(anons)
      requires files == old(files)
      requires mem == old(mem) && unused == old(unused) && tables == old(tables) && owners == old(owners)
      requires forall x | x in amaps :: unchanged(x)
      requires forall a | a in anons :: unchanged(a)
      requires forall l | 0 <= l < |entries| && l != k :: unchanged(entries[l]) && entries[l].amap != entries[k].amap
      requires entries[k].amap == old(entries[k].amap) && entries[k].aoffs == old(entries[k].aoffs)
      requires !entries[k].needscopy
      ensures Valid()
    {
      forall l | 0 <= l < |entries| ensures EntryOk(l) { assert old(EntryOk(l)); }
      forall a | a in anons ensures AnonOk(a) { assert old(AnonOk(a)); }
      forall x | x in amaps ensures AmapOk(x) { assert old(AmapOk(x)); }
      forall i, j | 0 <= i < |entries| && 0 <= j < |entries| && i != j ensures Apart(i, j) { assert old(Apart(i, j)); }
    }

    /** The copy amap_page makes goes into the slot. */
    method PutCopy(e: Entry, i: nat, from: nat) returns (b: Anon)
      requires e.amap != null && e.aoffs + i < |e.amap.anons| && from in mem
      modifies this`mem, this`unused, this`anons, e.amap`anons
      ensures fresh(b) && b.refs == 1 && b.page == old(unused) && unused == old(unused) + 1
      ensures mem == old(mem)[b.page := old(mem)[from]]
      ensures anons == old(anons) + {b} && e.amap.anons == old(e.amap.anons)[e.aoffs + i := b]
    {
      b := new Anon(unused);
      mem := mem[unused := mem[from]];
      unused := unused + 1;
      anons := anons + {b};
      e.amap.anons := e.amap.anons[e.aoffs + i := b];
    }

    /**
     amap_page for writing: a page that others refer to, or that belongs to the object, is copied; nobody
     sees a difference.
     */
    method CopyPage(k: nat, i: nat)
      requires Valid() && k < |entries| && i < entries[k].size && entries[k].amap != null && !entries[k].needscopy
      requires entries[k].writable
      modifies this`mem, this`unused, this`anons, this`tables, entries[k].amap`anons, anons`refs
      ensures Valid() && Private(k, i) && fresh(anons - old(anons))
      ensures forall l, j | 0 <= l < |entries| && 0 <= j < entries[l].size :: View(l, j) == old(View(l, j))
      ensures forall l, j | 0 <= l < |entries| && 0 <= j < entries[l].size && old(Private(l, j)) :: Private(l, j)
    {
      var e := entries[k];
      assert EntryOk(k);
      var a := e.amap.anons[e.aoffs + i];
      assert a == tables[k][i];
      if a != null {
        assert AnonOk(a);
        AllSeen(tables, k, i);
        if a.refs <= 1 {
          return;
        }
        a.refs := a.refs - 1;
      }
      var b := PutCopy(e, i, if a != null then a.page else e.backing[i]);
      tables := tables[k := tables[k][i := b]];
      PageKnown(k, i);
      Copied(k, i, b);
      CopiedViews(k, i, b);
    }

    /** What is so after a copy. */
    twostate predicate CopyMade(new k: nat, new i: nat, new b: Anon)
      reads this, entries, amaps, anons
    {
      && k < |entries| && entries == old(entries) && b !in old(anons) && anons == old(anons) + {b} && b.refs == 1
        && b.page == old(unused)
      && k < |old(tables)| && i < |old(tables)[k]| && tables == old(tables)[k := old(tables)[k][i := b]]
      && owners == old(owners) && amaps == old(amaps) && files == old(files) && unused == old(unused) + 1
      && (forall l | 0 <= l < |entries| :: unchanged(entries[l]))
      && (forall x | x in amaps && x != entries[k].amap :: unchanged(x))
      && (forall x | x in old(anons) :: x.refs == if x == old(tables)[k][i] then old(x.refs) - 1 else old(x.refs))
      && (old(tables)[k][i] != null ==> old(tables)[k][i] in old(anons) && old(tables[k][i].refs) > 1)
      && (forall p | p in old(mem) :: p in mem && (p != b.page ==> mem[p] == old(mem)[p])) && b.page in mem
    }

    twostate lemma Copied(new k: nat, new i: nat, new b: Anon)
      requires old(Valid()) && CopyMade(k, i, b)
      requires var e := entries[k]; e.amap != null && e.writable && !e.needscopy && e.aoffs + i < |old(e.amap.anons)|
      requires var m := entries[k].amap; m.refs == old(m.refs) && m.anons == old(m.anons)[entries[k].aoffs + i := b]
      ensures Valid()
    {
      CopiedAnons(k, i, b);
      CopiedEntries(k, i, b);
      forall x | x in amaps ensures AmapOk(x) { assert old(AmapOk(x)); }
      forall l, j | 0 <= l < |entries| && 0 <= j < |entries| && l != j ensures Apart(l, j) { assert old(Apart(l, j)); }
    }

    /** The slot counts for the copy now. */
    twostate lemma CopiedAnons(new k: nat, new i: nat, new b: Anon)
      requires old(Valid()) && CopyMade(k, i, b)
      ensures forall x {:trigger AnonOk(x)} | x in anons :: AnonOk(x)
      ensures forall x | x in old(anons) :: x.page != b.page
    {
      forall l, j | 0 <= l < |old(tables)| && 0 <= j < |old(tables)[l]| ensures old(tables)[l][j] != b
        { assert old(EntryOk(l)); }
      AllNone(old(tables), b);
      forall x | x in anons ensures AnonOk(x) {
        if x != b { assert old(AnonOk(x)); }
        AllSlot(old(tables), k, i, b, x);
      }
      forall x | x in old(anons) ensures x.page != b.page { assert old(AnonOk(x)); }
    }

    /** Other entries that use the same amap do not cover the slot. */
    twostate lemma CopiedEntries(new k: nat, new i: nat, new b: Anon)
      requires old(Valid()) && CopyMade(k, i, b)
      requires var e := entries[k]; e.amap != null && e.writable && !e.needscopy && e.aoffs + i < |old(e.amap.anons)|
      requires var m := entries[k].amap; m.anons == old(m.anons)[entries[k].aoffs + i := b]
      ensures |tables| == |owners| == |entries| && forall l {:trigger EntryOk(l)} | 0 <= l < |entries| :: EntryOk(l)
    {
      assert old(EntryOk(k));
      forall l | 0 <= l < |entries| ensures EntryOk(l) {
        assert old(EntryOk(l));
        if l != k { assert old(Apart(k, l)); }
      }
    }

    twostate lemma CopiedViews(new k: nat, new i: nat, new b: Anon)
      requires old(Valid()) && CopyMade(k, i, b) && i < entries[k].size && b.page == old(unused)
      requires old(PageAt(k, i)) in old(mem) && mem[b.page] == old(mem)[old(PageAt(k, i))]
      ensures forall l, j | 0 <= l < |entries| && 0 <= j < entries[l].size :: View(l, j) == old(View(l, j))
      ensures forall l, j | 0 <= l < |entries| && 0 <= j < entries[l].size
        && (old(Private(l, j)) || (l == k && j == i && !entries[k].needscopy)) :: Private(l, j)
    {
      forall l, j | 0 <= l < |entries| && 0 <= j < entries[l].size
        ensures View(l, j) == old(View(l, j))
        ensures (old(Private(l, j)) || (l == k && j == i && !entries[k].needscopy) ==> Private(l, j))
      {
        PageKnown(l, j);
      }
    }

    /** Every place shows a page that exists. */
    twostate lemma PageKnown(new l: int, new j: int)
      requires old(Valid()) && 0 <= l < |old(entries)| && 0 <= j < old(entries)[l].size
      ensures old(PageAt(l, j)) in old(mem) && old(PageAt(l, j)) < old(unused)
    {
      assert old(EntryOk(l));
      if j < |old(tables)[l]| && old(tables)[l][j] != null {
        assert old(AnonOk(tables[l][j]));
      }
    }

    /**
     _map_force with the protection of the entry: an entry marked for copying gets pages of its own;
     nobody sees a difference.
     */
    method Force(k: nat, i: nat)
      requires Valid() && k < |entries| && i < entries[k].size
      modifies this`mem, this`unused, this`anons, this`tables, this`amaps, this`owners, amaps, entries[k], anons`refs
      ensures Valid() && entries == old(entries) && !entries[k].needscopy && fresh(anons - old(anons))
      ensures fresh(amaps - old(amaps))
      ensures forall l, j | 0 <= l < |entries| && 0 <= j < entries[l].size :: View(l, j) == old(View(l, j))
      ensures forall l, j | 0 <= l < |entries| && 0 <= j < entries[l].size && old(Private(l, j)) :: Private(l, j)
      ensures old(entries[k].needscopy) || (entries[k].writable && old(entries[k].amap) != null) ==> Private(k, i)
      ensures old(entries[k].needscopy) || old(entries[k].amap) != null ==> entries[k].amap != null
    {
      assert EntryOk(k);
      Unmark(k);
      label O:
      if entries[k].writable && entries[k].amap != null {
        CopyPage(k, i);
        assert forall l, j | 0 <= l < |entries| && 0 <= j < entries[l].size :: View(l, j) == old@O(View(l, j));
      }
    }

    /** The first part of _map_force: an entry marked for copying gets an amap of its own. */
    method Unmark(k: nat)
      requires Valid() && k < |entries|
      modifies this`tables, this`amaps, this`owners, amaps`refs, entries[k]
      ensures Valid() && !entries[k].needscopy && fresh(amaps - old(amaps))
      ensures forall l, j | 0 <= l < |entries| && 0 <= j < entries[l].size :: View(l, j) == old(View(l, j))
      ensures forall l, j | 0 <= l < |entries| && 0 <= j < entries[l].size && old(Private(l, j)) :: Private(l, j)
      ensures old(entries[k].needscopy) || old(entries[k].amap) != null ==> entries[k].amap != null
      ensures old(entries[k].amap) == null && !old(entries[k].needscopy) ==> entries[k].amap == null
      ensures entries[k].amap != null ==> entries[k].amap in old(amaps) || fresh(entries[k].amap)
    {
      var e := entries[k];
      assert EntryOk(k);
      if e.writable && e.needscopy {
        OwnAmap(k);
      }
    }

    /** amap_getanons over the slots of entry k. */
    method GetAnons(k: nat)
      requires Valid() && k < |entries|
      modifies anons`refs
      ensures forall a | a in anons :: a.refs == old(a.refs) + multiset(tables[k])[a]
    {
      assert EntryOk(k);
      var e := entries[k];
      if e.amap != null {
        ghost var t := tables[k];
        for i := 0 to e.size
          invariant forall a | a in anons :: a.refs == old(a.refs) + multiset(t[..i])[a]
        {
          assert t[..i + 1] == t[..i] + [t[i]];
          var a := e.amap.anons[e.aoffs + i];
          assert a == t[i];
          if a != null {
            a.refs := a.refs + 1;
          }
        }
        assert t[..e.size] == t;
      }
    }

    /** Parent's and child's entry after the first part of vm_mapCopy. */
    ghost predicate Twins(e: Entry, f: Entry)
      reads e, f
    {
      && f.size == e.size && f.writable == e.writable && f.backing == e.backing && f.amap == e.amap
        && f.aoffs == e.aoffs
      && f.needscopy == e.needscopy == e.writable
    }

    /** hal_memcpy of the entry, amap_ref, and the marks on both. */
    method Duplicate(e: Entry) returns (f: Entry)
      modifies e, e.amap
      ensures fresh(f) && Twins(e, f) && e.amap == old(e.amap) && e.aoffs == old(e.aoffs)
      ensures e.amap != null ==> e.amap.refs == old(e.amap.refs) + 1 && e.amap.anons == old(e.amap.anons)
    {
      if e.amap != null {
        e.amap.refs := e.amap.refs + 1;
      }
      e.needscopy := e.writable;
      f := new Entry(e.size, e.writable, e.backing, e.amap, e.aoffs, e.needscopy);
    }

    /** The first part of vm_mapCopy for an entry: the child has one like it, with the same amap and the same anons. */
    method Share(k: nat)
      requires Valid() && k < |entries|
      modifies this`entries, this`tables, this`owners, anons`refs, amaps, entries[k]
      ensures Valid() && |entries| == |old(entries)| + 1 && entries[..|old(entries)|] == old(entries)
      ensures Twins(entries[k], entries[|old(entries)|])
      ensures forall l, j | 0 <= l < |old(entries)| && 0 <= j < entries[l].size :: View(l, j) == old(View(l, j))
      ensures forall j | 0 <= j < entries[k].size :: View(|old(entries)|, j) == old(View(k, j))
      ensures forall l, j | 0 <= l < |old(entries)| && l != k && 0 <= j < entries[l].size && old(Private(l, j)) ::
        Private(l, j)
      ensures amaps == old(amaps) && anons == old(anons) && fresh(entries[|old(entries)|])
    {
      var f := ShareAll(k);
      Shared(k, f);
      SharedViews(k, f);
    }

    method ShareAll(k: nat) returns (f: Entry)
      requires Valid() && k < |entries|
      modifies this`entries, this`tables, this`owners, anons`refs, amaps, entries[k]
      ensures fresh(f) && ShareMade(k, f)
    {
      assert EntryOk(k);
      GetAnons(k);
      f := Duplicate(entries[k]);
      entries := entries + [f];
      tables := tables + [tables[k]];
      owners := owners + [entries[k].amap];
    }

    /** What is so after entry k is shared by f. */
    twostate predicate ShareMade(new k: nat, new f: Entry)
      reads this, entries, amaps, anons, f
    {
      && k < |old(entries)| == |old(tables)| == |old(owners)| && f !in old(entries) && entries == old(entries) + [f]
      && tables == old(tables) + [old(tables)[k]] && owners == old(owners) + [old(owners)[k]]
      && amaps == old(amaps) && anons == old(anons) && files == old(files) && mem == old(mem) && unused == old(unused)
      && (forall x | x in amaps ::
        x.anons == old(x.anons) && x.refs == if x == old(owners)[k] then old(x.refs) + 1 else old(x.refs))
      && (forall a | a in anons :: a.refs == old(a.refs) + multiset(old(tables)[k])[a])
      && (forall l | 0 <= l < |old(entries)| && l != k :: unchanged(entries[l]))
      && entries[k].amap == old(entries[k].amap) && entries[k].aoffs == old(entries[k].aoffs) && Twins(entries[k], f)
    }

    twostate lemma SharedViews(new k: nat, new f: Entry)
      requires old(Valid()) && ShareMade(k, f)
      ensures forall l, j | 0 <= l < |old(entries)| && 0 <= j < entries[l].size :: View(l, j) == old(View(l, j))
      ensures forall j | 0 <= j < entries[k].size :: View(|old(entries)|, j) == old(View(k, j))
      ensures forall l, j | 0 <= l < |old(entries)| && l != k && 0 <= j < entries[l].size && old(Private(l, j)) ::
        Private(l, j)
    {
      forall l, j | 0 <= l < |old(entries)| && l != k && 0 <= j < entries[l].size && old(Private(l, j))
        ensures Private(l, j) {
        NotHere(l, j, k);
      }
    }

    /** A private page is in no slot of another entry. */
    twostate lemma NotHere(new l: int, new j: int, new k: int)
      requires old(Valid()) && 0 <= l < |old(entries)| && old(Private(l, j)) && 0 <= k < |old(entries)| && k != l
      ensures multiset(old(tables)[k])[old(tables)[l][j]] == 0
    {
      var a := old(tables)[l][j];
      assert old(AnonOk(a));
      if a in old(tables)[k] {
        var i :| 0 <= i < |old(tables)[k]| && old(tables)[k][i] == a;
        AllTwice(old(tables), l, j, k, i);
      }
    }

    twostate lemma Shared(new k: nat, new f: Entry)
      requires old(Valid()) && ShareMade(k, f)
      ensures Valid()
    {
      var n := |old(entries)|;
      assert old(EntryOk(k));
      assert tables[..n] == old(tables) && owners[..n] == old(owners);
      forall l | 0 <= l < |entries| ensures EntryOk(l) { if l < n { assert old(EntryOk(l)); } }
      forall a | a in anons ensures AnonOk(a) { assert old(AnonOk(a)); }
      forall x | x in amaps ensures AmapOk(x) {
        assert old(AmapOk(x));
        assert multiset(owners) == multiset(old(owners)) + multiset{old(owners)[k]};
      }
      forall i, j | 0 <= i < |entries| && 0 <= j < |entries| && i != j ensures Apart(i, j) {
        var i', j' := if i < n then i else k, if j < n then j else k;
        if i' != j' { assert old(Apart(i', j')); }
      }
    }

    /** Page i of the child's entry n, then of the parent's entry k. */
    method ForceBoth(n: nat, k: nat, i: nat)
      requires Valid() && n < |entries| && k < |entries| && n != k && i < entries[k].size && i < entries[n].size
      requires entries[k].writable == entries[n].writable
      requires entries[k].writable ==>
        (entries[k].needscopy || entries[k].amap != null) && (entries[n].needscopy || entries[n].amap != null)
      modifies this`mem, this`unused, this`anons, this`tables, this`amaps, this`owners, amaps, entries[n], entries[k]
      modifies anons`refs
      ensures Valid() && entries == old(entries) && fresh(anons - old(anons)) && fresh(amaps - old(amaps))
      ensures forall l, j | 0 <= l < |entries| && 0 <= j < entries[l].size :: View(l, j) == old(View(l, j))
      ensures forall l, j | 0 <= l < |entries| && 0 <= j < entries[l].size && old(Private(l, j)) :: Private(l, j)
      ensures entries[k].writable ==>
        Private(k, i) && Private(n, i) && entries[k].amap != null && entries[n].amap != null
    {
      Force(n, i);
      Force(k, i);
    }

    /** All pages of the two. */
    method ForceAll(n: nat, k: nat)
      requires Valid() && n < |entries| && k < |entries| && n != k && entries[n].size == entries[k].size
      requires entries[k].writable == entries[n].writable
      requires entries[k].writable ==>
        (entries[k].needscopy || entries[k].amap != null) && (entries[n].needscopy || entries[n].amap != null)
      modifies this`mem, this`unused, this`anons, this`tables, this`amaps, this`owners, amaps, entries[n], entries[k]
      modifies anons`refs
      ensures Valid() && entries == old(entries) && fresh(anons - old(anons)) && fresh(amaps - old(amaps))
      ensures forall l, j | 0 <= l < |entries| && 0 <= j < entries[l].size :: View(l, j) == old(View(l, j))
      ensures forall l, j | 0 <= l < |entries| && 0 <= j < entries[l].size && old(Private(l, j)) :: Private(l, j)
      ensures entries[k].writable ==> forall j | 0 <= j < entries[k].size :: Private(k, j) && Private(n, j)
    {
      for i := 0 to entries[k].size
        invariant Valid() && entries == old(entries) && fresh(anons - old(anons)) && fresh(amaps - old(amaps))
        invariant forall l, j | 0 <= l < |entries| && 0 <= j < entries[l].size :: View(l, j) == old(View(l, j))
        invariant forall l, j | 0 <= l < |entries| && 0 <= j < entries[l].size && old(Private(l, j)) :: Private(l, j)
        invariant entries[k].writable ==> forall j | 0 <= j < i :: Private(k, j) && Private(n, j)
        invariant entries[k].writable ==>
          (entries[k].needscopy || entries[k].amap != null) && (entries[n].needscopy || entries[n].amap != null)
      {
        ForceBoth(n, k, i);
      }
    }

    /**
     vm_mapCopy for one entry: parent and child see what the parent saw, and what either may write it has
     to itself.
     */
    method CopyEntry(k: nat)
      requires Valid() && k < |entries|
      modifies this, amaps, anons, entries[k]
      ensures Valid() && |entries| == |old(entries)| + 1 && entries[..|old(entries)|] == old(entries)
      ensures entries[|old(entries)|].size == entries[k].size
      ensures entries[|old(entries)|].writable == entries[k].writable && fresh(entries[|old(entries)|])
      ensures fresh(anons - old(anons)) && fresh(amaps - old(amaps))
      ensures forall l, j | 0 <= l < |old(entries)| && 0 <= j < entries[l].size :: View(l, j) == old(View(l, j))
      ensures forall j | 0 <= j < entries[k].size :: View(|old(entries)|, j) == old(View(k, j))
      ensures forall l, j | 0 <= l < |old(entries)| && l != k && 0 <= j < entries[l].size && old(Private(l, j)) ::
        Private(l, j)
      ensures entries[k].writable ==> forall j | 0 <= j < entries[k].size :: Private(k, j) && Private(|old(entries)|, j)
    {
      var n := |entries|;
      Share(k);
      ForceAll(n, k);
    }

    /** n pages of zeroes, each with an anon of its own. */
    method ZeroPages(n: nat) returns (s: seq<Anon?>)
      modifies this`mem, this`unused
      ensures |s| == n && unused == old(unused) + n
      ensures forall i | 0 <= i < n ::
        s[i] != null && fresh(s[i]) && s[i].refs == 1 && s[i].page == old(unused) + i && s[i].page in mem
      ensures forall p | old(unused) <= p < unused :: p in mem && mem[p] == 0
      ensures forall p | p in old(mem) :: p in mem && (p < old(unused) ==> mem[p] == old(mem)[p])
    {
      s := [];
      for i := 0 to n
        invariant |s| == i && unused == old(unused) + i
        invariant forall j | 0 <= j < i ::
          s[j] != null && fresh(s[j]) && s[j].refs == 1 && s[j].page == old(unused) + j && s[j].page in mem
        invariant forall p | old(unused) <= p < unused :: p in mem && mem[p] == 0
        invariant forall p | p in old(mem) :: p in mem && (p < old(unused) ==> mem[p] == old(mem)[p])
      {
        var a := new Anon(unused);
        mem := mem[unused := 0];
        unused := unused + 1;
        s := s + [a];
      }
    }

    /** An eager mapping of anonymous memory: pages of zeroes, each its own. */
    method MapAnonymous(size: nat, writable: bool)
      requires Valid()
      modifies this
      ensures Valid() && |entries| == |old(entries)| + 1 && entries[..|old(entries)|] == old(entries)
      ensures forall l, j | 0 <= l < |old(entries)| && 0 <= j < entries[l].size :: View(l, j) == old(View(l, j))
      ensures var n := |old(entries)|;
        entries[n].size == size && entries[n].writable == writable && forall j | 0 <= j < size :: Private(n, j)
      ensures forall j | 0 <= j < size :: View(|old(entries)|, j) == 0
      ensures forall l, j | 0 <= l < |old(entries)| && 0 <= j < entries[l].size && old(Private(l, j)) :: Private(l, j)
    {
      var e, m, s := AddPages(size, writable);
      Added(e, m, s);
      OldViews();
    }

    /** The pages, their amap and the entry. */
    method AddPages(size: nat, writable: bool) returns (e: Entry, m: Amap, ghost s: seq<Anon?>)
      modifies this
      ensures AddMade(e, m, s) && e.size == size && e.writable == writable
      ensures forall p | p in old(mem) :: p in mem && (p < old(unused) ==> mem[p] == old(mem)[p])
      ensures forall p | old(unused) <= p < unused :: p in mem && mem[p] == 0
    {
      var t := ZeroPages(size);
      s := t;
      m := new Amap(t);
      e := new Entry(size, writable, [], m, 0, false);
      entries := entries + [e];
      amaps := amaps + {m};
      anons := anons + set a: Anon | a in s;
      tables := tables + [s];
      owners := owners + [m];
    }

    /** Pages in use keep their contents, so the old entries show what they did. */
    twostate lemma OldViews()
      requires old(Valid()) && old(entries) <= entries && old(tables) <= tables && |tables| == |entries|
      requires forall p | p in old(mem) :: p in mem && (p < old(unused) ==> mem[p] == old(mem)[p])
      ensures forall l, j | 0 <= l < |old(entries)| && 0 <= j < entries[l].size :: View(l, j) == old(View(l, j))
    {
      forall l, j | 0 <= l < |old(entries)| && 0 <= j < entries[l].size ensures View(l, j) == old(View(l, j))
        { PageKnown(l, j); }
    }

    /** What is so after entry e with amap m and the new anons s came. */
    twostate predicate AddMade(new e: Entry, new m: Amap, new s: seq<Anon?>)
      reads this, entries, amaps, anons, e, m
    {
      && e !in old(entries) && entries == old(entries) + [e] && m !in old(amaps) && amaps == old(amaps) + {m}
      && e.amap == m && e.aoffs == 0 && !e.needscopy && e.backing == [] && |s| == e.size && m.anons == s && m.refs == 1
      && (forall l | 0 <= l < |old(entries)| :: old(entries[l].amap) != m)
      && tables == old(tables) + [s] && owners == old(owners) + [m] && files == old(files)
      && unused == old(unused) + |s| && anons == old(anons) + (set a: Anon | a in s)
      && (forall i | 0 <= i < |s| :: s[i] != null && s[i] !in old(anons) && s[i] in anons)
      && (forall i | 0 <= i < |s| :: s[i].refs == 1 && s[i].page == old(unused) + i && s[i].page in mem)
      && (forall p | p in old(mem) :: p in mem)
      && (forall l | 0 <= l < |old(entries)| :: unchanged(entries[l]))
      && (forall a | a in old(anons) :: unchanged(a)) && (forall x | x in old(amaps) :: unchanged(x))
    }

    twostate lemma AddedEntries(new e: Entry, new m: Amap, new s: seq<Anon?>)
      requires old(Valid()) && AddMade(e, m, s)
      ensures |tables| == |owners| == |entries| && forall l {:trigger EntryOk(l)} | 0 <= l < |entries| :: EntryOk(l)
      ensures forall i, j {:trigger Apart(i, j)} | 0 <= i < |entries| && 0 <= j < |entries| && i != j :: Apart(i, j)
    {
      var n := |old(entries)|;
      forall l | 0 <= l < n ensures EntryOk(l) {
        assert old(EntryOk(l));
        SameOk(l, l);
      }
      assert EntryOk(n);
      forall i, j | 0 <= i < |entries| && 0 <= j < |entries| && i != j ensures Apart(i, j) {
        if i < n && j < n { assert old(Apart(i, j)); }
      }
    }

    twostate lemma AddedAnons(new e: Entry, new m: Amap, new s: seq<Anon?>)
      requires old(Valid()) && AddMade(e, m, s)
      ensures forall a {:trigger AnonOk(a)} | a in anons :: AnonOk(a)
      ensures forall a, b | a in anons && b in anons && a != b :: a.page != b.page
    {
      forall l, j | 0 <= l < |old(entries)| && 0 <= j < |old(tables)[l]|
        ensures old(tables)[l][j] == null || old(tables)[l][j] in old(anons) { assert old(EntryOk(l)); }
      assert tables[..|old(tables)|] == old(tables);
      forall a | a in anons ensures AnonOk(a) {
        OnceEach(s, a);
        if a in old(anons) { assert old(AnonOk(a)); } else { AllNone(old(tables), a); }
      }
      forall a, b | a in anons && b in anons && a != b ensures a.page != b.page {
        if a in old(anons) { assert old(AnonOk(a)); }
        if b in old(anons) { assert old(AnonOk(b)); }
      }
    }

    twostate lemma AddedAmaps(new e: Entry, new m: Amap, new s: seq<Anon?>)
      requires old(Valid()) && AddMade(e, m, s)
      ensures forall x {:trigger AmapOk(x)} | x in amaps :: AmapOk(x)
    {
      forall l | 0 <= l < |old(entries)| ensures old(owners)[l] != m { assert old(EntryOk(l)); }
      forall x | x in amaps ensures AmapOk(x) { if x != m { assert old(AmapOk(x)); } }
    }

    twostate lemma Added(new e: Entry, new m: Amap, new s: seq<Anon?>)
      requires old(Valid()) && AddMade(e, m, s)
      ensures Valid() && forall j | 0 <= j < e.size :: Private(|old(entries)|, j)
    {
      AddedEntries(e, m, s);
      AddedAnons(e, m, s);
      AddedAmaps(e, m, s);
    }

    /** An object comes with pages of its own. */
    method NewObject(contents: seq<nat>) returns (pages: seq<nat>)
      requires Valid()
      modifies this`mem, this`unused, this`files
      ensures Valid() && |pages| == |contents| && files == old(files) + set p | p in pages
      ensures forall i | 0 <= i < |pages| :: pages[i] !in old(files) && pages[i] in mem && mem[pages[i]] == contents[i]
      ensures forall i, j | 0 <= i < j < |pages| :: pages[i] != pages[j]
      ensures forall l, j | 0 <= l < |entries| && 0 <= j < entries[l].size :: View(l, j) == old(View(l, j))
    {
      pages := [];
      for i := 0 to |contents|
        invariant files == old(files) && |pages| == i && unused == old(unused) + i
        invariant forall j | 0 <= j < i :: pages[j] == old(unused) + j
        invariant forall j | 0 <= j < i :: pages[j] in mem && mem[pages[j]] == contents[j]
        invariant forall p | p in old(mem) :: p in mem && (p < old(unused) ==> mem[p] == old(mem)[p])
      {
        pages := pages + [unused];
        mem := mem[unused := contents[i]];
        unused := unused + 1;
      }
      files := files + set p | p in pages;
      forall l | 0 <= l < |entries| ensures EntryOk(l) { assert old(EntryOk(l)); }
      forall a | a in anons ensures AnonOk(a) { assert old(AnonOk(a)); }
      forall x | x in amaps ensures AmapOk(x) { assert old(AmapOk(x)); }
      forall i, j | 0 <= i < |entries| && 0 <= j < |entries| && i != j ensures Apart(i, j) { assert old(Apart(i, j)); }
      OldViews();
    }

    /** A mapping of an object's pages; they are there already. */
    method MapObject(backing: seq<nat>, writable: bool)
      requires Valid() && backing != [] && forall i | 0 <= i < |backing| :: backing[i] in files
      modifies this`entries, this`tables, this`owners
      ensures Valid() && |entries| == |old(entries)| + 1 && entries[..|old(entries)|] == old(entries)
      ensures var n := |old(entries)|;
        entries[n].size == |backing| && tables[n] == [] && forall j | 0 <= j < |backing| :: PageAt(n, j) == backing[j]
      ensures entries[|old(entries)|].writable == writable && entries[|old(entries)|].backing == backing
      ensures forall l, j | 0 <= l < |old(entries)| && 0 <= j < entries[l].size :: PageAt(l, j) == old(PageAt(l, j))
      ensures forall l, j | 0 <= l < |old(entries)| && 0 <= j < entries[l].size && old(Private(l, j)) :: Private(l, j)
    {
      var e := new Entry(|backing|, writable, backing, null, 0, false);
      entries := entries + [e];
      tables := tables + [[]];
      owners := owners + [null];
      AddedObject(e);
    }

    twostate lemma AddedObject(new e: Entry)
      requires old(Valid()) && e !in old(entries) && entries == old(entries) + [e] && tables == old(tables) + [[]]
      requires owners == old(owners) + [null] && e.amap == null && !e.needscopy && |e.backing| == e.size > 0
      requires forall i | 0 <= i < e.size :: e.backing[i] in files
      requires amaps == old(amaps) && anons == old(anons) && files == old(files) && mem == old(mem)
      requires unused == old(unused) && unchanged(amaps) && unchanged(anons) && unchanged(old(entries))
      ensures Valid()
    {
      var n := |old(entries)|;
      assert tables[..n] == old(tables) && owners[..n] == old(owners);
      forall l | 0 <= l < n ensures EntryOk(l) {
        assert old(EntryOk(l));
        SameOk(l, l);
      }
      assert EntryOk(n);
      forall a | a in anons ensures AnonOk(a) { assert old(AnonOk(a)); }
      forall x | x in amaps ensures AmapOk(x) { assert old(AmapOk(x)); }
      forall i, j | 0 <= i < |entries| && 0 <= j < |entries| && i != j ensures Apart(i, j) {
        if i < n && j < n { assert old(Apart(i, j)); }
      }
    }

    /** amap_putanons; freed are the anons nobody refers to any more. */
    method PutRange(m: Amap, from: nat, ghost t: seq<Anon?>, n: nat, ghost refs: map<Anon, int>)
      returns (freed: seq<Anon>)
      requires |t| == n && from + n <= |m.anons| && m.anons[from..from + n] == t
      requires forall a | a in anons :: a in refs && refs[a] == a.refs
      requires forall i | 0 <= i < n && t[i] != null :: t[i] in anons && multiset(t)[t[i]] <= refs[t[i]]
      modifies anons`refs
      ensures forall a {:trigger Paid(refs, a, t, freed)} | a in anons :: Paid(refs, a, t, freed)
      ensures forall a | a in freed :: a in anons
    {
      freed := [];
      for i := 0 to n
        invariant forall a {:trigger Paid(refs, a, t[..i], freed)} | a in anons :: Paid(refs, a, t[..i], freed)
        invariant forall a | a in freed :: a in anons
      {
        var a := m.anons[from + i];
        assert a == t[i];
        if a != null { FirstFew(t, i + 1, a); }
        freed := PutAnon(a, freed, anons, refs, t, i);
      }
      assert t[..n] == t;
    }

    /** The same over slots lo up to hi of entry k. */
    method PutAnons(k: nat, lo: nat, hi: nat) returns (freed: seq<Anon>)
      requires Valid() && k < |entries| && lo <= hi <= entries[k].size
      modifies anons`refs
      ensures forall a | a in anons :: a.refs == old(a.refs) - multiset(Part(tables[k], lo, hi))[a]
      ensures forall a | a in anons :: a in freed <==> a in Part(tables[k], lo, hi) && a.refs == 0
      ensures forall a | a in freed :: a in anons
    {
      assert EntryOk(k);
      var e := entries[k];
      freed := [];
      if e.amap != null {
        SliceOf(e.amap.anons, e.aoffs, e.size, lo, hi);
        EnoughRefs(k, lo, hi);
        freed := PutSlots(e.amap, e.aoffs + lo, Part(tables[k], lo, hi), hi - lo);
      }
    }

    method PutSlots(m: Amap, from: nat, ghost t: seq<Anon?>, n: nat) returns (freed: seq<Anon>)
      requires |t| == n && from + n <= |m.anons| && m.anons[from..from + n] == t
      requires forall i | 0 <= i < n && t[i] != null :: t[i] in anons && multiset(t)[t[i]] <= t[i].refs
      modifies anons`refs
      ensures forall a | a in anons :: a.refs == old(a.refs) - multiset(t)[a]
      ensures forall a | a in anons :: a in freed <==> a in t && a.refs == 0
      ensures forall a | a in freed :: a in anons
    {
      ghost var refs: map<Anon, int> := map a: Anon | a in anons :: a.refs;
      freed := PutRange(m, from, t, n, refs);
      forall a | a in anons ensures a.refs == refs[a] - multiset(t)[a] && (a in freed <==> a in t && a.refs == 0) {
        assert Paid(refs, a, t, freed);
        PaidOff(refs, a, t, freed);
      }
    }

    /** No anon is put more often than it was got. */
    lemma EnoughRefs(k: nat, lo: nat, hi: nat)
      requires Valid() && k < |entries| && lo <= hi <= |tables[k]|
      ensures forall i | lo <= i < hi && tables[k][i] != null ::
        tables[k][i] in anons && multiset(tables[k][lo..hi])[tables[k][i]] <= tables[k][i].refs
    {
      assert EntryOk(k);
      forall i | lo <= i < hi && tables[k][i] != null
        ensures tables[k][i] in anons && multiset(tables[k][lo..hi])[tables[k][i]] <= tables[k][i].refs {
        assert AnonOk(tables[k][i]);
        AllPart(tables, k, lo, hi, tables[k][i]);
      }
    }

    /** Anons nobody refers to go, and their pages with them. */
    method Reclaim(freed: seq<Anon>)
      requires Valid() && forall a | a in freed :: a in anons && a.refs == 0
      modifies this`mem, this`anons
      ensures Valid() && anons == old(anons) - set a | a in freed
      ensures mem == old(mem) - set a | a in freed :: a.page
      ensures forall l, j | 0 <= l < |entries| && 0 <= j < entries[l].size :: PageAt(l, j) == old(PageAt(l, j))
      ensures forall l, j | 0 <= l < |entries| && 0 <= j < entries[l].size :: View(l, j) == old(View(l, j))
    {
      forall l, i | 0 <= l < |entries| && 0 <= i < |tables[l]| && tables[l][i] != null ensures tables[l][i] !in freed {
        assert EntryOk(l) && AnonOk(tables[l][i]);
        AllSeen(tables, l, i);
      }
      mem := mem - set a | a in freed :: a.page;
      anons := anons - set a | a in freed;
      Reclaimed(freed);
    }

    twostate lemma Reclaimed(new freed: seq<Anon>)
      requires old(Valid()) && forall a | a in freed :: a in old(anons)
      requires entries == old(entries) && tables == old(tables) && owners == old(owners) && amaps == old(amaps)
      requires files == old(files) && unused == old(unused) && unchanged(entries) && unchanged(amaps)
      requires unchanged(old(anons))
      requires anons == old(anons) - (set a | a in freed) && mem == old(mem) - set a | a in freed :: a.page
      requires forall l, i | 0 <= l < |entries| && 0 <= i < |tables[l]| && tables[l][i] != null ::
        tables[l][i] !in freed
      ensures Valid()
      ensures forall l, j | 0 <= l < |entries| && 0 <= j < entries[l].size :: View(l, j) == old(View(l, j))
    {
      forall a | a in anons ensures AnonOk(a) { assert old(AnonOk(a)); }
      forall a | a in freed ensures a.page !in files { assert old(AnonOk(a)); }
      forall l | 0 <= l < |entries| ensures EntryOk(l) { assert old(EntryOk(l)); }
      forall x | x in amaps ensures AmapOk(x) { assert old(AmapOk(x)); }
      forall i, j | 0 <= i < |entries| && 0 <= j < |entries| && i != j ensures Apart(i, j) { assert old(Apart(i, j)); }
      forall l, j | 0 <= l < |entries| && 0 <= j < entries[l].size ensures View(l, j) == old(View(l, j)) {
        PageKnown(l, j);
        assert EntryOk(l);
      }
    }

    /** Entry k goes and gives its references back. */
    method Detach(k: nat) returns (freed: seq<Anon>)
      requires Valid() && k < |entries|
      modifies this`entries, this`tables, this`owners, anons`refs, amaps`refs
      ensures Valid() && entries == old(entries)[..k] + old(entries)[k + 1..]
      ensures tables == old(tables)[..k] + old(tables)[k + 1..]
      ensures forall a | a in anons :: a in freed <==> a in old(tables)[k] && a.refs == 0
      ensures forall a | a in freed :: a in anons
    {
      var e := entries[k];
      assert EntryOk(k);
      assert Part(tables[k], 0, e.size) == tables[k];
      freed := PutAnons(k, 0, e.size);
      if e.amap != null {
        e.amap.refs := e.amap.refs - 1;
      }
      entries := entries[..k] + entries[k + 1..];
      tables := tables[..k] + tables[k + 1..];
      owners := owners[..k] + owners[k + 1..];
      Dropped(k);
    }

    /**
     The whole of entry k is unmapped: exactly what nobody else refers to is freed, and nobody else sees a
     difference.
     */
    method Unmap(k: nat)
      requires Valid() && k < |entries|
      modifies this`mem, this`anons, this`entries, this`tables, this`owners, anons`refs, amaps`refs
      ensures Valid() && entries == old(entries)[..k] + old(entries)[k + 1..]
      ensures forall l, j | 0 <= l < |entries| && 0 <= j < entries[l].size ::
        View(l, j) == old(View(if l < k then l else l + 1, j))
      ensures forall a | a in old(anons) :: a in anons <==> !(a in old(tables)[k] && All(tables)[a] == 0)
      ensures forall a | a in old(anons) && a !in anons :: a.page !in mem
    {
      var freed := Detach(k);
      forall a | a in anons ensures a.refs == All(tables)[a] { assert AnonOk(a); }
      Reclaim(freed);
    }

    twostate lemma Dropped(new k: nat)
      requires old(Valid()) && k < |old(entries)| && entries == old(entries)[..k] + old(entries)[k + 1..]
      requires tables == old(tables)[..k] + old(tables)[k + 1..] && owners == old(owners)[..k] + old(owners)[k + 1..]
      requires amaps == old(amaps) && anons == old(anons) && files == old(files) && mem == old(mem)
      requires unused == old(unused)
      requires forall x | x in amaps ::
        x.anons == old(x.anons) && x.refs == if x == old(owners)[k] then old(x.refs) - 1 else old(x.refs)
      requires forall a | a in anons :: a.refs == old(a.refs) - multiset(old(tables)[k])[a]
      requires forall l | 0 <= l < |old(entries)| :: unchanged(old(entries)[l])
      ensures Valid()
    {
      DroppedEntries(k);
      AllDrop(old(tables), k);
      forall a | a in anons ensures AnonOk(a) { assert old(AnonOk(a)); }
      forall x | x in amaps ensures AmapOk(x) {
        assert old(AmapOk(x));
        OwnerDrop(old(owners), k, x);
      }
    }

    twostate lemma DroppedEntries(new k: nat)
      requires old(Valid()) && k < |old(entries)| && entries == old(entries)[..k] + old(entries)[k + 1..]
      requires tables == old(tables)[..k] + old(tables)[k + 1..] && owners == old(owners)[..k] + old(owners)[k + 1..]
      requires amaps == old(amaps) && anons == old(anons) && files == old(files)
      requires forall x | x in amaps :: x.anons == old(x.anons)
      requires forall l | 0 <= l < |old(entries)| :: unchanged(old(entries)[l])
      ensures |tables| == |owners| == |entries| && forall l {:trigger EntryOk(l)} | 0 <= l < |entries| :: EntryOk(l)
      ensures forall i, j {:trigger Apart(i, j)} | 0 <= i < |entries| && 0 <= j < |entries| && i != j :: Apart(i, j)
      ensures forall i, j | 0 <= i < j < |entries| :: entries[i] != entries[j]
    {
      forall l | 0 <= l < |entries| ensures EntryOk(l) { assert old(EntryOk(if l < k then l else l + 1)); }
      forall i, j | 0 <= i < |entries| && 0 <= j < |entries| && i != j ensures Apart(i, j) {
        assert old(Apart(if i < k then i else i + 1, if j < k then j else j + 1));
      }
    }

    /** f covers pages lo up to hi of what e covered. */
    ghost predicate Piece(e: Entry, f: Entry, lo: nat, hi: nat)
      reads e, f
    {
      && lo < hi <= e.size && f.size == hi - lo && f.writable == e.writable && f.amap == e.amap
      && f.aoffs == e.aoffs + lo && f.needscopy == e.needscopy
      && (e.backing == [] ==> f.backing == [])
      && (e.backing != [] ==> |f.backing| == f.size && forall i | 0 <= i < f.size :: f.backing[i] in e.backing)
    }

    /** The pages of the object behind f are those behind e from its page d on. */
    ghost predicate Counted(e: Entry, f: Entry, d: nat) {
      forall i | 0 <= i < f.size :: Behind(f, i) == Behind(e, d + i)
    }

    /**
     What is so after pages lo up to hi of entry k went: p covers the pages before, or else behind; r
     those behind.
     */
    twostate predicate CutMade(new k: nat, e: Entry, new lo: nat, new hi: nat, new p: Entry, new r: Entry?)
      reads this, entries, amaps, anons, e, p, if r == null then {} else {r}
    {
      && k < |old(entries)| == |old(tables)| == |old(owners)| && e == old(entries)[k] && unchanged(e)
      && p !in old(entries) && r !in old(entries) && p != r && lo < hi <= e.size
      && (r == null <==> lo == 0 || hi == e.size)
      && (if lo == 0 then Piece(e, p, hi, e.size) else Piece(e, p, 0, lo)) && Counted(e, p, 0)
      && (r != null ==> Piece(e, r, hi, e.size) && Counted(e, r, hi))
      && entries == old(entries)[k := p] + (if r == null then [] else [r])
      && tables == TablesCut(old(tables), k, e.size, lo, hi, r != null)
      && owners == old(owners) + (if r == null then [] else [e.amap])
      && amaps == old(amaps) && anons == old(anons) && files == old(files) && mem == old(mem) && unused == old(unused)
      && (forall x | x in amaps ::
        x.anons == old(x.anons) && x.refs == old(x.refs) + if r != null && x == e.amap then 1 else 0)
      && (forall a | a in anons :: a.refs == old(a.refs) - multiset(Part(old(tables)[k], lo, hi))[a])
      && (forall l | 0 <= l < |old(entries)| && l != k :: unchanged(entries[l]))
    }

    /** The entry that entry l was, or was a part of. */
    ghost function Origin(l: int, n: int, k: int): int {
      if l < n then l else k
    }

    twostate lemma PieceOk(new k: nat, e: Entry, new l: nat, new lo: nat, new hi: nat)
      requires k < |old(entries)| == |old(tables)| == |old(owners)| && old(EntryOk(k)) && e == old(entries)[k]
      requires unchanged(e) && l < |entries| == |tables| == |owners| && Piece(e, entries[l], lo, hi)
      requires owners[l] == e.amap && tables[l] == Part(old(tables)[k], lo, hi)
      requires amaps == old(amaps) && anons == old(anons) && files == old(files)
      requires forall x | x in amaps :: x.anons == old(x.anons)
      ensures EntryOk(l)
    {
      if e.amap != null { SliceOf(e.amap.anons, e.aoffs, e.size, lo, hi); }
    }

    twostate lemma CutFirst(new k: nat, e: Entry, new lo: nat, new hi: nat, new p: Entry, new r: Entry?)
      requires old(Valid()) && CutMade(k, e, lo, hi, p, r)
      ensures |tables| == |owners| == |entries| && EntryOk(k)
    {
      assert old(EntryOk(k));
      PieceOk(k, e, k, if lo == 0 then hi else 0, if lo == 0 then e.size else lo);
    }

    twostate lemma CutSecond(new k: nat, e: Entry, new lo: nat, new hi: nat, new p: Entry, new r: Entry?)
      requires old(Valid()) && CutMade(k, e, lo, hi, p, r) && r != null
      ensures |tables| == |owners| == |entries| == |old(entries)| + 1 && EntryOk(|old(entries)|)
    {
      assert old(EntryOk(k));
      PieceOk(k, e, |old(entries)|, hi, e.size);
    }

    twostate lemma CutOther(new k: nat, e: Entry, new lo: nat, new hi: nat, new p: Entry, new r: Entry?, new l: int)
      requires old(Valid()) && CutMade(k, e, lo, hi, p, r) && 0 <= l < |old(entries)| && l != k
      ensures |tables| == |owners| == |entries| && EntryOk(l)
    {
      assert old(EntryOk(l));
      SameOk(l, l);
    }

    twostate lemma CutAny(new k: nat, e: Entry, new lo: nat, new hi: nat, new p: Entry, new r: Entry?, new l: int)
      requires old(Valid()) && CutMade(k, e, lo, hi, p, r) && 0 <= l < |entries|
      ensures |tables| == |owners| == |entries| && EntryOk(l)
    {
      if l == k {
        CutFirst(k, e, lo, hi, p, r);
      } else if l < |old(entries)| {
        CutOther(k, e, lo, hi, p, r, l);
      } else {
        CutSecond(k, e, lo, hi, p, r);
      }
    }

    twostate lemma CutApart(new k: nat, e: Entry, new lo: nat, new hi: nat, new p: Entry, new r: Entry?)
      requires old(Valid()) && CutMade(k, e, lo, hi, p, r)
      ensures forall i, j {:trigger Apart(i, j)} | 0 <= i < |entries| && 0 <= j < |entries| && i != j :: Apart(i, j)
    {
      var n := |old(entries)|;
      forall i, j | 0 <= i < |entries| && 0 <= j < |entries| && i != j ensures Apart(i, j) {
        var i', j' := Origin(i, n, k), Origin(j, n, k);
        if i' != j' { assert old(Apart(i', j')); }
      }
    }

    twostate lemma CutRefs(new k: nat, e: Entry, new lo: nat, new hi: nat, new p: Entry, new r: Entry?)
      requires old(Valid()) && CutMade(k, e, lo, hi, p, r)
      ensures forall a {:trigger AnonOk(a)} | a in anons :: AnonOk(a)
      ensures forall x {:trigger AmapOk(x)} | x in amaps :: AmapOk(x)
    {
      assert old(EntryOk(k));
      forall a | a in anons ensures AnonOk(a) {
        assert old(AnonOk(a));
        AllCut(old(tables), k, e.size, lo, hi, r != null, a);
      }
      forall x | x in amaps ensures AmapOk(x) { assert old(AmapOk(x)); }
    }

    twostate lemma CutValid(new k: nat, e: Entry, new lo: nat, new hi: nat, new p: Entry, new r: Entry?)
      requires old(Valid()) && CutMade(k, e, lo, hi, p, r) && |tables| == |owners| == |entries|
      ensures Valid()
    {
      forall l | 0 <= l < |entries| ensures EntryOk(l) { CutAny(k, e, lo, hi, p, r, l); }
      CutApart(k, e, lo, hi, p, r);
      CutRefs(k, e, lo, hi, p, r);
    }

    /**
     Where the pages left are: those of other entries and those before the cut as before, and those behind it too if
     something is left before it.  Otherwise pages of the object are counted from its first page again.
     */
    twostate predicate CutPages(new k: nat, new lo: nat, new hi: nat)
      requires k < |old(entries)| == |old(tables)| && |entries| == |tables|
      reads this, entries
    {
      var n, e := |old(entries)|, old(entries)[k];
      && lo < hi <= e.size && |entries| == (if 0 < lo && hi < e.size then n + 1 else n)
      && (forall l | 0 <= l < n && l != k :: entries[l] == old(entries)[l])
      && (forall l, j | 0 <= l < n && l != k && 0 <= j < entries[l].size :: PageAt(l, j) == old(PageAt(l, j)))
      && (0 < lo ==> entries[k].size == lo && forall j | 0 <= j < lo :: PageAt(k, j) == old(PageAt(k, j)))
      && (0 < lo && hi < e.size ==> entries[n].size == e.size - hi && entries[n].amap == entries[k].amap)
      && (0 < lo && hi < e.size ==> forall j | 0 <= j < e.size - hi :: PageAt(n, j) == old(PageAt(k, hi + j)))
      && (lo == 0 ==> entries[k].size == e.size - hi)
      && (lo == 0 ==> forall j | 0 <= j < e.size - hi ::
        PageAt(k, j) == if old(HasAnon(k, hi + j)) then old(PageAt(k, hi + j)) else Behind(e, j))
    }

    twostate lemma CutShownFront(new k: nat, e: Entry, new hi: nat, new p: Entry)
      requires old(Valid()) && CutMade(k, e, 0, hi, p, null) && |tables| == |entries|
      ensures forall j | 0 <= j < e.size - hi ::
        PageAt(k, j) == if old(HasAnon(k, hi + j)) then old(PageAt(k, hi + j)) else Behind(e, j)
    {
      assert old(EntryOk(k));
      forall j | 0 <= j < e.size - hi
        ensures PageAt(k, j) == if old(HasAnon(k, hi + j)) then old(PageAt(k, hi + j)) else Behind(e, j) {
        PieceShows(old(tables)[k], e, p, hi, e.size, 0, j);
      }
    }

    twostate lemma CutShownBefore(new k: nat, e: Entry, new lo: nat, new hi: nat, new p: Entry, new r: Entry?)
      requires old(Valid()) && CutMade(k, e, lo, hi, p, r) && |tables| == |entries| && 0 < lo
      ensures forall j | 0 <= j < lo :: PageAt(k, j) == old(PageAt(k, j))
    {
      assert old(EntryOk(k));
      forall j | 0 <= j < lo ensures PageAt(k, j) == old(PageAt(k, j)) {
        PieceShows(old(tables)[k], e, p, 0, lo, 0, j);
      }
    }

    twostate lemma CutShownBehind(new k: nat, e: Entry, new lo: nat, new hi: nat, new p: Entry, new r: Entry)
      requires old(Valid()) && CutMade(k, e, lo, hi, p, r) && |tables| == |entries| == |old(entries)| + 1
      ensures forall j | 0 <= j < e.size - hi :: PageAt(|old(entries)|, j) == old(PageAt(k, hi + j))
    {
      assert old(EntryOk(k));
      forall j | 0 <= j < e.size - hi ensures PageAt(|old(entries)|, j) == old(PageAt(k, hi + j)) {
        PieceShows(old(tables)[k], e, r, hi, e.size, hi, j);
      }
    }

    twostate lemma CutShown(new k: nat, e: Entry, new lo: nat, new hi: nat, new p: Entry, new r: Entry?)
      requires old(Valid()) && CutMade(k, e, lo, hi, p, r) && |tables| == |entries|
      ensures CutPages(k, lo, hi)
    {
      if lo == 0 {
        CutShownFront(k, e, hi, p);
      } else {
        CutShownBefore(k, e, lo, hi, p, r);
        if r != null { CutShownBehind(k, e, lo, hi, p, r); }
      }
    }

    /** Page j of a piece of an entry that begins at its page lo, the object's page d. */
    lemma PieceShows(t: seq<Anon?>, e: Entry, f: Entry, lo: nat, hi: nat, d: nat, j: nat)
      requires (t == [] || |t| == e.size) && lo + j < hi <= e.size && Counted(e, f, d) && f.size == hi - lo
      ensures Shows(Part(t, lo, hi), f, j) == if lo + j < |t| && t[lo + j] != null then t[lo + j].page
        else Behind(e, d + j)
    {
      assert Behind(f, j) == Behind(e, d + j);
    }

    /** What is left of entry k: p in its place, and r. */
    method Carve(k: nat, lo: nat, hi: nat) returns (p: Entry, r: Entry?)
      requires k < |entries| == |tables| == |owners| && lo < hi <= entries[k].size
      requires 0 < lo || hi < entries[k].size
      requires entries[k].backing != [] ==> |entries[k].backing| == entries[k].size
      modifies this`entries, this`tables, this`owners
      modifies (if entries[k].amap == null then {} else {entries[k].amap})`refs
      ensures var e := old(entries)[k];
        && fresh(p) && (if lo == 0 then Piece(e, p, hi, e.size) else Piece(e, p, 0, lo)) && Counted(e, p, 0)
        && (r == null <==> lo == 0 || hi == e.size)
        && (r != null ==> fresh(r) && r != p && Piece(e, r, hi, e.size) && Counted(e, r, hi))
        && entries == old(entries)[k := p] + (if r == null then [] else [r])
        && tables == TablesCut(old(tables), k, e.size, lo, hi, r != null)
        && owners == old(owners) + (if r == null then [] else [e.amap])
        && (e.amap != null ==> e.amap.refs == old(e.amap.refs) + if r == null then 0 else 1)
    {
      var e := entries[k];
      tables := TablesCut(tables, k, e.size, lo, hi, 0 < lo && hi < e.size);
      r := null;
      if lo == 0 {
        // the offset into the object is not moved
        p := new Entry(e.size - hi, e.writable, if e.backing == [] then [] else e.backing[..e.size - hi], e.amap,
          e.aoffs + hi, e.needscopy);
        entries := entries[k := p];
      } else {
        p := new Entry(lo, e.writable, if e.backing == [] then [] else e.backing[..lo], e.amap, e.aoffs, e.needscopy);
        entries := entries[k := p];
        if hi < e.size {
          r := new Entry(e.size - hi, e.writable, if e.backing == [] then [] else e.backing[hi..], e.amap,
            e.aoffs + hi, e.needscopy);
          if e.amap != null {
            e.amap.refs := e.amap.refs + 1;
          }
          entries, owners := entries + [r], owners + [e.amap];
        }
      }
    }

    /** The branches of _vm_munmap that leave something of entry k. */
    method CutOut(k: nat, lo: nat, hi: nat) returns (freed: seq<Anon>, p: Entry, r: Entry?)
      requires Valid() && k < |entries| && lo < hi <= entries[k].size && (0 < lo || hi < entries[k].size)
      modifies this`entries, this`tables, this`owners, anons`refs, amaps`refs
      ensures CutMade(k, old(entries)[k], lo, hi, p, r) && |tables| == |owners| == |entries|
      ensures forall a | a in anons :: a in freed <==> a in Part(old(tables)[k], lo, hi) && a.refs == 0
      ensures forall a | a in freed :: a in anons
    {
      assert EntryOk(k);
      freed := PutAnons(k, lo, hi);
      p, r := Carve(k, lo, hi);
    }

    method CutEntry(k: nat, lo: nat, hi: nat) returns (freed: seq<Anon>)
      requires Valid() && k < |entries| && lo < hi <= entries[k].size && (0 < lo || hi < entries[k].size)
      modifies this`entries, this`tables, this`owners, anons`refs, amaps`refs
      ensures Valid() && CutPages(k, lo, hi)
      ensures forall a | a in anons :: a in freed <==> a in Part(old(tables)[k], lo, hi) && a.refs == 0
      ensures forall a | a in freed :: a in anons
    {
      ghost var e := entries[k];
      var p, r;
      freed, p, r := CutOut(k, lo, hi);
      CutValid(k, e, lo, hi, p, r);
      CutShown(k, e, lo, hi, p, r);
    }

    /**
     Pages lo up to hi of entry k are unmapped, and something of it is left: exactly what nobody else refers to is
     freed.
     */
    method UnmapPart(k: nat, lo: nat, hi: nat)
      requires Valid() && k < |entries| && lo < hi <= entries[k].size && (0 < lo || hi < entries[k].size)
      modifies this`mem, this`anons, this`entries, this`tables, this`owners, anons`refs, amaps`refs
      ensures Valid() && CutPages(k, lo, hi)
      ensures forall a | a in old(anons) :: a in anons <==> !(a in Part(old(tables)[k], lo, hi) && All(tables)[a] == 0)
      ensures forall a | a in old(anons) && a !in anons :: a.page !in mem
      ensures forall l, j | 0 <= l < |entries| && 0 <= j < entries[l].size ::
        PageAt(l, j) in old(mem) && View(l, j) == old(mem)[PageAt(l, j)]
    {
      var freed := CutEntry(k, lo, hi);
      label C:
      forall a | a in anons ensures a.refs == All(tables)[a] { assert AnonOk(a); }
      Reclaim(freed);
      forall l, j | 0 <= l < |entries| && 0 <= j < entries[l].size
        ensures PageAt(l, j) in old(mem) && View(l, j) == old(mem)[PageAt(l, j)] {
        PageKnown@C(l, j);
      }
    }

    /**
     After its front is unmapped, an entry that maps an object of different pages shows them where they were exactly
     if none of those left is one of the object's.
     */
    twostate lemma FrontRight(new k: nat, new hi: nat)
      requires old(Valid()) && k < |old(entries)| && |entries| == |tables| && CutPages(k, 0, hi)
      requires var b := old(entries)[k].backing; forall i, j | 0 <= i < j < |b| :: b[i] != b[j]
      ensures (forall i | hi <= i < old(entries)[k].size :: PageAt(k, i - hi) == old(PageAt(k, i))) <==>
        (forall i | hi <= i < old(entries)[k].size :: old(HasAnon(k, i)))
    {
      assert old(EntryOk(k));
      forall i | hi <= i < old(entries)[k].size ensures PageAt(k, i - hi) == old(PageAt(k, i)) <==> old(HasAnon(k, i)) {
        assert PageAt(k, i - hi) == if old(HasAnon(k, hi + (i - hi))) then old(PageAt(k, hi + (i - hi)))
          else Behind(old(entries)[k], i - hi);
      }
    }

    /** CopyEntry, in terms of pairs of entries. */
    method CopyPair(k: nat)
      requires Valid() && k < |entries|
      modifies this, amaps, anons, entries[k]
      ensures Valid() && |entries| == |old(entries)| + 1 && entries[..|old(entries)|] == old(entries)
      ensures fresh(anons - old(anons)) && fresh(amaps - old(amaps)) && fresh(entries[|old(entries)|])
      ensures forall l, j | 0 <= l < |old(entries)| && 0 <= j < entries[l].size :: View(l, j) == old(View(l, j))
      ensures forall j | 0 <= j < entries[k].size :: View(|old(entries)|, j) == old(View(k, j))
      ensures Forked(k, |old(entries)|)
      ensures forall a, b {:trigger Forked(a, b)} | old(Forked(a, b)) && a != k && b != k :: Forked(a, b)
    {
      CopyEntry(k);
    }

    /** vm_mapCopy: all the entries ks of the parent. */
    method MapCopy(ks: seq<nat>)
      requires Valid() && forall p | 0 <= p < |ks| :: ks[p] < |entries|
      requires forall p, q | 0 <= p < q < |ks| :: ks[p] != ks[q]
      modifies this, amaps, anons, entries
      ensures Valid() && |entries| == |old(entries)| + |ks| && entries[..|old(entries)|] == old(entries)
      ensures forall l, j | 0 <= l < |old(entries)| && 0 <= j < entries[l].size :: View(l, j) == old(View(l, j))
      ensures forall p | 0 <= p < |ks| :: Forked(ks[p], |old(entries)| + p)
    {
      var n := |entries|;
      for p := 0 to |ks|
        invariant Valid() && |entries| == n + p && entries[..n] == old(entries) && fresh(anons - old(anons))
        invariant fresh(amaps - old(amaps))
        invariant forall l, j | 0 <= l < n && 0 <= j < entries[l].size :: View(l, j) == old(View(l, j))
        invariant forall q | 0 <= q < p :: Forked(ks[q], n + q)
      {
        assert entries[ks[p]] == old(entries)[ks[p]];
        CopyPair(ks[p]);
      }
    }

    /** Entry n of the child shows what entry k of the parent shows, and whatever either may write it has to itself. */
    ghost predicate Forked(k: int, n: int)
      requires |tables| == |entries|
      reads this, entries, anons
    {
      && 0 <= k < |entries| && 0 <= n < |entries| && entries[n].size == entries[k].size
        && entries[n].writable == entries[k].writable
      && (forall j | 0 <= j < entries[k].size :: View(n, j) == View(k, j))
      && (entries[k].writable ==> forall j | 0 <= j < entries[k].size :: Private(k, j) && Private(n, j))
    }
  }

  /** Two pages of a file, the first of them unmapped: what is left shows the first, not the second. */
  method FrontShifts() returns (v: Vm)
    ensures fresh(v) && v.Valid() && |v.entries| == 1 && v.entries[0].size == 1 && v.View(0, 0) == 7
  {
    v := new Vm();
    var pages := v.NewObject([7, 8]);
    v.MapObject(pages, false);
    ghost var e := v.entries[0];
    assert v.PageAt(0, 1) == pages[1] && v.View(0, 1) == 8;
    assert v.Behind(e, 0) == v.PageAt(0, 0) == pages[0] && !v.HasAnon(0, 1);
    v.UnmapPart(0, 0, 1);
    assert v.PageAt(0, 0) == v.Behind(e, 0);
  }
}
