/**
 The scheduler and the wait queues (proc/threads.c).  Every region guarded by
 threads_common.spinlock is one method, and a run is any sequence of calls.
 */
module Threads {
  import opened Kernel
  import opened Lists
  import opened Scan

  const PRIORITIES: nat := 8

  datatype State = READY | SLEEP

  /** The one list, if any, that a thread's next and prev links are in. */
  datatype Place = Nowhere | OnReady | OnQueue(q: Queue) | OnGhosts

  class Thread {
    const priority: nat
    var state: State
    var exit: bool
    var interruptible: bool
    var wakeup: nat
    var wait: Queue?
    var ret: int
    ghost var at: Place
    ghost var cpu: int

    constructor (priority: nat)
      ensures this.priority == priority && state == READY && !exit && !interruptible && wakeup == 0 && wait == null
      ensures at == Nowhere && cpu == -1
    {
      this.priority, state, exit, interruptible, wakeup, wait, ret := priority, READY, false, false, 0, null, EOK;
      at, cpu := Nowhere, -1;
    }
  }

  /** A wait queue: token stands for the pointer value -1, a wakeup that found nobody waiting. */
  class Queue {
    var token: bool
    var items: seq<Thread>

    constructor ()
      ensures !token && items == []
    {
      token, items := false, [];
    }
  }

  /** Ready queues once t has gone to the end of its own, unless it is on a processor. */
  ghost function Back(r: seq<seq<Thread>>, t: Thread, running: set<Thread>): (l: seq<seq<Thread>>)
    ensures |l| == |r|
  {
    if t in running || t.priority >= |r| then r else r[t.priority := r[t.priority] + [t]]
  }

  /** Ready queues once the threads of s have gone to the end of theirs in turn. */
  ghost function LineUp(r: seq<seq<Thread>>, s: seq<Thread>, running: set<Thread>): (l: seq<seq<Thread>>)
    ensures |l| == |r|
  {
    if s == [] then r else Back(LineUp(r, s[..|s| - 1], running), s[|s| - 1], running)
  }

  lemma LineUpMore(r: seq<seq<Thread>>, s: seq<Thread>, t: Thread, running: set<Thread>)
    ensures LineUp(r, s + [t], running) == Back(LineUp(r, s, running), t, running)
  {
    assert (s + [t])[..|s|] == s;
  }

  /** What there is to a thread apart from where it is. */
  datatype Look = Look(state: State, exit: bool, interruptible: bool, wakeup: nat, wait: Queue?, ret: int)

  ghost function LookOf(t: Thread): Look
    reads t
  {
    Look(t.state, t.exit, t.interruptible, t.wakeup, t.wait, t.ret)
  }

  /** The state of the lists, and what there is to each thread. */
  datatype Sight = Sight(ready: seq<seq<Thread>>, ghosts: seq<Thread>, sleeping: set<Thread>, waiting: seq<Thread>,
    token: bool, running: set<Thread>, looks: map<Thread, Look>)

  /** A wait queue as it was. */
  datatype Line = Line(token: bool, items: seq<Thread>)

  ghost function Set(s: seq<Thread>): set<Thread> {
    set t | t in s
  }

  /** A thread was in the queue it waited in only, and once. */
  ghost predicate Homed(z: Sight, was: map<Queue, Line>) {
    forall q | q in was ::
      Distinct(was[q].items) && forall t | t in was[q].items :: t in z.looks && z.looks[t].wait == q
  }

  /** The sleep tree held those with a wakeup time. */
  ghost predicate Slept(z: Sight) {
    forall t | t in z.looks :: t in z.sleeping <==> z.looks[t].wakeup != 0
  }

  ghost predicate Earlier(z: Sight, t: Thread, u: Thread) {
    t in z.looks && u in z.looks && z.looks[t].wakeup <= z.looks[u].wakeup
  }

  /** The threads of s are in the order of their times. */
  ghost predicate InTime(z: Sight, s: seq<Thread>) {
    forall i, j | 0 <= i < j < |s| :: Earlier(z, s[i], s[j]) && s[i] != s[j]
  }

  /** The time of those of s has come, and nobody left had an earlier one. */
  ghost predicate Past(z: Sight, s: seq<Thread>, rest: set<Thread>, now: nat) {
    && (forall x | x in s :: x in z.sleeping && x in z.looks && z.looks[x].wakeup <= now)
    && (forall x, u | x in s && u in rest :: x != u && Earlier(z, x, u))
  }

  lemma Later(z: Sight, s: seq<Thread>, t: Thread, rest: set<Thread>, now: nat)
    requires InTime(z, s) && Past(z, s, rest, now) && t in rest && t in z.sleeping && t in z.looks
    requires z.looks[t].wakeup <= now && forall u | u in rest :: Earlier(z, t, u)
    ensures InTime(z, s + [t]) && Past(z, s + [t], rest - {t}, now)
  {
    forall x | x in s + [t] ensures x in s || x == t {}
    forall i | 0 <= i < |s| ensures s[i] in s {}
  }

  /** Of those waiting for ghosts, one is woken for each. */
  ghost function Woken(waiting: seq<Thread>, doomed: seq<Thread>): seq<Thread> {
    waiting[..Min(|doomed|, |waiting|)]
  }

  /** One more ghost: one more of the waiting is woken, if there is one. */
  lemma WokenNext(z: Sight, doomed: seq<Thread>, x: Thread)
    ensures var w, v := Woken(z.waiting, doomed), Woken(z.waiting, doomed + [x]);
      var rest := z.waiting[|w|..];
      && v == (if rest == [] then w else w + [rest[0]]) && z.waiting[|v|..] == (if rest == [] then [] else rest[1..])
      && Set(v) == Set(w) + (if rest == [] then {} else {rest[0]})
      && forall t :: t in v <==> t in w || (rest != [] && t == rest[0])
  {
  }

  lemma OneBehind(a: seq<Thread>, b: seq<Thread>, x: Thread)
    ensures (a + b) + [x] == a + (b + [x]) && forall t :: t in b + [x] <==> t in b || t == x
  {
  }

  /**
   The ready queues r are what is left of those seen as z, with the woken at their ends, when met have been met: all
   of the queues before i, and nothing behind it.
   */
  ghost predicate Left(z: Sight, doomed: seq<Thread>, met: seq<Thread>, cuts: seq<nat>, i: nat, r: seq<seq<Thread>>) {
    var lines := LineUp(z.ready, Woken(z.waiting, doomed), z.running);
    && |z.ready| == PRIORITIES && Scanned(lines, cuts, r) && Upto(cuts, i) && Met(lines, cuts, |lines|) == met
    && forall k | 0 <= k < PRIORITIES && k < i :: |z.ready[k]| <= cuts[k]
  }

  /** The queue of a thread, or beyond all of them. */
  ghost function Rank(t: Thread?): nat {
    if t == null then PRIORITIES else t.priority
  }

  ghost function Just(t: Thread?): seq<Thread> {
    if t == null then [] else [t]
  }

  lemma {:induction false} LineUpGrows(r: seq<seq<Thread>>, s: seq<Thread>, running: set<Thread>, k: nat)
    requires k < |r|
    ensures r[k] <= LineUp(r, s, running)[k]
    ensures forall t | t in LineUp(r, s, running)[k] :: t in r[k] || t.priority == k
    decreases |s|
  {
    if s != [] { LineUpGrows(r, s[..|s| - 1], running, k); }
  }

  /** Nothing is read yet. */
  ghost function Uncut(n: nat): (cuts: seq<nat>)
    ensures |cuts| == n && forall k | 0 <= k < n :: cuts[k] == 0
  {
    seq(n, k => 0)
  }

  lemma AtFirst(z: Sight)
    requires |z.ready| == PRIORITIES
    ensures Left(z, [], [], Uncut(PRIORITIES), 0, z.ready)
  {
    NoneMet(z.ready, Uncut(PRIORITIES), PRIORITIES);
    assert Woken(z.waiting, []) == [];
  }

  /** The first of queue i is met, and no ghost. */
  lemma LeftPick(z: Sight, doomed: seq<Thread>, cuts: seq<nat>, i: nat, r: seq<seq<Thread>>)
    requires i < |r| && r[i] != [] && Left(z, doomed, doomed, cuts, i, r)
    ensures Left(z, doomed, doomed + [r[i][0]], cuts[i := cuts[i] + 1], i, r[i := r[i][1..]])
  {
    MeetOne(LineUp(z.ready, Woken(z.waiting, doomed), z.running), cuts, r, i);
  }

  /** Queue i is empty: the search goes on to the next. */
  lemma Passed(z: Sight, doomed: seq<Thread>, cuts: seq<nat>, i: nat, r: seq<seq<Thread>>)
    requires i < |r| && r[i] == [] && Left(z, doomed, doomed, cuts, i, r)
    ensures Left(z, doomed, doomed, cuts, i + 1, r)
  {
    LineUpGrows(z.ready, Woken(z.waiting, doomed), z.running, i);
  }

  /**
   Of the threads in the queues that are not about to die none has a better place than the one selected: none is
   in an earlier queue, or before it in its own.
   */
  lemma Best(z: Sight, doomed: seq<Thread>, selected: Thread?, cuts: seq<nat>, r: seq<seq<Thread>>, k: nat, x: nat)
    requires Left(z, doomed, doomed + Just(selected), cuts, Rank(selected), r)
    requires forall t | t in doomed :: t in z.looks && z.looks[t].exit
    requires forall j, t | 0 <= j < PRIORITIES && t in z.ready[j] :: t.priority == j
    requires k < PRIORITIES && x < |z.ready[k]| && z.ready[k][x] in z.looks && !z.looks[z.ready[k][x]].exit
    ensures selected != null && selected.priority <= k
    ensures k == selected.priority ==> selected in z.ready[k][..x + 1]
  {
    var lines := LineUp(z.ready, Woken(z.waiting, doomed), z.running);
    var t := z.ready[k][x];
    LineUpGrows(z.ready, Woken(z.waiting, doomed), z.running, k);
    assert t !in doomed && lines[k][x] == t && t in z.ready[k];
    if x < cuts[k] {
      WasMet(lines, cuts, PRIORITIES, k, x);
      assert t == selected;
    } else {
      var s: Thread := selected;
      assert s in doomed + Just(selected);
      MetWhere(lines, cuts, PRIORITIES, s);
      var j, y :| 0 <= j < PRIORITIES && 0 <= y < cuts[j] <= |lines[j]| && lines[j][y] == s;
      LineUpGrows(z.ready, Woken(z.waiting, doomed), z.running, j);
      assert s in lines[j] && s.priority == j;
    }
  }

  /** x is the first of its queue that has not been told to exit. */
  ghost predicate First(z: Sight, x: Thread)
    requires x.priority < |z.ready|
  {
    var s := z.ready[x.priority];
    forall j | 0 <= j < |s| && s[j] in z.looks && !z.looks[s[j]].exit :: x in s[..j + 1]
  }

  lemma BestAll(z: Sight, doomed: seq<Thread>, selected: Thread?, cuts: seq<nat>, r: seq<seq<Thread>>)
    requires Left(z, doomed, doomed + Just(selected), cuts, Rank(selected), r)
    requires forall t | t in doomed :: t in z.looks && z.looks[t].exit
    requires forall j, t | 0 <= j < PRIORITIES && t in z.ready[j] :: t in z.looks && t.priority == j
    ensures forall k, t | 0 <= k < PRIORITIES && t in z.ready[k] && !z.looks[t].exit ::
      selected != null && selected.priority <= k
    ensures selected != null && selected.priority < PRIORITIES ==> First(z, selected)
  {
    forall k, t | 0 <= k < PRIORITIES && t in z.ready[k] && !z.looks[t].exit
      ensures selected != null && selected.priority <= k {
      var x :| 0 <= x < |z.ready[k]| && z.ready[k][x] == t;
      Best(z, doomed, selected, cuts, r, k, x);
    }
    if selected != null && selected.priority < PRIORITIES {
      var s := z.ready[selected.priority];
      forall j | 0 <= j < |s| && s[j] in z.looks && !z.looks[s[j]].exit ensures selected in s[..j + 1] {
        Best(z, doomed, selected, cuts, r, selected.priority, j);
      }
    }
  }

  /** One more is met, at queue i, and becomes a ghost. */
  lemma LeftOn(z: Sight, doomed: seq<Thread>, cuts: seq<nat>, i: nat, r: seq<seq<Thread>>)
    requires i < |r| && r[i] != [] && Left(z, doomed, doomed, cuts, i, r)
    ensures var x, rest := r[i][0], z.waiting[|Woken(z.waiting, doomed)|..];
      var cut := r[i := r[i][1..]];
      Left(z, doomed + [x], doomed + [x], cuts[i := cuts[i] + 1], i,
        if rest == [] then cut else Back(cut, rest[0], z.running))
  {
    var x, w := r[i][0], Woken(z.waiting, doomed);
    var lines, cuts', cut := LineUp(z.ready, w, z.running), cuts[i := cuts[i] + 1], r[i := r[i][1..]];
    var rest := z.waiting[|w|..];
    MeetOne(lines, cuts, r, i);
    WokenNext(z, doomed, x);
    if rest != [] {
      var t := rest[0];
      LineUpMore(z.ready, w, t, z.running);
      if t !in z.running && t.priority < |z.ready| { JoinOne(lines, cuts', cut, t.priority, t); }
    }
  }

  class Scheduler {
    const ready: array<seq<Thread>>
    const current: array<Thread?>
    var ghosts: seq<Thread>
    var sleeping: set<Thread>
    const reaper: Queue
    ghost var threads: set<Thread>
    ghost var queues: set<Queue>

    /** _threads_init, before the first thread is created. */
    constructor (cpus: nat)
      ensures Valid() && threads == {} && queues == {reaper} && current.Length == cpus && ghosts == []
    {
      ready := new seq<Thread>[PRIORITIES](i => []);
      current := new Thread?[cpus](i => null);
      ghosts, sleeping := [], {};
      reaper := new Queue();
      threads := {};
      new;
      queues := {reaper};
    }

    /** A new wait queue, as in proc_lockInit. */
    method NewQueue() returns (q: Queue)
      requires Valid()
      modifies this`queues
      ensures Valid() && fresh(q) && queues == old(queues) + {q} && q.items == [] && !q.token
    {
      q := new Queue();
      queues := queues + {q};
      forall k | 0 <= k < ready.Length ensures Ready(k) { assert old(Ready(k)); }
      forall p | p in queues ensures Waiting(p) { if p != q { assert old(Waiting(p)); } }
      forall c | 0 <= c < current.Length ensures Seat(c) { assert old(Seat(c)); }
      forall u | u in threads ensures Ok(u) { assert old(Ok(u)); }
    }

    /** The threads on a processor, asleep or not. */
    ghost function Running(): set<Thread>
      reads this, threads`cpu
    {
      set t | t in threads && t.cpu != -1
    }

    /** The lists hold threads that know they are there, once each. */
    ghost predicate Ready(k: int)
      requires 0 <= k < ready.Length
      reads this, ready, threads`at
    {
      Distinct(ready[k]) && forall t | t in ready[k] :: t in threads && t.at == OnReady && t.priority == k
    }

    ghost predicate Ghosts()
      reads this, threads`at
    {
      Distinct(ghosts) && forall t | t in ghosts :: t in threads && t.at == OnGhosts
    }

    ghost predicate Waiting(q: Queue)
      reads this, threads`at, q
    {
      && Distinct(q.items) && (q.token ==> q.items == [])
      && forall t | t in q.items :: t in threads && t.at == OnQueue(q)
    }

    ghost predicate Seat(c: int)
      requires 0 <= c < current.Length
      reads this, current, threads`cpu
    {
      current[c] != null ==> current[c] in threads && current[c].cpu == c
    }

    /** What is true of every thread. */
    ghost predicate Ok(t: Thread)
      reads this, ready, current, queues, t`at, t`cpu, t`state, t`interruptible, t`wakeup, t`wait
    {
      && t.priority < ready.Length
      && (t.at == OnReady ==> t in ready[t.priority]) && (t.at == OnGhosts ==> t in ghosts)
      && (t.at.OnQueue? <==> t.wait != null)
        && (t.wait != null ==> t.at.q == t.wait && t.wait in queues && t in t.wait.items)
      && (t in sleeping <==> t.wakeup != 0)
      && (t.cpu != -1 ==> 0 <= t.cpu < current.Length && current[t.cpu] == t && t.at != OnReady && t.at != OnGhosts)
      && (t.state == READY ==> t.wait == null && t.wakeup == 0 && !t.interruptible)
      && (t.state == READY && t.cpu == -1 ==> t.at == OnReady || t.at == OnGhosts)
      && (t.state == SLEEP ==> t.at != OnReady && t.at != OnGhosts && (t.wait != null || t.wakeup != 0))
    }

    ghost predicate Valid()
      reads this, ready, current, queues, threads`at, threads`cpu, threads`state, threads`interruptible
      reads threads`wakeup, threads`wait
    {
      && ready.Length == PRIORITIES && reaper in queues && sleeping <= threads && Ghosts()
      && (forall k {:trigger Ready(k)} | 0 <= k < ready.Length :: Ready(k))
      && (forall q {:trigger Waiting(q)} | q in queues :: Waiting(q))
      && (forall c {:trigger Seat(c)} | 0 <= c < current.Length :: Seat(c))
      && (forall t {:trigger Ok(t)} | t in threads :: Ok(t))
    }

    /**
     A thread is on at most one list; if it is ready it is on one processor or in the queue of its
     priority, never both; if it sleeps it is in no ready queue, and it is in the sleep tree exactly
     when it has a wakeup time.
     */
    lemma OnePlace(t: Thread)
      requires Valid() && t in threads
      ensures forall k | 0 <= k < ready.Length && t in ready[k] ::
        k == t.priority && t !in ghosts && forall q | q in queues :: t !in q.items
      ensures forall q, p | q in queues && p in queues && t in q.items && t in p.items :: q == p && t !in ghosts
      ensures t.priority < ready.Length && t.state == READY && t !in ghosts ==>
                ((exists c :: 0 <= c < current.Length && current[c] == t) <==> t !in ready[t.priority])
      ensures forall c, d | 0 <= c < current.Length && 0 <= d < current.Length && current[c] == t
        && current[d] == t :: c == d
      ensures t.state == SLEEP ==>
        (forall k | 0 <= k < ready.Length :: t !in ready[k]) && (t in sleeping <==> t.wakeup != 0)
    {
      assert Ok(t);
      forall k | 0 <= k < ready.Length && t in ready[k] ensures t.at == OnReady && k == t.priority { assert Ready(k); }
      forall q | q in queues && t in q.items ensures t.at == OnQueue(q) { assert Waiting(q); }
      forall c | 0 <= c < current.Length && current[c] == t ensures c == t.cpu { assert Seat(c); }
    }

    /** The list s is what it was, but for t. */
    ghost predicate SameBut(s: seq<Thread>, r: seq<Thread>, t: Thread) {
      Distinct(r) && (forall u | u in r && u != t :: u in s) && (forall u | u in s && u != t :: u in r)
    }

    /** Where t is found. */
    lemma Where(t: Thread)
      requires Valid() && t in threads
      ensures Ok(t) && t.priority < PRIORITIES == ready.Length
      ensures forall k | 0 <= k < PRIORITIES ::
        Distinct(ready[k]) && (t in ready[k] ==> t.at == OnReady && t.priority == k)
      ensures forall q | q in queues ::
        Distinct(q.items) && (t in q.items ==> t.at == OnQueue(q)) && (q.token ==> q.items == [])
      ensures forall c | 0 <= c < current.Length :: current[c] == t ==> t.cpu == c
    {
      assert Ok(t);
      forall k | 0 <= k < PRIORITIES
        ensures Distinct(ready[k]) && (t in ready[k] ==> t.at == OnReady && t.priority == k) { assert Ready(k); }
      forall q | q in queues
        ensures Distinct(q.items) && (t in q.items ==> t.at == OnQueue(q))
        ensures (q.token ==> q.items == []) { assert Waiting(q); }
      forall c | 0 <= c < current.Length ensures current[c] == t ==> t.cpu == c { assert Seat(c); }
    }

    /** Nothing moved but t, and t is in order: everything is in order. */
    twostate lemma Moved(new t: Thread)
      requires old(Valid()) && threads == old(threads) + {t} && queues == old(queues) && ready.Length == PRIORITIES
      requires forall u | u in old(threads) && u != t :: unchanged(u)
      requires forall k | 0 <= k < PRIORITIES ::
        SameBut(old(ready[k]), ready[k], t) && (t in ready[k] ==> t.at == OnReady && t.priority == k)
      requires SameBut(old(ghosts), ghosts, t) && (t in ghosts ==> t.at == OnGhosts)
      requires forall q | q in queues ::
        SameBut(old(q.items), q.items, t) && (t in q.items ==> t.at == OnQueue(q)) && (q.token ==> q.items == [])
      requires sleeping <= threads && forall u | u in threads && u != t :: u in sleeping <==> u in old(sleeping)
      requires forall c | 0 <= c < current.Length :: (current[c] == t ==> t.cpu == c)
                 && (current[c] == old(current[c]) || (current[c] == t && old(current[c]) == null)
                   || (current[c] == null && old(current[c]) == t))
      requires Ok(t)
      ensures Valid()
    {
      forall k | 0 <= k < ready.Length ensures Ready(k) {
        assert old(Ready(k));
      }
      forall q | q in queues ensures Waiting(q) {
        assert old(Waiting(q));
      }
      forall c | 0 <= c < current.Length ensures Seat(c) {
        assert old(Seat(c));
      }
      forall u | u in threads ensures Ok(u) {
        if u != t { assert old(Ok(u)); }
      }
    }

    /** Whether t is on some processor: the loop over threads_common.current. */
    method OnCpu(t: Thread) returns (yes: bool)
      requires Valid() && t in threads
      ensures yes <==> t.cpu != -1
    {
      assert Ok(t);
      for i := 0 to current.Length
        invariant forall c | 0 <= c < i :: current[c] != t
      {
        if current[i] == t {
          assert Seat(i);
          return true;
        }
      }
      return false;
    }

    /** Everything _proc_threadDequeue writes. */
    method Unwait(t: Thread, running: bool)
      requires t.wait != null ==> t in t.wait.items
      requires t.priority < ready.Length
      modifies t, t.wait, this`sleeping, ready
      ensures t.state == READY && t.wakeup == 0 && t.wait == null && !t.interruptible && t.exit == old(t.exit)
      ensures t.cpu == old(t.cpu) && t.ret == old(t.ret)
      ensures t.at == if running then Nowhere else OnReady
      ensures sleeping == if old(t.wakeup) == 0 then old(sleeping) else old(sleeping) - {t}
      ensures var q := old(t.wait); q != null ==> q.items == Without(old(q.items), t) && q.token == old(q.token)
      ensures ready[..] == if running then old(ready[..])
        else old(ready[..])[t.priority := old(ready[t.priority]) + [t]]
    {
      if t.wait != null {
        t.wait.items := Without(t.wait.items, t);
      }
      if t.wakeup != 0 {
        sleeping := sleeping - {t};
      }
      t.wakeup, t.wait, t.state, t.interruptible := 0, null, READY, false;
      t.at := Nowhere;
      if !running {
        ready[t.priority] := ready[t.priority] + [t];
        t.at := OnReady;
      }
    }

    /** _proc_threadDequeue: a sleeper is ready again; nobody else notices. */
    method Dequeue(t: Thread)
      requires Valid() && t in threads && t.state == SLEEP
      modifies t, t.wait, this`sleeping, ready
      ensures Valid() && t.state == READY && t.exit == old(t.exit) && t.cpu == old(t.cpu) && t.ret == old(t.ret)
      ensures t.priority < PRIORITIES
      ensures sleeping == old(sleeping) - {t}
      ensures var q := old(t.wait); q != null ==> q.items == Without(old(q.items), t) && q.token == old(q.token)
      ensures ready[..] == if t.cpu != -1 then old(ready[..])
        else old(ready[..])[t.priority := old(ready[t.priority]) + [t]]
    {
      Where(t);
      ghost var w := t.wait;
      var running := OnCpu(t);
      Unwait(t, running);
      if w != null { WithoutAll(old(w.items), t); assert SameBut(old(w.items), w.items, t); }
      Moved(t);
    }

    /** Everything _proc_threadEnqueue writes when it does put the thread to sleep. */
    method Doze(t: Thread, q: Queue, wake: nat, interruptible: bool)
      modifies t, q`items, this`sleeping
      ensures q.items == old(q.items) + [t] && t.state == SLEEP && t.wait == q && t.at == OnQueue(q)
      ensures t.interruptible == interruptible
      ensures t.wakeup == wake && sleeping == if wake == 0 then old(sleeping) else old(sleeping) + {t}
      ensures t.cpu == old(t.cpu) && t.exit == old(t.exit) && t.ret == old(t.ret)
    {
      q.items := q.items + [t];
      t.state, t.wakeup, t.wait, t.interruptible := SLEEP, 0, q, interruptible;
      t.at := OnQueue(q);
      if wake != 0 {
        t.wakeup := wake;
        sleeping := sleeping + {t};
      }
    }

    /**
     _proc_threadEnqueue on processor c: a wakeup that came too early is used up and the thread goes on;
     otherwise it is the last of the queue and asleep, though still on its processor.  wake is the wakeup time,
       0 for none.
     */
    method Enqueue(c: nat, q: Queue, wake: nat, interruptible: bool) returns (asleep: bool)
      requires Valid() && c < current.Length && current[c] != null && current[c].state == READY && q in queues
      modifies current[c], q, this`sleeping
      ensures Valid() && asleep == !old(q.token) && !q.token
      ensures !asleep ==> unchanged(current[c]) && sleeping == old(sleeping) && q.items == []
      ensures asleep ==> sleeping == if wake == 0 then old(sleeping) else old(sleeping) + {current[c]}
      ensures asleep ==>
        current[c].state == SLEEP && current[c].wait == q && current[c].wakeup == wake
        && current[c].interruptible == interruptible && current[c].exit == old(current[c].exit)
        && current[c].ret == old(current[c].ret) && q.items == old(q.items) + [current[c]]
    {
      assert Waiting(q) && Seat(c);
      var t := current[c];
      Where(t);
      if q.token {
        q.token := false;
        Moved(t);
        return false;
      }
      AppendAll(q.items, t);
      Doze(t, q, wake, interruptible);
      assert SameBut(old(q.items), q.items, t);
      Moved(t);
      return true;
    }

    /** proc_threadSleep on processor c. */
    method Sleep(c: nat, wake: nat)
      requires Valid() && c < current.Length && current[c] != null && current[c].state == READY && wake != 0
      modifies current[c], this`sleeping
      ensures Valid() && current[c].state == SLEEP && current[c].wait == null && current[c].wakeup == wake
      ensures current[c].interruptible
      ensures current[c].exit == old(current[c].exit) && current[c].ret == old(current[c].ret)
      ensures sleeping == old(sleeping) + {current[c]}
    {
      assert Seat(c);
      var t := current[c];
      Where(t);
      t.state, t.wait, t.wakeup, t.interruptible := SLEEP, null, wake, true;
      sleeping := sleeping + {t};
      Moved(t);
    }

    /** t went to the end of its ready queue, unless it is on a processor anyway. */
    twostate predicate Rejoined(t: Thread)
      reads t, ready
    {
      && t.state == READY && t.cpu == old(t.cpu) && t.exit == old(t.exit) && t.ret == old(t.ret)
      && t in old(threads) && t.priority < PRIORITIES == ready.Length && ready[..] == old(Back(ready[..], t, Running()))
    }

    /** t is ready, and otherwise what it was. */
    twostate predicate Readied(t: Thread)
      reads t
    {
      t.state == READY && t.exit == old(t.exit) && t.ret == old(t.ret)
    }

    /** t is as it was, wherever it is now. */
    twostate predicate Rested(t: Thread)
      reads t
    {
      LookOf(t) == old(LookOf(t))
    }

    /** _proc_threadWakeup: the first waiter, if any, is ready again. */
    method WakeFirst(q: Queue)
      requires Valid() && q in queues
      modifies this`sleeping, ready, q, q.items
      ensures Valid() && q.token == old(q.token)
      ensures old(q.items) == [] ==> q.items == [] && ready[..] == old(ready[..]) && sleeping == old(sleeping)
      ensures old(q.items) != [] ==> q.items == old(q.items)[1..] && old(q.items)[0].state == READY
      ensures old(q.items) != [] ==> sleeping == old(sleeping) - {old(q.items)[0]}
      ensures forall u | u in old(q.items) && u != old(q.items)[0] :: unchanged(u)
      ensures old(q.items) != [] ==> Rejoined(old(q.items)[0])
    {
      assert Waiting(q);
      if q.items != [] {
        assert q.items[0] in q.items && Ok(q.items[0]);
        Dequeue(q.items[0]);
      }
    }

    /** proc_threadWakeup: if nobody waits, the wakeup is kept for the next who comes. */
    method Wakeup(q: Queue) returns (woken: bool)
      requires Valid() && q in queues
      modifies this`sleeping, ready, q, q.items
      ensures Valid() && woken == (old(q.items) != [])
      ensures woken ==> q.items == old(q.items)[1..] && Rejoined(old(q.items)[0]) && !q.token
      ensures woken ==> sleeping == old(sleeping) - {old(q.items)[0]}
      ensures forall u | u in old(q.items) && u != old(q.items)[0] :: unchanged(u)
      ensures !woken ==> q.token && q.items == [] && ready[..] == old(ready[..]) && sleeping == old(sleeping)
    {
      assert Waiting(q);
      if q.items != [] {
        WakeFirst(q);
        return true;
      }
      q.token := true;
      TokenSet(q);
      return false;
    }

    twostate lemma TokenSet(new q: Queue)
      requires old(Valid()) && q in queues && threads == old(threads) && queues == old(queues)
      requires ghosts == old(ghosts) && sleeping == old(sleeping)
      requires q.items == [] == old(q.items) && unchanged(ready) && unchanged(current) && unchanged(threads)
      requires forall p | p in queues && p != q :: unchanged(p)
      ensures Valid()
    {
      forall k | 0 <= k < ready.Length ensures Ready(k) { assert old(Ready(k)); }
      forall p | p in queues ensures Waiting(p) { assert old(Waiting(p)); }
      forall c | 0 <= c < current.Length ensures Seat(c) { assert old(Seat(c)); }
      forall u | u in threads ensures Ok(u) { assert old(Ok(u)); }
    }

    /** proc_threadBroadcast: everybody who waits is ready again; an unused wakeup stays. */
    method Broadcast(q: Queue) returns (woken: nat)
      requires Valid() && q in queues
      modifies this`sleeping, ready, q, q.items
      ensures Valid() && q.items == [] && q.token == old(q.token) && woken == |old(q.items)|
      ensures forall t | t in old(q.items) :: t.state == READY && t.exit == old(t.exit) && t.ret == old(t.ret)
      ensures ready[..] == old(LineUp(ready[..], q.items, Running()))
    {
      assert Waiting(q);
      assert !q.token ==> q.items[..|q.items|] == q.items;
      woken := 0;
      if !q.token {
        while q.items != []
          invariant Valid() && !q.token && woken <= |old(q.items)| && q.items == old(q.items)[woken..]
          invariant forall i | 0 <= i < woken :: Readied(old(q.items)[i])
          invariant forall t | t in q.items :: t.cpu == old(t.cpu) && t.exit == old(t.exit) && t.ret == old(t.ret)
          invariant ready[..] == old(LineUp(ready[..], q.items[..woken], Running()))
          decreases |q.items|
        {
          assert q.items[0] == old(q.items)[woken];
          assert Waiting(q);
          label L:
          WakeFirst(q);
          forall t | t in q.items ensures t.cpu == old(t.cpu) && t.exit == old(t.exit) && t.ret == old(t.ret)
            { assert t in old@L(q.items)[1..] && t in old@L(q.items); }
          assert old(q.items)[..woken + 1][..woken] == old(q.items)[..woken];
          woken := woken + 1;
        }
      }
    }

    /** lib_rbMinimum of the sleep tree. */
    method Earliest() returns (t: Thread?)
      ensures t == null <==> sleeping == {}
      ensures t != null ==> t in sleeping && forall u | u in sleeping :: t.wakeup <= u.wakeup
    {
      t := null;
      var rest := sleeping;
      while rest != {}
        invariant rest <= sleeping && (t == null <==> rest == sleeping)
        invariant t != null ==> t in sleeping && forall u | u in sleeping && u !in rest :: t.wakeup <= u.wakeup
        decreases |rest|
      {
        var u :| u in rest;
        rest := rest - {u};
        if t == null || u.wakeup < t.wakeup {
          t := u;
        }
      }
    }

    /** A sleeper is woken for another reason than its queue, and told so. */
    method Rouse(t: Thread, why: int)
      requires Valid() && t in threads && (t.wakeup != 0 || t.interruptible)
      modifies t, t.wait, this`sleeping, ready
      ensures Valid() && t.state == READY && t.ret == why && t.exit == old(t.exit) && sleeping == old(sleeping) - {t}
      ensures ready[..] == old(Back(ready[..], t, Running())) && t.cpu == old(t.cpu)
      ensures var q := old(t.wait); q != null ==> q.items == Without(old(q.items), t) && q.token == old(q.token)
    {
      assert Ok(t);
      Dequeue(t);
      t.ret := why;
    }

    /** t is as it looked, or its time has come. */
    ghost predicate Due(z: Sight, t: Thread, woken: bool)
      reads t
    {
      t in z.looks && LookOf(t) == if woken then Look(READY, z.looks[t].exit, false, 0, null, ETIME) else z.looks[t]
    }

    /** The threads of woken have been woken because of the time, and gone to the end of their queues in turn. */
    ghost predicate Timed(z: Sight, woken: seq<Thread>)
      reads this, ready, threads
    {
      && threads == z.looks.Keys && Running() == z.running && ghosts == z.ghosts
      && sleeping == z.sleeping - Set(woken) && ready[..] == LineUp(z.ready, woken, z.running)
      && (forall t {:trigger Due(z, t, t in woken)} | t in threads :: Due(z, t, t in woken))
    }

    /** The wait queues, and what is in them. */
    ghost function Queued(): map<Queue, Line>
      reads this, queues
    {
      map q | q in queues :: Line(q.token, q.items)
    }

    /** They have left their wait queues, which are otherwise as they were. */
    ghost predicate Stripped(was: map<Queue, Line>, gone: set<Thread>)
      reads this, queues
    {
      queues == was.Keys && forall q | q in queues :: q.token == was[q].token && q.items == Strip(was[q].items, gone)
    }

    /** In a valid state a thread is in the queue it waits in only. */
    lemma Homes()
      requires Valid()
      ensures Homed(InSight(), Queued()) && Stripped(Queued(), Set([])) && Timed(InSight(), []) && Slept(InSight())
    {
      forall q | q in queues ensures Distinct(q.items) && forall t | t in q.items :: t in threads && t.wait == q {
        assert Waiting(q);
        forall t | t in q.items ensures t in threads && t.wait == q { assert Ok(t); }
      }
      forall q | q in queues ensures q.items == Strip(q.items, Set([])) { StripNone(q.items, Set([])); }
      forall t | t in threads ensures Due(InSight(), t, t in []) && (t in sleeping <==> t.wakeup != 0) { assert Ok(t); }
    }

    /** threads_timeintr: all those whose time has come wake with -ETIME, the earliest first, and only they. */
    method TimeIntr(now: nat) returns (ghost woken: seq<Thread>)
      requires Valid()
      modifies this`sleeping, ready, queues, sleeping
      ensures Valid() && Timed(old(InSight()), woken) && Stripped(old(Queued()), Set(woken))
      ensures forall t | t in threads :: t in woken <==> 0 < old(t.wakeup) <= now
      ensures InTime(old(InSight()), woken)
    {
      Homes();
      ghost var z, was := InSight(), Queued();
      woken := [];
      var t := Peek(z, was, woken);
      while t != null && t.wakeup <= now
        invariant Valid() && Timed(z, woken) && Stripped(was, Set(woken)) && Homed(z, was)
        invariant t == null <==> sleeping == {}
        invariant t != null ==> t in sleeping && forall u | u in sleeping :: t.wakeup <= u.wakeup
        invariant Past(z, woken, sleeping, now) && InTime(z, woken)
        decreases |sleeping|
      {
        assert Ok(t) && Due(z, t, t in woken);
        ghost var x: Thread := t;
        t := WakeDue(t, z, was, woken, now);
        woken := woken + [x];
      }
      AllDue(z, woken, now);
    }

    /** When nobody left is due, those woken are all who were. */
    lemma AllDue(z: Sight, woken: seq<Thread>, now: nat)
      requires sleeping <= threads && Timed(z, woken) && Past(z, woken, sleeping, now) && Slept(z)
      requires forall u | u in sleeping :: now < u.wakeup
      ensures forall t | t in z.looks :: t in woken <==> 0 < z.looks[t].wakeup <= now
    {
      forall t | t in z.looks ensures t in woken <==> 0 < z.looks[t].wakeup <= now { assert Due(z, t, t in woken); }
    }

    /** The sleeper that is due wakes, and the earliest of the rest is the next to look at. */
    method WakeDue(t: Thread, ghost z: Sight, ghost was: map<Queue, Line>, ghost woken: seq<Thread>, ghost now: nat)
      returns (next: Thread?)
      requires Valid() && t in sleeping && Timed(z, woken) && Stripped(was, Set(woken)) && Homed(z, was)
      requires t.wakeup <= now && (forall u | u in sleeping :: t.wakeup <= u.wakeup)
      requires Past(z, woken, sleeping, now) && InTime(z, woken)
      modifies t, t.wait, this`sleeping, ready
      ensures Valid() && sleeping == old(sleeping) - {t} && Timed(z, woken + [t]) && Stripped(was, Set(woken + [t]))
      ensures |sleeping| < |old(sleeping)|
      ensures Past(z, woken + [t], sleeping, now) && InTime(z, woken + [t])
      ensures next == null <==> sleeping == {}
      ensures next != null ==> next in sleeping && forall u | u in sleeping :: next.wakeup <= u.wakeup
    {
      DueNext(z, woken, t, now);
      RouseDue(t, z, was, woken);
      next := Peek(z, was, woken + [t]);
    }

    /** To look for the earliest changes nothing. */
    method Peek(ghost z: Sight, ghost was: map<Queue, Line>, ghost woken: seq<Thread>) returns (t: Thread?)
      requires Valid() && Timed(z, woken) && Stripped(was, Set(woken))
      ensures Valid() && Timed(z, woken) && Stripped(was, Set(woken))
      ensures t == null <==> sleeping == {}
      ensures t != null ==> t in sleeping && forall u | u in sleeping :: t.wakeup <= u.wakeup
    {
      t := Earliest();
    }

    lemma DueNext(z: Sight, woken: seq<Thread>, t: Thread, now: nat)
      requires sleeping <= threads && t in sleeping && Timed(z, woken) && t.wakeup <= now
      requires forall u | u in sleeping :: t.wakeup <= u.wakeup
      requires Past(z, woken, sleeping, now) && InTime(z, woken)
      ensures Past(z, woken + [t], sleeping - {t}, now) && InTime(z, woken + [t])
    {
      forall u | u in sleeping ensures u in z.looks && u.wakeup == z.looks[u].wakeup { assert Due(z, u, u in woken); }
      Later(z, woken, t, sleeping, now);
    }

    method RouseDue(t: Thread, ghost z: Sight, ghost was: map<Queue, Line>, ghost woken: seq<Thread>)
      requires Valid() && t in sleeping && Timed(z, woken) && Stripped(was, Set(woken)) && Homed(z, was)
      modifies t, t.wait, this`sleeping, ready
      ensures Valid() && sleeping == old(sleeping) - {t} && Timed(z, woken + [t]) && Stripped(was, Set(woken + [t]))
    {
      assert Ok(t) && Due(z, t, t in woken);
      Rouse(t, ETIME);
      assert Ok(t);
      TimedNext(z, woken, t);
      StrippedNext(z, was, woken, t);
    }

    twostate lemma TimedNext(z: Sight, new woken: seq<Thread>, new t: Thread)
      requires old(allocated(woken)) && old(Timed(z, woken)) && threads == old(threads) && ghosts == old(ghosts)
      requires t in threads && t !in woken
      requires sleeping == old(sleeping) - {t} && ready[..] == old(Back(ready[..], t, Running()))
      requires LookOf(t) == Look(READY, old(t.exit), false, 0, null, ETIME) && t.cpu == old(t.cpu)
      requires forall u | u in threads && u != t :: unchanged(u)
      ensures Timed(z, woken + [t])
    {
      LineUpMore(z.ready, woken, t, z.running);
      assert Running() == old(Running());
      assert Set(woken + [t]) == Set(woken) + {t};
      forall u | u in threads ensures Due(z, u, u in woken + [t]) { assert old(Due(z, u, u in woken)); }
    }

    twostate lemma StrippedNext(z: Sight, new was: map<Queue, Line>, new woken: seq<Thread>, new t: Thread)
      requires old(allocated(was)) && old(allocated(woken))
      requires old(Stripped(was, Set(woken))) && queues == old(queues) && Homed(z, was) && t !in woken
      requires t in z.looks && z.looks[t].wait == old(t.wait)
      requires forall q | q in queues :: if q == old(t.wait) then
        q.token == old(q.token) && q.items == Without(old(q.items), t) else unchanged(q)
      ensures Stripped(was, Set(woken + [t]))
    {
      assert Set(woken + [t]) == Set(woken) + {t};
      forall q | q in queues ensures q.token == was[q].token && q.items == Strip(was[q].items, Set(woken) + {t}) {
        if q == old(t.wait) { StripMore(was[q].items, Set(woken), t); } else { StripSame(was[q].items, Set(woken), t); }
      }
    }

    /** proc_threadCreate, once the thread is set up. */
    method Create(t: Thread)
      requires Valid() && t !in threads && t.priority < PRIORITIES
      requires t.state == READY && t.wakeup == 0 && t.wait == null && !t.interruptible && t.at == Nowhere && t.cpu == -1
      requires forall c | 0 <= c < current.Length :: current[c] != t
      modifies this`threads, ready, t`at
      ensures Valid() && threads == old(threads) + {t}
      ensures ready[..] == old(ready[..])[t.priority := old(ready[t.priority]) + [t]]
    {
      forall k | 0 <= k < PRIORITIES ensures t !in ready[k] && Distinct(ready[k]) { assert Ready(k); }
      forall q | q in queues ensures t !in q.items && Distinct(q.items) && (q.token ==> q.items == [])
        { assert Waiting(q); }
      ready[t.priority] := ready[t.priority] + [t];
      t.at := OnReady;
      threads := threads + {t};
      Moved(t);
    }

    /** The first thread of a ready queue becomes a ghost. */
    method BuryFirst(k: nat) returns (t: Thread)
      requires Valid() && k < PRIORITIES && ready[k] != []
      modifies this`ghosts, ready, threads`at
      ensures Valid() && t == old(ready[k])[0] && ghosts == old(ghosts) + [t] && t.at == OnGhosts
      ensures ready[..] == old(ready[..])[k := old(ready[k])[1..]]
      ensures forall u | u in threads && u != t :: u.at == old(u.at)
    {
      assert Ready(k);
      t := ready[k][0];
      Where(t);
      ready[k] := ready[k][1..];
      ghosts := ghosts + [t];
      t.at := OnGhosts;
      Moved(t);
    }

    /** The thread on processor c becomes a ghost. */
    method Retire(c: nat)
      requires Valid() && c < current.Length && current[c] != null && current[c].state == READY
      modifies this`ghosts, current, current[c]
      ensures Valid() && current[c] == null && ghosts == old(ghosts) + [old(current[c])]
      ensures forall d | 0 <= d < current.Length && d != c :: current[d] == old(current[d])
      ensures old(current[c]) !in reaper.items && Rested(old(current[c])) && Running() == old(Running() - {current[c]})
    {
      assert Seat(c) && Waiting(reaper);
      var t := current[c];
      Where(t);
      current[c] := null;
      t.cpu := -1;
      ghosts := ghosts + [t];
      t.at := OnGhosts;
      Moved(t);
    }

    /** proc_threadEnd on processor c. */
    method End(c: nat)
      requires Valid() && c < current.Length && current[c] != null && current[c].state == READY
      modifies this`ghosts, this`sleeping, ready, current, current[c], reaper, reaper.items
      ensures Valid() && current[c] == null && ghosts == old(ghosts) + [old(current[c])] && Rested(old(current[c]))
      ensures forall d | 0 <= d < current.Length && d != c :: current[d] == old(current[d])
      ensures reaper.token == old(reaper.token)
      ensures old(reaper.items) == [] ==> reaper.items == [] && ready[..] == old(ready[..]) && sleeping == old(sleeping)
      ensures old(reaper.items) != [] ==> reaper.items == old(reaper.items)[1..] && Rejoined(old(reaper.items)[0])
      ensures old(reaper.items) != [] ==> sleeping == old(sleeping) - {old(reaper.items)[0]}
      ensures forall u | u in old(reaper.items) && u != old(reaper.items)[0] :: unchanged(u)
    {
      Retire(c);
      label M:
      WakeFirst(reaper);
      if old(reaper.items) != [] {
        var x := old(reaper.items)[0];
        assert Rejoined@M(x);
        assert x in old(reaper.items);
        assert old@M(Back(ready[..], x, Running())) == old(Back(ready[..], x, Running()));
      }
    }

    /** _proc_threadExit: the thread is to die; if it may be interrupted it wakes to do so. */
    method Exit(t: Thread)
      requires Valid() && t in threads
      modifies t, t.wait, this`sleeping, ready
      ensures Valid() && t.exit && (old(t.interruptible) ==> t.state == READY && t.ret == EINTR)
      ensures !old(t.interruptible) ==>
        t.state == old(t.state) && t.ret == old(t.ret) && t.wakeup == old(t.wakeup) && t.wait == old(t.wait)
        && !t.interruptible && ready[..] == old(ready[..]) && sleeping == old(sleeping)
      ensures old(t.interruptible) ==>
        ready[..] == old(Back(ready[..], t, Running())) && sleeping == old(sleeping) - {t}
      ensures var q := old(t.wait); q != null ==>
        q.items == (if old(t.interruptible) then Without(old(q.items), t) else old(q.items)) && q.token == old(q.token)
    {
      t.exit := true;
      if t.interruptible {
        Rouse(t, EINTR);
      }
    }

    /** proc_reap, when there is a ghost: it is forgotten. */
    method Reap() returns (t: Thread)
      requires Valid() && ghosts != []
      modifies this`ghosts, this`threads
      ensures Valid() && t == old(ghosts)[0] && ghosts == old(ghosts)[1..] && threads == old(threads) - {t}
    {
      t := ghosts[0];
      Where(t);
      ghosts := ghosts[1..];
      threads := threads - {t};
      forall k | 0 <= k < ready.Length ensures Ready(k) { assert old(Ready(k)); }
      forall q | q in queues ensures Waiting(q) { assert old(Waiting(q)); }
      forall d | 0 <= d < current.Length ensures Seat(d) { assert old(Seat(d)); }
      forall u | u in threads ensures Ok(u) { assert old(Ok(u)); }
    }

    /** The ready queues once the thread on processor c, if it can go on, has been put at the end of its own. */
    ghost function Lines(c: int): (l: seq<seq<Thread>>)
      requires 0 <= c < current.Length
      reads ready, current, current[c]
      ensures |l| == ready.Length
    {
      var t := current[c];
      if t != null && t.state == READY && t.priority < ready.Length then
        ready[..][t.priority := ready[t.priority] + [t]]
      else ready[..]
    }

    /** The thread on processor c steps down, to the end of its ready queue if it can go on. */
    method StepDown(c: nat)
      requires Valid() && c < current.Length
      modifies ready, current, current[c]
      ensures Valid() && current[c] == null
      ensures forall d | 0 <= d < current.Length && d != c :: current[d] == old(current[d])
      ensures old(current[c]) != null && old(current[c]).state == READY ==> old(current[c]).at == OnReady
      ensures old(current[c]) != null ==>
        old(current[c]).state == old(current[c].state) && old(current[c]).exit == old(current[c].exit)
      ensures forall t | t in threads && old(t.at) == OnReady :: t.at == OnReady
      ensures ready[..] == old(Lines(c)) && Running() == old(Running()) - {old(current[c])}
      ensures forall t | t in threads :: Rested(t) && t.cpu == if old(t.cpu) == c then -1 else old(t.cpu)
    {
      assert Seat(c);
      var t := current[c];
      forall u | u in threads && u.cpu == c ensures u == t { assert Ok(u); }
      current[c] := null;
      if t != null {
        assert old(t in threads) && old(Ok(t));
        t.cpu := -1;
        if t.state == READY {
          ready[t.priority] := ready[t.priority] + [t];
          t.at := OnReady;
        }
        Placed(t);
        Moved(t);
      }
    }

    twostate lemma Placed(new t: Thread)
      requires old(Valid()) && t in old(threads)
      ensures old(Ok(t)) && t.priority < PRIORITIES == ready.Length
      ensures forall k | 0 <= k < PRIORITIES ::
        Distinct(old(ready[k])) && (t in old(ready[k]) ==> old(t.at) == OnReady && t.priority == k)
      ensures forall q | q in old(queues) ::
        Distinct(old(q.items)) && (t in old(q.items) ==> old(t.at) == OnQueue(q))
        && (old(q.token) ==> old(q.items) == [])
      ensures forall d | 0 <= d < current.Length :: old(current[d]) == t ==> old(t.cpu) == d
    {
      assert old(Ok(t));
      forall k | 0 <= k < PRIORITIES
        ensures Distinct(old(ready[k]))
        ensures (t in old(ready[k]) ==> old(t.at) == OnReady && t.priority == k) { assert old(Ready(k)); }
      forall q | q in old(queues)
        ensures Distinct(old(q.items)) && (t in old(q.items) ==> old(t.at) == OnQueue(q))
        ensures (old(q.token) ==> old(q.items) == []) { assert old(Waiting(q)); }
      forall d | 0 <= d < current.Length ensures old(current[d]) == t ==> old(t.cpu) == d { assert old(Seat(d)); }
    }

    /** The first thread of ready queue k goes on processor c. */
    method Dispatch(c: nat, k: nat) returns (t: Thread)
      requires Valid() && c < current.Length && current[c] == null && k < PRIORITIES && ready[k] != []
      modifies ready, current, threads`at, threads`cpu
      ensures Valid() && t == old(ready[k])[0] == current[c] && t in threads && t.priority == k && t.state == READY
      ensures t.at == Nowhere && Running() == old(Running()) + {t}
      ensures ready[..] == old(ready[..])[k := old(ready[k])[1..]]
      ensures forall d | 0 <= d < current.Length && d != c :: current[d] == old(current[d])
    {
      assert Ready(k);
      t := ready[k][0];
      Where(t);
      ready[k] := ready[k][1..];
      t.at := Nowhere;
      current[c] := t;
      t.cpu := c;
      Moved(t);
    }

    /** One more ghost, one fewer thread that is not. */
    lemma Fewer(s: seq<Thread>, g: Thread, all: set<Thread>)
      ensures g in all && g !in s ==> all - Set(s + [g]) < all - Set(s)
    {
      if g in all && g !in s {
        assert g in all - Set(s);
        assert g !in all - Set(s + [g]);
      }
    }

    /** One thread off ready queue i to the ghosts; the reaper is told. */
    method Doom(i: nat)
      requires Valid() && i < PRIORITIES && ready[i] != []
      modifies this`ghosts, this`sleeping, ready, threads, reaper
      ensures Valid() && ghosts == old(ghosts) + [old(ready[i])[0]] && old(ready[i])[0] !in old(ghosts)
      ensures old(ready[i])[0] in threads && Running() == old(Running()) && reaper.token == old(reaper.token)
      ensures reaper.items == if old(reaper.items) == [] then [] else old(reaper.items)[1..]
      ensures var cut := old(ready[..])[i := old(ready[i])[1..]];
        ready[..] == if old(reaper.items) == [] then cut else Back(cut, old(reaper.items)[0], Running())
      ensures sleeping == if old(reaper.items) == [] then old(sleeping) else old(sleeping) - {old(reaper.items)[0]}
      ensures forall t | t in threads :: t.exit == old(t.exit) && t.ret == old(t.ret)
      ensures forall t | t in threads && (old(reaper.items) == [] || t != old(reaper.items)[0]) :: Rested(t)
      ensures old(reaper.items) != [] ==> old(reaper.items)[0] in threads && old(reaper.items)[0].state == READY
    {
      assert Ready(i) && Waiting(reaper);
      var g := BuryFirst(i);
      assert Waiting(reaper);
      label B:
      WakeFirst(reaper);
      assert old(reaper.items) != [] ==> Rejoined@B(old(reaper.items)[0]);
      forall t | t in threads
        ensures t.cpu == old(t.cpu) && t.exit == old(t.exit) && t.ret == old(t.ret)
        ensures (old(reaper.items) == [] || t != old(reaper.items)[0]) ==> Rested(t)
      {
        if t in old@B(reaper.items) {
          if t != old(reaper.items)[0] { assert unchanged@B(t); }
        } else {
          assert unchanged@B(t);
        }
      }
    }

    /** What the search of threads_schedule depends on. */
    ghost function InSight(): Sight
      reads this, ready, reaper, threads
    {
      Sight(ready[..], ghosts, sleeping, reaper.items, reaper.token, Running(), map t | t in threads :: LookOf(t))
    }

    /** t is as it looked, or was woken. */
    ghost predicate Seen(z: Sight, t: Thread, woken: bool)
      reads t
    {
      && t in z.looks && t.exit == z.looks[t].exit && t.ret == z.looks[t].ret
      && if woken then t.state == READY else LookOf(t) == z.looks[t]
    }

    /**
     What was seen as z, once met have been met: doomed have become ghosts, and for each of them one thread that
     waited for ghosts is back at the end of its ready queue.
     */
    ghost predicate Swept(z: Sight, doomed: seq<Thread>, met: seq<Thread>, cuts: seq<nat>, i: nat)
      reads this, ready, reaper, threads
    {
      Left(z, doomed, met, cuts, i, ready[..]) && Apart(z, doomed)
    }

    /** Apart from the ready queues. */
    ghost predicate Apart(z: Sight, doomed: seq<Thread>)
      reads this, reaper, threads
    {
      var woken := Woken(z.waiting, doomed);
      && threads == z.looks.Keys && ghosts == z.ghosts + doomed
      && reaper.items == z.waiting[|woken|..] && reaper.token == z.token && sleeping == z.sleeping - Set(woken)
      && (forall t | t in doomed :: t in z.looks && z.looks[t].exit)
      && (forall t {:trigger Seen(z, t, t in woken)} | t in threads :: Seen(z, t, t in woken))
    }

    /** One turn of the search that meets a dying thread. */
    method DoomNext(i: nat, ghost z: Sight, ghost doomed0: seq<Thread>, ghost cuts0: seq<nat>)
      returns (ghost doomed: seq<Thread>, ghost cuts: seq<nat>)
      requires Valid() && i < PRIORITIES && ready[i] != [] && ready[i][0].exit && Running() == z.running
      requires Swept(z, doomed0, doomed0, cuts0, i)
      modifies this`ghosts, this`sleeping, ready, threads, reaper
      ensures Valid() && Running() == z.running && threads == old(threads)
      ensures Swept(z, doomed, doomed, cuts, i)
      ensures threads - Set(ghosts) < old(threads - Set(ghosts))
    {
      ghost var x := ready[i][0];
      doomed, cuts := doomed0 + [x], cuts0[i := cuts0[i] + 1];
      LeftOn(z, doomed0, cuts0, i, ready[..]);
      WokenNext(z, doomed0, x);
      Fewer(ghosts, x, threads);
      DoomApart(i, z, doomed0);
    }

    method DoomApart(i: nat, ghost z: Sight, ghost doomed: seq<Thread>)
      requires Valid() && i < PRIORITIES && ready[i] != [] && ready[i][0].exit && Apart(z, doomed)
      modifies this`ghosts, this`sleeping, ready, threads, reaper
      ensures Valid() && Running() == old(Running()) && threads == old(threads)
      ensures Apart(z, doomed + [old(ready[i])[0]])
      ensures ghosts == old(ghosts) + [old(ready[i])[0]] && old(ready[i])[0] !in old(ghosts)
      ensures old(ready[i])[0] in threads
      ensures var cut := old(ready[..])[i := old(ready[i])[1..]];
        ready[..] == if old(reaper.items) == [] then cut else Back(cut, old(reaper.items)[0], Running())
    {
      ghost var x := ready[i][0];
      assert Ready(i);
      Doom(i);
      ApartOn(z, doomed, x);
    }

    twostate lemma ApartOn(new z: Sight, new doomed: seq<Thread>, new x: Thread)
      requires old(allocated(z)) && old(allocated(doomed)) && old(Apart(z, doomed)) && x in old(threads) && old(x.exit)
      requires threads == old(threads) && ghosts == old(ghosts) + [x] && reaper.token == old(reaper.token)
      requires reaper.items == if old(reaper.items) == [] then [] else old(reaper.items)[1..]
      requires sleeping == if old(reaper.items) == [] then old(sleeping) else old(sleeping) - {old(reaper.items)[0]}
      requires forall t | t in threads :: t.exit == old(t.exit) && t.ret == old(t.ret)
      requires forall t | t in threads && (old(reaper.items) == [] || t != old(reaper.items)[0]) :: Rested(t)
      requires old(reaper.items) != [] ==> old(reaper.items)[0] in threads && old(reaper.items)[0].state == READY
      ensures Apart(z, doomed + [x])
    {
      WokenNext(z, doomed, x);
      OneBehind(z.ghosts, doomed, x);
      assert old(Seen(z, x, x in Woken(z.waiting, doomed)));
      forall t | t in threads ensures Seen(z, t, t in Woken(z.waiting, doomed + [x])) {
        assert old(Seen(z, t, t in Woken(z.waiting, doomed)));
      }
    }

    /** The search of threads_schedule: dying threads met on the way become ghosts. */
    method Select(c: nat) returns (selected: Thread?, ghost doomed: seq<Thread>, ghost cuts: seq<nat>)
      requires Valid() && c < current.Length && current[c] == null
      modifies this`ghosts, this`sleeping, ready, current, threads, reaper
      ensures Valid() && current[c] == selected
      ensures forall d | 0 <= d < current.Length && d != c :: current[d] == old(current[d])
      ensures selected != null ==> selected in threads && selected.state == READY && !selected.exit
      ensures selected != null ==> selected.priority < PRIORITIES && Running() == old(Running()) + {selected}
      ensures selected == null ==> Running() == old(Running())
      ensures Swept(old(InSight()), doomed, doomed + Just(selected), cuts, Rank(selected))
    {
      selected := null;
      ghost var z := InSight();
      doomed, cuts := [], Uncut(PRIORITIES);
      AtFirst(z);
      var i := 0;
      while i < PRIORITIES
        invariant 0 <= i <= PRIORITIES && Valid() && Swept(z, doomed, doomed, cuts, i) && Running() == z.running
        invariant forall d | 0 <= d < current.Length :: current[d] == old(current[d])
        invariant threads == old(threads)
        decreases threads - Set(ghosts), PRIORITIES - i
      {
        if ready[i] == [] {
          Passed(z, doomed, cuts, i, ready[..]);
          i := i + 1;
          continue;
        }
        if !ready[i][0].exit {
          selected, cuts := Pick(c, i, z, doomed, cuts);
          return;
        }
        doomed, cuts := DoomNext(i, z, doomed, cuts);
      }
    }

    /** The turn that ends the search: the first of ready queue i goes on processor c. */
    method Pick(c: nat, i: nat, ghost z: Sight, ghost doomed: seq<Thread>, ghost cuts0: seq<nat>)
      returns (t: Thread, ghost cuts: seq<nat>)
      requires Valid() && c < current.Length && current[c] == null && i < PRIORITIES && ready[i] != []
      requires !ready[i][0].exit && Swept(z, doomed, doomed, cuts0, i)
      modifies ready, current, threads`at, threads`cpu
      ensures Valid() && current[c] == t && t in threads && t.state == READY && !t.exit && t.priority == i
      ensures forall d | 0 <= d < current.Length && d != c :: current[d] == old(current[d])
      ensures Running() == old(Running()) + {t} && Swept(z, doomed, doomed + [t], cuts, i)
    {
      assert Ready(i);
      LeftPick(z, doomed, cuts0, i, ready[..]);
      cuts := cuts0[i := cuts0[i] + 1];
      t := Dispatch(c, i);
      forall u | u in threads ensures Seen(z, u, u in Woken(z.waiting, doomed)) {
        assert old(Seen(z, u, u in Woken(z.waiting, doomed)));
      }
    }

    /** What the search depends on, once the thread on processor c has stepped down. */
    ghost function Ahead(c: int): Sight
      requires 0 <= c < current.Length
      reads this, ready, reaper, threads, current, current[c]
    {
      InSight().(ready := Lines(c), running := Running() - {current[c]})
    }

    /**
     threads_schedule on processor c: the thread chosen is never worse in priority than any thread that could have
     gone on, and if none is chosen there was none.  Of the others, only the dying threads met before it have become
     ghosts, each of which has woken one of those waiting for ghosts; all else is where it was.
     */
    method Schedule(c: nat) returns (selected: Thread?, ghost doomed: seq<Thread>, ghost cuts: seq<nat>)
      requires Valid() && c < current.Length
      modifies this`ghosts, this`sleeping, ready, current, threads, reaper
      ensures Valid() && current[c] == selected
      ensures forall d | 0 <= d < current.Length && d != c :: current[d] == old(current[d])
      ensures selected != null ==> selected in threads && selected.state == READY && !selected.exit
      ensures Swept(old(Ahead(c)), doomed, doomed + Just(selected), cuts, Rank(selected))
      ensures forall t | t in threads && old(t.state) == READY && !old(t.exit)
        && (old(t.at) == OnReady || old(t.cpu) == c) ::
                selected != null && selected.priority <= t.priority
      ensures selected != null ==> selected.priority < PRIORITIES && First(old(Ahead(c)), selected)
    {
      InLines(c);
      ghost var z := Ahead(c);
      selected, doomed, cuts := Reselect(c, z);
      BestAll(z, doomed, selected, cuts, ready[..]);
    }

    /** The thread on processor c steps down, and the search begins. */
    method Reselect(c: nat, ghost z: Sight) returns (selected: Thread?, ghost doomed: seq<Thread>, ghost cuts: seq<nat>)
      requires Valid() && c < current.Length && z == Ahead(c)
      modifies this`ghosts, this`sleeping, ready, current, threads, reaper
      ensures Valid() && current[c] == selected
      ensures forall d | 0 <= d < current.Length && d != c :: current[d] == old(current[d])
      ensures selected != null ==>
        selected in threads && selected.state == READY && !selected.exit && selected.priority < PRIORITIES
      ensures Swept(z, doomed, doomed + Just(selected), cuts, Rank(selected))
    {
      assert Seat(c);
      StepDown(c);
      assert InSight() == z;
      selected, doomed, cuts := Select(c);
    }

    /** The threads that can go on are in the queue of their priority once the one on processor c has stepped down. */
    lemma InLines(c: nat)
      requires Valid() && c < current.Length
      ensures forall k, t | 0 <= k < PRIORITIES && t in Lines(c)[k] :: t in threads && t.priority == k
      ensures forall t | t in threads && t.state == READY && (t.at == OnReady || t.cpu == c) ::
        t.priority < PRIORITIES && t in Lines(c)[t.priority]
    {
      assert Seat(c);
      forall k, t | 0 <= k < PRIORITIES && t in Lines(c)[k] ensures t in threads && t.priority == k { assert Ready(k); }
      forall t | t in threads && t.state == READY && (t.at == OnReady || t.cpu == c)
        ensures t.priority < PRIORITIES && t in Lines(c)[t.priority] { assert Ok(t); }
    }
  }
}
