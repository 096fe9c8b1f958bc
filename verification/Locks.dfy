/**
 The sleeping locks of proc/threads.c as a state machine.  A step is what happens under the
 lock's spinlock and threads_common.spinlock; proc_lockClear takes two, because a waiter can be
 interrupted between its look at the queue and its wakeup.
 */
module Locks {
  import opened Lists

  type Tid = nat

  /** Where a thread is with respect to one lock. */
  datatype Phase =
    | Idle              // not using the lock
    | Trying            // in the loop of _proc_lockSet, about to look at v
    | Waiting           // asleep in the queue
    | Holding           // has the lock
    | Clearing(waiters: bool)  // has set v, and saw waiters or not
    | Dead              // reaped

  datatype Lock = Lock(v: bool, token: bool, queue: seq<Tid>, phase: map<Tid, Phase>, spin: bool)

  datatype Step =
    | Begin(t: Tid)
    | Attempt(t: Tid)
    | Try(t: Tid)
    | ClearBegin(t: Tid)
    | ClearEnd(t: Tid)
    | Interrupt(t: Tid)
    | Kill(t: Tid)

  function Ph(l: Lock, t: Tid): Phase {
    if t in l.phase then l.phase[t] else Idle
  }

  /** proc_lockInit. */
  const INIT: Lock := Lock(true, false, [], map[], false)

  predicate Enabled(l: Lock, s: Step) {
    match s
    case Begin(t) => Ph(l, t) == Idle
    case Attempt(t) => Ph(l, t) == Trying && !l.spin
    case Try(t) => Ph(l, t) == Idle && !l.spin
    case ClearBegin(t) => Ph(l, t) == Holding && !l.spin
    case ClearEnd(t) => Ph(l, t).Clearing?
    case Interrupt(t) => Ph(l, t) == Waiting
    case Kill(t) => Ph(l, t) == Trying || Ph(l, t) == Holding || Ph(l, t) == Idle
  }

  function Next(l: Lock, s: Step): Lock {
    match s
    case Begin(t) => l.(phase := l.phase[t := Trying])
    case Attempt(t) =>
      if l.v then l.(v := false, phase := l.phase[t := Holding])
      else if l.token then l.(token := false)
      else l.(queue := l.queue + [t], phase := l.phase[t := Waiting])
    case Try(t) => if l.v then l.(v := false, phase := l.phase[t := Holding]) else l.(v := false)
    case ClearBegin(t) => l.(v := true, spin := true, phase := l.phase[t := Clearing(l.queue != [])])
    case ClearEnd(t) =>
      var done := l.(spin := false, phase := l.phase[t := Idle]);
      if Ph(l, t) != Clearing(true) then done
      else if l.queue == [] then done.(token := true)
      else done.(queue := l.queue[1..], phase := done.phase[l.queue[0] := Trying])
    case Interrupt(t) => l.(queue := Without(l.queue, t), phase := l.phase[t := Idle])
    case Kill(t) => l.(phase := l.phase[t := Dead])
  }

  /** The waiting threads are those in the queue. */
  ghost predicate Lined(l: Lock) {
    && Distinct(l.queue) && (l.token ==> l.queue == [])
    && (forall t | t in l.queue :: Ph(l, t) == Waiting)
    && (forall t {:trigger Ph(l, t)} :: Ph(l, t) == Waiting ==> t in l.queue)
  }

  /** At most one thread has the lock, and at most one is about to give it up. */
  ghost predicate Guarded(l: Lock) {
    && (forall t {:trigger Ph(l, t)} :: Ph(l, t) == Holding ==> !l.v)
    && (forall t, u {:trigger Ph(l, t), Ph(l, u)} :: Ph(l, t) == Holding && Ph(l, u) == Holding ==> t == u)
    && (forall t {:trigger Ph(l, t)} :: Ph(l, t).Clearing? ==> l.spin)
    && (forall t, u {:trigger Ph(l, t), Ph(l, u)} :: Ph(l, t).Clearing? && Ph(l, u).Clearing? ==> t == u)
    && (l.spin ==> l.v && exists t :: Ph(l, t).Clearing?)
  }

  /** The order of things in every reachable state. */
  ghost predicate Orderly(l: Lock) {
    Lined(l) && Guarded(l)
  }

  /** Thread t is about to try the lock, or about to wake the first waiter. */
  predicate Attends(l: Lock, t: Tid) {
    Ph(l, t) == Trying || Ph(l, t) == Clearing(true)
  }

  /** A free lock with waiters is attended to. */
  ghost predicate Progress(l: Lock) {
    l.v && l.queue != [] ==> exists t :: Attends(l, t)
  }

  /** The step kills the only thread that could attend to a free lock with waiters. */
  ghost predicate Strands(l: Lock, s: Step) {
    s.Kill? && l.v && l.queue != [] && forall u {:trigger Attends(l, u)} :: u != s.t ==> !Attends(l, u)
  }

  lemma NextPh(l: Lock, s: Step, t: Tid)
    requires Enabled(l, s) && t != s.t
    ensures Ph(Next(l, s), t) == Ph(l, t)
      || (s.ClearEnd? && Ph(l, s.t) == Clearing(true) && l.queue != [] && t == l.queue[0]
      && Ph(Next(l, s), t) == Trying)
  {
  }

  lemma StepLined(l: Lock, s: Step)
    requires Lined(l) && Enabled(l, s)
    ensures Lined(Next(l, s))
  {
    var n := Next(l, s);
    assert Ph(l, s.t) == Ph(l, s.t);
    WithoutAll(l.queue, s.t);
    forall u ensures u != s.t ==> Ph(n, u) == Ph(l, u) || (l.queue != [] && u == l.queue[0] && Ph(n, u) == Trying) {
      if u != s.t { NextPh(l, s, u); }
    }
  }

  lemma StepGuarded(l: Lock, s: Step)
    requires Guarded(l) && Enabled(l, s)
    ensures Guarded(Next(l, s))
  {
    var n := Next(l, s);
    assert Ph(l, s.t) == Ph(l, s.t);
    forall u ensures u != s.t ==> Ph(n, u) == Ph(l, u) || Ph(n, u) == Trying {
      if u != s.t { NextPh(l, s, u); }
    }
    if s.ClearBegin? {
      assert Ph(n, s.t).Clearing?;
    } else if n.spin {
      var c :| Ph(l, c).Clearing?;
      NextPh(l, s, c);
      assert Ph(n, c).Clearing?;
    }
  }

  lemma StepOrderly(l: Lock, s: Step)
    requires Orderly(l) && Enabled(l, s)
    ensures Orderly(Next(l, s))
  {
    StepLined(l, s);
    StepGuarded(l, s);
  }

  /** Every step but a kill that strands keeps a free lock attended to. */
  lemma StepProgress(l: Lock, s: Step)
    requires Orderly(l) && Progress(l) && Enabled(l, s)
    ensures Progress(Next(l, s)) <==> !Strands(l, s)
  {
    var n := Next(l, s);
    if n.v && n.queue != [] {
      match s
      case Begin(t) =>
        assert Attends(n, t);
      case ClearBegin(t) =>
        assert Attends(n, t);
      case ClearEnd(t) =>
        if Ph(l, t) == Clearing(true) {
          assert Attends(n, l.queue[0]);
        } else {
          var u :| Attends(l, u);
          NextPh(l, s, u);
          assert Attends(n, u);
        }
      case Interrupt(t) =>
        assert l.queue != [];
        var u :| Attends(l, u);
        NextPh(l, s, u);
        assert Attends(n, u);
      case Kill(t) =>
        forall u ensures Attends(n, u) <==> u != t && Attends(l, u) {}
      case _ =>
        assert false;
    }
  }

  /* ---- runs ---- */

  ghost predicate Run(l: Lock, steps: seq<Step>)
    decreases |steps|
  {
    steps == [] || (Enabled(l, steps[0]) && Run(Next(l, steps[0]), steps[1..]))
  }

  function After(l: Lock, steps: seq<Step>): Lock
    decreases |steps|
  {
    if steps == [] then l else After(Next(l, steps[0]), steps[1..])
  }

  lemma {:induction false} RunOrderly(l: Lock, steps: seq<Step>)
    requires Orderly(l) && Run(l, steps)
    ensures Orderly(After(l, steps))
    decreases |steps|
  {
    if steps != [] {
      StepOrderly(l, steps[0]);
      RunOrderly(Next(l, steps[0]), steps[1..]);
    }
  }

  /** No kill of the run takes the last thread that attends to a free lock with waiters. */
  ghost predicate Spared(l: Lock, steps: seq<Step>)
    decreases |steps|
  {
    steps == [] || (!Strands(l, steps[0]) && Spared(Next(l, steps[0]), steps[1..]))
  }

  /** The lock is attended to in every state the run goes through. */
  ghost predicate Attended(l: Lock, steps: seq<Step>) {
    forall k {:trigger steps[..k]} | 0 <= k <= |steps| :: Progress(After(l, steps[..k]))
  }

  lemma AttendedStep(l: Lock, steps: seq<Step>)
    requires steps != [] && Progress(l)
    ensures Attended(l, steps) <==> Attended(Next(l, steps[0]), steps[1..])
  {
    var n, rest := Next(l, steps[0]), steps[1..];
    forall k | 0 < k <= |steps| ensures After(l, steps[..k]) == After(n, rest[..k - 1]) {
      assert steps[..k][1..] == rest[..k - 1];
    }
    if Attended(l, steps) {
      forall k | 0 <= k <= |rest| ensures Progress(After(n, rest[..k])) {
        assert After(l, steps[..k + 1]) == After(n, rest[..k + 1 - 1]);
      }
    }
  }

  lemma {:induction false} RunAttended(l: Lock, steps: seq<Step>)
    requires Orderly(l) && Progress(l) && Run(l, steps)
    ensures Attended(l, steps) <==> Spared(l, steps)
    decreases |steps|
  {
    if steps != [] {
      StepOrderly(l, steps[0]);
      StepProgress(l, steps[0]);
      AttendedStep(l, steps);
      if Strands(l, steps[0]) {
        assert steps[1..][..0] == [];
      } else {
        RunAttended(Next(l, steps[0]), steps[1..]);
      }
    }
  }

  /**
   In every run, kills included: a free lock that has waiters is attended to all along exactly if no kill
   strands them.
   */
  lemma KillsHarmless(steps: seq<Step>)
    requires Run(INIT, steps)
    ensures Attended(INIT, steps) <==> Spared(INIT, steps)
  {
    RunAttended(INIT, steps);
  }

  /** In every run, whatever is killed or interrupted, at most one thread holds the lock. */
  lemma MutualExclusion(steps: seq<Step>, t: Tid, u: Tid)
    requires Run(INIT, steps) && Ph(After(INIT, steps), t) == Holding && Ph(After(INIT, steps), u) == Holding
    ensures t == u && !After(INIT, steps).v
  {
    RunOrderly(INIT, steps);
  }

  /** A step more at the end of a run. */
  lemma RunEnd(l: Lock, steps: seq<Step>, s: Step)
    requires Run(l, steps) && Enabled(After(l, steps), s)
    ensures Run(l, steps + [s]) && After(l, steps + [s]) == Next(After(l, steps), s)
  {
    RunStep(After(l, steps), Next(After(l, steps), s), [s]);
    RunOn(l, steps, [s]);
  }

  /**
   At the end of every run, a thread that gets to look at the lock has it exactly if it was free; a busy lock puts
   it to sleep behind all others, unless a wakeup was kept.
   */
  lemma Takes(steps: seq<Step>, t: Tid)
    requires Run(INIT, steps) && Enabled(After(INIT, steps), Attempt(t))
    ensures var l, n := After(INIT, steps), After(INIT, steps + [Attempt(t)]);
      && Run(INIT, steps + [Attempt(t)]) && !n.v && (Ph(n, t) == Holding <==> l.v)
      && (Ph(n, t) == Waiting <==> !l.v && !l.token)
      && n.queue == (if Ph(n, t) == Waiting then l.queue + [t] else l.queue)
      && (n.token <==> l.v && l.token)
  {
    RunEnd(INIT, steps, Attempt(t));
  }

  /** And proc_lockTry gets it exactly if it is free, and otherwise changes nothing. */
  lemma TriesOnce(steps: seq<Step>, t: Tid)
    requires Run(INIT, steps) && Enabled(After(INIT, steps), Try(t))
    ensures var l, n := After(INIT, steps), After(INIT, steps + [Try(t)]);
      && Run(INIT, steps + [Try(t)]) && !n.v && (Ph(n, t) == Holding <==> l.v) && (!l.v ==> n == l)
      && n.queue == l.queue && n.token == l.token
  {
    RunEnd(INIT, steps, Try(t));
  }

  /** In every reachable state with a free lock, whoever tries gets it, at the latest when a proc_lockClear is over. */
  lemma Obtains(steps: seq<Step>, t: Tid)
    requires Run(INIT, steps) && After(INIT, steps).v && Ph(After(INIT, steps), t) == Trying
    ensures exists more: seq<Step> ::
      |more| <= 2 && Run(INIT, steps + more) && Ph(After(INIT, steps + more), t) == Holding
  {
    RunOrderly(INIT, steps);
    var l := After(INIT, steps);
    if !l.spin {
      RunEnd(INIT, steps, Attempt(t));
      assert Ph(After(INIT, steps + [Attempt(t)]), t) == Holding;
    } else {
      var c :| Ph(l, c).Clearing?;
      RunEnd(INIT, steps, ClearEnd(c));
      RunEnd(INIT, steps + [ClearEnd(c)], Attempt(t));
      assert steps + [ClearEnd(c)] + [Attempt(t)] == steps + [ClearEnd(c), Attempt(t)];
      assert Ph(After(INIT, steps + [ClearEnd(c), Attempt(t)]), t) == Holding;
    }
  }

  /** From every reachable state, the holder's proc_lockClear hands the lock to the first waiter; the rest wait on. */
  lemma HandsOver(steps: seq<Step>, t: Tid)
    requires Run(INIT, steps) && Ph(After(INIT, steps), t) == Holding && After(INIT, steps).queue != []
    ensures var l := After(INIT, steps);
      var all := steps + [ClearBegin(t), ClearEnd(t), Attempt(l.queue[0])];
      var n := After(INIT, all);
      && Run(INIT, all) && Ph(n, l.queue[0]) == Holding && !n.v && n.queue == l.queue[1..]
      && Ph(n, t) == Idle && forall u | u in n.queue :: Ph(n, u) == Waiting
  {
    RunOrderly(INIT, steps);
    var l := After(INIT, steps);
    var u := l.queue[0];
    assert u in l.queue;
    var a, b, c := steps + [ClearBegin(t)], steps + [ClearBegin(t), ClearEnd(t)],
      steps + [ClearBegin(t), ClearEnd(t), Attempt(u)];
    RunEnd(INIT, steps, ClearBegin(t));
    RunEnd(INIT, a, ClearEnd(t));
    assert a + [ClearEnd(t)] == b;
    RunEnd(INIT, b, Attempt(u));
    assert b + [Attempt(u)] == c;
    RunOrderly(INIT, c);
  }

  /** A kept wakeup stays until somebody looks at the busy lock, who does not sleep then. */
  ghost predicate LooksBusy(l: Lock, s: Step) {
    s.Attempt? && !l.v
  }

  ghost predicate NobodyLooks(l: Lock, steps: seq<Step>)
    decreases |steps|
  {
    steps == [] || (!LooksBusy(l, steps[0]) && NobodyLooks(Next(l, steps[0]), steps[1..]))
  }

  lemma {:induction false} TokenKept(l: Lock, steps: seq<Step>)
    requires l.token && Run(l, steps) && NobodyLooks(l, steps)
    ensures After(l, steps).token
    decreases |steps|
  {
    if steps != [] { TokenKept(Next(l, steps[0]), steps[1..]); }
  }

  /**
   If the only waiter is interrupted between the two halves of proc_lockClear, its wakeup is not lost: whatever
   happens then, the next who looks at the busy lock goes round again instead of sleeping, and uses it up.
   */
  lemma WakeupKept(steps: seq<Step>, t: Tid, u: Tid, more: seq<Step>, w: Tid)
    requires Run(INIT, steps) && Ph(After(INIT, steps), t) == Holding && After(INIT, steps).queue == [u]
    requires var n := Next(Next(Next(After(INIT, steps), ClearBegin(t)), Interrupt(u)), ClearEnd(t));
      Run(n, more) && NobodyLooks(n, more) && Enabled(After(n, more), Attempt(w)) && !After(n, more).v
    ensures var l := After(INIT, steps);
      var n := Next(Next(Next(l, ClearBegin(t)), Interrupt(u)), ClearEnd(t));
      && Run(l, [ClearBegin(t), Interrupt(u), ClearEnd(t)]) && n.token && n.queue == [] && n.v
      && After(n, more).token
      && var m := Next(After(n, more), Attempt(w)); Ph(m, w) == Trying && !m.token && m.queue == []
  {
    RunOrderly(INIT, steps);
    var l := After(INIT, steps);
    assert u in l.queue && Ph(l, u) == Waiting;
    var a := Next(l, ClearBegin(t));
    var b := Next(a, Interrupt(u));
    var n := Next(b, ClearEnd(t));
    assert Without([u], u) == [];
    RunStep(b, n, [ClearEnd(t)]);
    RunStep(a, b, [Interrupt(u), ClearEnd(t)]);
    RunStep(l, a, [ClearBegin(t), Interrupt(u), ClearEnd(t)]);
    TokenKept(n, more);
    RunOrderly(l, [ClearBegin(t), Interrupt(u), ClearEnd(t)]);
    RunOrderly(n, more);
  }

  /** Where a thread stands in the queue. */
  ghost predicate Ahead(q: seq<Tid>, u: Tid, w: Tid) {
    exists i, j :: 0 <= i < j < |q| && q[i] == u && q[j] == w
  }

  /** First come, first served: of two waiters the first stays ahead, and the second is not woken before it. */
  lemma StepFair(l: Lock, s: Step, u: Tid, w: Tid)
    requires Orderly(l) && Enabled(l, s) && Ahead(l.queue, u, w)
    ensures var n := Next(l, s);
      && (Ph(n, u) == Waiting ==> Ahead(n.queue, u, w) || (s == Interrupt(w) && Ph(n, w) == Idle))
      && (s.ClearEnd? ==> Ph(n, w) == Waiting)
  {
    var n := Next(l, s);
    var i, j :| 0 <= i < j < |l.queue| && l.queue[i] == u && l.queue[j] == w;
    assert Ph(l, u) == Waiting && Ph(l, w) == Waiting;
    match s
    case Attempt(t) =>
      assert n.queue[i] == u && n.queue[j] == w;
    case ClearEnd(t) =>
      if Ph(l, t) == Clearing(true) && i > 0 { assert n.queue[i - 1] == u && n.queue[j - 1] == w; }
      else if Ph(l, t) != Clearing(true) { assert n.queue[i] == u && n.queue[j] == w; }
    case Interrupt(t) =>
      if t != u && t != w { StillAhead(l.queue, t, u, w); }
    case _ =>
      assert n.queue[i] == u && n.queue[j] == w;
  }

  /** With nobody waiting, proc_lockClear leaves the lock free and keeps no wakeup of its own. */
  lemma Releases(steps: seq<Step>, t: Tid)
    requires Run(INIT, steps) && Ph(After(INIT, steps), t) == Holding && After(INIT, steps).queue == []
    ensures var l := After(INIT, steps);
      var all := steps + [ClearBegin(t), ClearEnd(t)];
      Run(INIT, all) && After(INIT, all) == l.(v := true, phase := After(INIT, all).phase)
      && forall u :: Ph(After(INIT, all), u) == if u == t then Idle else Ph(l, u)
  {
    RunOrderly(INIT, steps);
    RunEnd(INIT, steps, ClearBegin(t));
    RunEnd(INIT, steps + [ClearBegin(t)], ClearEnd(t));
    assert steps + [ClearBegin(t)] + [ClearEnd(t)] == steps + [ClearBegin(t), ClearEnd(t)];
  }

  /** A waiter that is interrupted is gone from the queue; the lock and the others are as they were. */
  lemma Leaves(steps: seq<Step>, t: Tid)
    requires Run(INIT, steps) && Ph(After(INIT, steps), t) == Waiting
    ensures var l, n := After(INIT, steps), After(INIT, steps + [Interrupt(t)]);
      && Run(INIT, steps + [Interrupt(t)]) && n == l.(queue := n.queue, phase := n.phase)
      && t !in n.queue && (forall u, w | u != t && w != t :: Ahead(n.queue, u, w) <==> Ahead(l.queue, u, w))
      && forall u :: Ph(n, u) == if u == t then Idle else Ph(l, u)
  {
    RunOrderly(INIT, steps);
    RunEnd(INIT, steps, Interrupt(t));
    var q := After(INIT, steps).queue;
    WithoutAll(q, t);
    forall u, w | u != t && w != t ensures Ahead(Without(q, t), u, w) <==> Ahead(q, u, w) { StillAhead(q, t, u, w); }
  }

  lemma {:induction false} StillAhead(q: seq<Tid>, t: Tid, u: Tid, w: Tid)
    requires u != t && w != t
    ensures Ahead(Without(q, t), u, w) <==> Ahead(q, u, w)
  {
    if q != [] {
      AheadOf(q, u, w);
      StillAhead(q[1..], t, u, w);
      StillThere(q[1..], t, w);
      if q[0] != t {
        AheadOf([q[0]] + Without(q[1..], t), u, w);
        assert ([q[0]] + Without(q[1..], t))[1..] == Without(q[1..], t);
      }
    }
  }

  /** u is ahead of w in a queue if it is the first and w is behind it, or if it is further down. */
  lemma AheadOf(q: seq<Tid>, u: Tid, w: Tid)
    requires q != []
    ensures Ahead(q, u, w) <==> (q[0] == u && w in q[1..]) || Ahead(q[1..], u, w)
  {
    if Ahead(q, u, w) {
      var i, j :| 0 <= i < j < |q| && q[i] == u && q[j] == w;
      assert q[1..][j - 1] == w;
      if i > 0 { assert q[1..][i - 1] == u; }
    }
    forall i | 0 <= i < |q[1..]| ensures q[1..][i] == q[i + 1] {}
  }

  lemma {:induction false} StillThere(q: seq<Tid>, t: Tid, w: Tid)
    requires w != t
    ensures w in Without(q, t) <==> w in q
  {
    if q != [] && q[0] != t { StillThere(q[1..], t, w); }
  }

  /** In every run without kills, a free lock that has waiters has a thread about to try or about to wake one. */
  lemma NobodyStranded(steps: seq<Step>)
    requires Run(INIT, steps) && forall i | 0 <= i < |steps| :: !steps[i].Kill?
    ensures Progress(After(INIT, steps))
  {
    KillsHarmless(steps);
    NoKills(INIT, steps);
    assert steps[..|steps|] == steps;
  }

  lemma {:induction false} NoKills(l: Lock, steps: seq<Step>)
    requires forall i | 0 <= i < |steps| :: !steps[i].Kill?
    ensures Spared(l, steps)
    decreases |steps|
  {
    if steps != [] { NoKills(Next(l, steps[0]), steps[1..]); }
  }

  /** The steps that lead to a free lock with a waiter nobody will wake: the woken thread is killed. */
  const STRANDING: seq<Step> :=
    [Try(1), Begin(2), Attempt(2), Begin(3), Attempt(3), ClearBegin(1), ClearEnd(1), Kill(2)]

  /** Threads 2 and 3 wait for thread 1. */
  const CROWDED: Lock := Lock(false, false, [2, 3], map[1 := Holding, 2 := Waiting, 3 := Waiting], false)

  lemma Crowding()
    ensures Run(INIT, STRANDING[..5]) && After(INIT, STRANDING[..5]) == CROWDED
  {
    var l1 := INIT.(v := false, phase := map[1 := Holding]);
    var l2 := l1.(phase := map[1 := Holding, 2 := Trying]);
    var l3 := l1.(queue := [2], phase := map[1 := Holding, 2 := Waiting]);
    var l4 := l3.(phase := map[1 := Holding, 2 := Waiting, 3 := Trying]);
    RunStep(l4, CROWDED, [Attempt(3)]);
    RunStep(l3, l4, [Begin(3), Attempt(3)]);
    RunStep(l2, l3, [Attempt(2), Begin(3), Attempt(3)]);
    RunStep(l1, l2, [Begin(2), Attempt(2), Begin(3), Attempt(3)]);
    RunStep(INIT, l1, [Try(1), Begin(2), Attempt(2), Begin(3), Attempt(3)]);
    assert STRANDING[..5] == [Try(1), Begin(2), Attempt(2), Begin(3), Attempt(3)];
  }

  lemma Leaving()
    ensures Run(CROWDED, STRANDING[5..]) && !Progress(After(CROWDED, STRANDING[5..]))
  {
    var l6 := CROWDED.(v := true, spin := true, phase := map[1 := Clearing(true), 2 := Waiting, 3 := Waiting]);
    var l7 := Lock(true, false, [3], map[1 := Idle, 2 := Trying, 3 := Waiting], false);
    var l8 := l7.(phase := map[1 := Idle, 2 := Dead, 3 := Waiting]);
    RunStep(l7, l8, [Kill(2)]);
    RunStep(l6, l7, [ClearEnd(1), Kill(2)]);
    RunStep(CROWDED, l6, [ClearBegin(1), ClearEnd(1), Kill(2)]);
    assert STRANDING[5..] == [ClearBegin(1), ClearEnd(1), Kill(2)];
  }

  lemma {:induction false} RunOn(l: Lock, s: seq<Step>, r: seq<Step>)
    requires Run(l, s) && Run(After(l, s), r)
    ensures Run(l, s + r) && After(l, s + r) == After(After(l, s), r)
    decreases |s|
  {
    if s == [] {
      assert s + r == r;
    } else {
      assert (s + r)[1..] == s[1..] + r;
      RunOn(Next(l, s[0]), s[1..], r);
    }
  }

  /** With kills a waiter can be left behind for good. */
  lemma KillStrands()
    ensures Run(INIT, STRANDING) && !Progress(After(INIT, STRANDING))
  {
    Crowding();
    Leaving();
    RunOn(INIT, STRANDING[..5], STRANDING[5..]);
    assert STRANDING == STRANDING[..5] + STRANDING[5..];
  }

  lemma RunStep(l: Lock, n: Lock, steps: seq<Step>)
    requires steps != [] && Enabled(l, steps[0]) && Next(l, steps[0]) == n && Run(n, steps[1..])
    ensures Run(l, steps) && After(l, steps) == After(n, steps[1..])
  {
  }

  /* ---- proc_lockSet2 ---- */

  /** Where a thread is in proc_lockSet2; first tells which of the two locks is currently l1. */
  datatype Pc =
    | SetFirst(first: bool)   // in proc_lockSet(l1)
    | TrySecond(first: bool)  // has l1, about to proc_lockTry(l2)
    | DropFirst(first: bool)  // l2 was busy: in proc_lockClear(l1)
    | Both
    | Killed

  datatype World = World(a: Lock, b: Lock, pc: map<Tid, Pc>)

  function Of(w: World, f: bool): Lock {
    if f then w.b else w.a
  }

  function Put(w: World, f: bool, l: Lock): World {
    if f then w.(b := l) else w.(a := l)
  }

  /** What a thread in proc_lockSet2 may do to which lock. */
  predicate May(pc: Pc, f: bool, s: Step) {
    match pc
    case SetFirst(first) => f == first && (s.Begin? || s.Attempt?)
    case TrySecond(first) => f == !first && s.Try?
    case DropFirst(first) => f == first && (s.ClearBegin? || s.ClearEnd?)
    case Both => false
    case Killed => false
  }

  /** Where it is afterwards. */
  function Goes(pc: Pc, l: Lock, t: Tid): Pc {
    match pc
    case SetFirst(first) => if Ph(l, t) == Holding then TrySecond(first) else pc
    case TrySecond(first) => if Ph(l, t) == Holding then Both else DropFirst(first)
    case DropFirst(first) => if Ph(l, t) == Idle then SetFirst(!first) else pc
    case Both => Both
    case Killed => Killed
  }

  /** One step on lock f, by a thread in proc_lockSet2 or by any other; a kill takes the thread from both locks. */
  predicate Can(w: World, f: bool, s: Step) {
    if s.Kill? then Enabled(w.a, s) && Enabled(w.b, s)
    else Enabled(Of(w, f), s) && (s.t in w.pc ==> May(w.pc[s.t], f, s))
  }

  function Does(w: World, f: bool, s: Step): World {
    if s.Kill? then
      World(Next(w.a, s), Next(w.b, s), if s.t in w.pc then w.pc[s.t := Killed] else w.pc)
    else
      var l := Next(Of(w, f), s);
      var n := Put(w, f, l);
      if s.t in w.pc then n.(pc := w.pc[s.t := Goes(w.pc[s.t], l, s.t)]) else n
  }

  /** What a thread in proc_lockSet2 holds. */
  ghost predicate Grip(w: World, t: Tid)
    requires t in w.pc
  {
    match w.pc[t]
    case SetFirst(f) => Ph(Of(w, !f), t) == Idle
      && (Ph(Of(w, f), t) == Idle || Ph(Of(w, f), t) == Trying || Ph(Of(w, f), t) == Waiting)
    case TrySecond(f) => Ph(Of(w, f), t) == Holding && Ph(Of(w, !f), t) == Idle
    case DropFirst(f) => (Ph(Of(w, f), t) == Holding || Ph(Of(w, f), t).Clearing?) && Ph(Of(w, !f), t) == Idle
    case Both => Ph(w.a, t) == Holding && Ph(w.b, t) == Holding
    case Killed => Ph(w.a, t) == Dead && Ph(w.b, t) == Dead
  }

  ghost predicate Sane(w: World) {
    Orderly(w.a) && Orderly(w.b) && forall t {:trigger Grip(w, t)} | t in w.pc :: Grip(w, t)
  }

  lemma Set2Kill(w: World, f: bool, s: Step)
    requires Sane(w) && Can(w, f, s) && s.Kill?
    ensures Sane(Does(w, f, s))
  {
    StepOrderly(w.a, s);
    StepOrderly(w.b, s);
    var n := Does(w, f, s);
    forall t | t in n.pc ensures Grip(n, t) {
      assert Grip(w, t);
      if t != s.t {
        NextPh(w.a, s, t);
        NextPh(w.b, s, t);
      }
    }
  }

  /** Another thread keeps its grip. */
  lemma Set2Other(w: World, f: bool, s: Step, t: Tid)
    requires Orderly(Of(w, f)) && Can(w, f, s) && !s.Kill? && t in w.pc && Grip(w, t) && t != s.t
    ensures Grip(Does(w, f, s), t)
  {
    var l := Of(w, f);
    var n := Does(w, f, s);
    assert Of(n, f) == Next(l, s) && Of(n, !f) == Of(w, !f) && n.pc[t] == w.pc[t];
    NextPh(l, s, t);
    if l.queue != [] && t == l.queue[0] {
      assert t in l.queue;
    }
  }

  /** And so does the one that takes the step. */
  lemma Set2Own(w: World, f: bool, s: Step)
    requires Orderly(Of(w, f)) && Can(w, f, s) && !s.Kill? && s.t in w.pc && Grip(w, s.t)
    ensures Grip(Does(w, f, s), s.t)
  {
    assert Of(w, f).queue != [] ==> Of(w, f).queue[0] in Of(w, f).queue;
  }

  lemma Set2Step(w: World, f: bool, s: Step)
    requires Sane(w) && Can(w, f, s)
    ensures Sane(Does(w, f, s))
  {
    if s.Kill? {
      Set2Kill(w, f, s);
    } else {
      StepOrderly(Of(w, f), s);
      var n := Does(w, f, s);
      forall t | t in n.pc ensures Grip(n, t) {
        assert Grip(w, t);
        if t != s.t { Set2Other(w, f, s, t); } else { Set2Own(w, f, s); }
      }
    }
  }

  datatype Move = Move(f: bool, s: Step)

  ghost predicate Moves(w: World, ms: seq<Move>)
    decreases |ms|
  {
    ms == [] || (Can(w, ms[0].f, ms[0].s) && Moves(Does(w, ms[0].f, ms[0].s), ms[1..]))
  }

  function Finally(w: World, ms: seq<Move>): World
    decreases |ms|
  {
    if ms == [] then w else Finally(Does(w, ms[0].f, ms[0].s), ms[1..])
  }

  /**
   In every run, from free locks, of any number of threads in proc_lockSet2 among others that use the same
   locks: whoever is blocked in it holds neither lock, and whoever is through holds both, alone.
   */
  lemma {:induction false} Set2(w: World, ms: seq<Move>, t: Tid)
    requires Sane(w) && Moves(w, ms) && t in Finally(w, ms).pc
    ensures var n := Finally(w, ms);
      && Sane(n)
      && ((Ph(n.a, t) == Waiting || Ph(n.b, t) == Waiting) ==> Ph(n.a, t) != Holding && Ph(n.b, t) != Holding)
      && (n.pc[t] == Both ==> forall u {:trigger Ph(n.a, u)} {:trigger Ph(n.b, u)} :: u != t ==>
        Ph(n.a, u) != Holding && Ph(n.b, u) != Holding)
      && (n.pc[t] == Both ==> Ph(n.a, t) == Holding && Ph(n.b, t) == Holding)
    decreases |ms|
  {
    if ms != [] {
      Set2Step(w, ms[0].f, ms[0].s);
      Set2(Does(w, ms[0].f, ms[0].s), ms[1..], t);
    } else {
      assert Grip(w, t);
    }
  }

  lemma MoveStep(w: World, n: World, ms: seq<Move>)
    requires ms != [] && Can(w, ms[0].f, ms[0].s) && Does(w, ms[0].f, ms[0].s) == n && Moves(n, ms[1..])
    ensures Moves(w, ms) && Finally(w, ms) == Finally(n, ms[1..])
  {
  }

  /** From the start, with both locks free, proc_lockSet2 gets both in three steps. */
  lemma Set2Gets(w: World, f: bool, t: Tid)
    requires Sane(w) && t in w.pc && w.pc[t] == SetFirst(f) && Ph(Of(w, f), t) == Idle
    requires w.a.v && !w.a.spin && w.b.v && !w.b.spin
    ensures var ms := [Move(f, Begin(t)), Move(f, Attempt(t)), Move(!f, Try(t))];
      Moves(w, ms) && t in Finally(w, ms).pc && Finally(w, ms).pc[t] == Both
  {
    assert Grip(w, t);
    var x := Does(w, f, Begin(t));
    var y := Does(x, f, Attempt(t));
    var z := Does(y, !f, Try(t));
    MoveStep(y, z, [Move(!f, Try(t))]);
    MoveStep(x, y, [Move(f, Attempt(t)), Move(!f, Try(t))]);
    MoveStep(w, x, [Move(f, Begin(t)), Move(f, Attempt(t)), Move(!f, Try(t))]);
  }

  /** When the second is busy it gives the first up, and goes for the busy one first. */
  lemma Set2Yields(w: World, f: bool, t: Tid)
    requires Sane(w) && t in w.pc && w.pc[t] == TrySecond(f) && !Of(w, !f).v
    ensures var ms := [Move(!f, Try(t)), Move(f, ClearBegin(t)), Move(f, ClearEnd(t))];
      var n := Finally(w, ms);
      && Moves(w, ms) && t in n.pc && n.pc[t] == SetFirst(!f) && Of(n, f).v && !Of(n, f).spin
      && Ph(n.a, t) == Idle && Ph(n.b, t) == Idle && !Of(n, !f).v
  {
    assert Grip(w, t);
    assert Of(w, f).queue != [] ==> Of(w, f).queue[0] in Of(w, f).queue;
    var x := Does(w, !f, Try(t));
    var y := Does(x, f, ClearBegin(t));
    var z := Does(y, f, ClearEnd(t));
    MoveStep(y, z, [Move(f, ClearEnd(t))]);
    MoveStep(x, y, [Move(f, ClearBegin(t)), Move(f, ClearEnd(t))]);
    MoveStep(w, x, [Move(!f, Try(t)), Move(f, ClearBegin(t)), Move(f, ClearEnd(t))]);
  }

  /** All threads at the start of proc_lockSet2, both locks free. */
  lemma Set2Init(pc: map<Tid, Pc>)
    requires forall t | t in pc :: pc[t].SetFirst?
    ensures Sane(World(INIT, INIT, pc))
  {
    var w := World(INIT, INIT, pc);
    forall t | t in w.pc ensures Grip(w, t) {
    }
  }
}
