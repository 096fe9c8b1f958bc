/** A scan of several queues from the front: how far each was read, what was met and what is left. */
module Scan {

  /** What was met in the first k queues, cuts[j] of queue j. */
  ghost function Met<T>(lines: seq<seq<T>>, cuts: seq<nat>, k: nat): seq<T>
    requires k <= |lines| == |cuts|
  {
    if k == 0 then []
    else Met(lines, cuts, k - 1) + if cuts[k - 1] <= |lines[k - 1]| then lines[k - 1][..cuts[k - 1]] else []
  }

  /** now is what is left of the queues. */
  ghost predicate Scanned<T>(lines: seq<seq<T>>, cuts: seq<nat>, now: seq<seq<T>>) {
    && |lines| == |cuts| == |now|
    && forall k | 0 <= k < |now| :: cuts[k] <= |lines[k]| && now[k] == lines[k][cuts[k]..]
  }

  /** The scan has not got beyond queue i. */
  ghost predicate Upto(cuts: seq<nat>, i: int) {
    forall k | 0 <= k < |cuts| && i < k :: cuts[k] == 0
  }

  lemma NoneMet<T>(lines: seq<seq<T>>, cuts: seq<nat>, k: nat)
    requires k <= |lines| == |cuts| && forall j | 0 <= j < k :: cuts[j] == 0
    ensures Met(lines, cuts, k) == []
  {
  }

  /** Only the queues up to k matter. */
  lemma {:induction false} MetSame<T>(lines: seq<seq<T>>, cuts: seq<nat>, lines': seq<seq<T>>, cuts': seq<nat>, k: nat)
    requires k <= |lines| == |cuts| == |lines'| == |cuts'|
    requires forall j | 0 <= j < k :: cuts[j] == cuts'[j] <= |lines[j]| && lines[j] <= lines'[j]
    ensures Met(lines, cuts, k) == Met(lines', cuts', k)
  {
    if k > 0 {
      MetSame(lines, cuts, lines', cuts', k - 1);
      assert lines[k - 1][..cuts[k - 1]] == lines'[k - 1][..cuts[k - 1]];
    }
  }

  /** The queues behind i add nothing. */
  lemma {:induction false} MetUpto<T>(lines: seq<seq<T>>, cuts: seq<nat>, i: nat, k: nat)
    requires i < k <= |lines| == |cuts| && Upto(cuts, i)
    ensures Met(lines, cuts, k) == Met(lines, cuts, i + 1)
    decreases k
  {
    if i + 1 < k {
      MetUpto(lines, cuts, i, k - 1);
      assert lines[k - 1][..0] == [];
    }
  }

  /** The first of queue i is met. */
  lemma MeetOne<T>(lines: seq<seq<T>>, cuts: seq<nat>, now: seq<seq<T>>, i: nat)
    requires Scanned(lines, cuts, now) && i < |now| && now[i] != [] && Upto(cuts, i)
    ensures var cuts' := cuts[i := cuts[i] + 1];
      && Scanned(lines, cuts', now[i := now[i][1..]]) && Upto(cuts', i)
      && Met(lines, cuts', |lines|) == Met(lines, cuts, |lines|) + [now[i][0]]
  {
    var c := cuts[i];
    var cuts' := cuts[i := c + 1];
    MetUpto(lines, cuts, i, |lines|);
    MetUpto(lines, cuts', i, |lines|);
    MetSame(lines, cuts, lines, cuts', i);
    assert lines[i][..c + 1] == lines[i][..c] + [lines[i][c]];
    assert lines[i][c + 1..] == lines[i][c..][1..];
    var now' := now[i := now[i][1..]];
    forall k | 0 <= k < |now'| ensures cuts'[k] <= |lines[k]| && now'[k] == lines[k][cuts'[k]..] {}
  }

  /** Somebody joins the end of queue p. */
  lemma JoinOne<T>(lines: seq<seq<T>>, cuts: seq<nat>, now: seq<seq<T>>, p: nat, t: T)
    requires Scanned(lines, cuts, now) && p < |now|
    ensures var lines' := lines[p := lines[p] + [t]];
      Scanned(lines', cuts, now[p := now[p] + [t]]) && Met(lines', cuts, |lines|) == Met(lines, cuts, |lines|)
  {
    var lines' := lines[p := lines[p] + [t]];
    MetSame(lines, cuts, lines', cuts, |lines|);
    assert (lines[p] + [t])[cuts[p]..] == lines[p][cuts[p]..] + [t];
  }

  /** Everything read of queue j was met. */
  lemma {:induction false} WasMet<T>(lines: seq<seq<T>>, cuts: seq<nat>, k: nat, j: nat, x: nat)
    requires j < k <= |lines| == |cuts| && x < cuts[j] <= |lines[j]|
    ensures lines[j][x] in Met(lines, cuts, k)
  {
    if j == k - 1 {
      assert lines[j][x] == lines[j][..cuts[j]][x];
    } else {
      WasMet(lines, cuts, k - 1, j, x);
    }
  }

  /** And nothing else. */
  lemma {:induction false} MetWhere<T>(lines: seq<seq<T>>, cuts: seq<nat>, k: nat, t: T)
    requires k <= |lines| == |cuts| && t in Met(lines, cuts, k)
    ensures exists j, x :: 0 <= j < k && 0 <= x < cuts[j] <= |lines[j]| && lines[j][x] == t
  {
    if t in Met(lines, cuts, k - 1) {
      MetWhere(lines, cuts, k - 1, t);
    } else {
      assert t in lines[k - 1][..cuts[k - 1]];
    }
  }
}
