/** How many jobs must be finished before a job can start, and how many cannot start before it finishes. */
module NecessaryOrders {
  import opened Numbers
  import opened Seqs
  import opened LagGraphs
  import opened Instances
  import opened CriticalPaths

  // ---------- sorting ----------

  ghost predicate SortedBy(order: seq<nat>, keys: seq<nat>) {
    && Permutation(order, |keys|)
    && forall i, j :: 0 <= i < j < |order| ==> keys[order[i]] <= keys[order[j]]
  }

  /** The positions of `keys` in the order of their keys; how ties are broken is of no concern to the callers. */
  method SortIndices(keys: seq<nat>) returns (order: seq<nat>)
    ensures SortedBy(order, keys)
  {
    order := [];
    var n := 0;
    while n < |keys|
      invariant 0 <= n <= |keys| && Permutation(order, n)
      invariant forall i, j :: 0 <= i < j < n ==> keys[order[i]] <= keys[order[j]]
    {
      var k := 0;
      while k < n && keys[order[k]] <= keys[n]
        invariant 0 <= k <= n
        invariant forall i :: 0 <= i < k ==> keys[order[i]] <= keys[n]
      {
        k := k + 1;
      }
      order := order[..k] + [n] + order[k..];
      n := n + 1;
    }
  }

  // ---------- counting ----------

  ghost function FinishedBy(lf: seq<int>, t: int): (r: set<int>) {
    set u | 0 <= u < |lf| && lf[u] <= t
  }

  ghost function StartedFrom(es: seq<int>, t: int): (r: set<int>) {
    set u | 0 <= u < |es| && es[u] >= t
  }

  ghost predicate SomeAfter(lf: seq<int>, t: int) {
    exists u: nat :: u < |lf| && t < lf[u]
  }

  ghost predicate SomeBefore(es: seq<int>, t: int) {
    exists u: nat :: u < |es| && es[u] < t
  }

  /** For every job the number of jobs that finish by its start. */
  ghost predicate CountsFinished(es: seq<int>, lf: seq<int>, count: seq<nat>) {
    |count| == |es| && forall v :: 0 <= v < |es| ==> count[v] == |FinishedBy(lf, es[v])|
  }

  /** For every job the number of jobs that start from its finish on. */
  ghost predicate CountsStarted(es: seq<int>, lf: seq<int>, count: seq<nat>) {
    |count| == |lf| && forall v :: 0 <= v < |lf| ==> count[v] == |StartedFrom(es, lf[v])|
  }

  /** Every job has some job that finishes after its start: the forward scan stops within its array. */
  ghost predicate ForwardInRange(es: seq<int>, lf: seq<int>) {
    forall v: nat :: v < |es| ==> SomeAfter(lf, es[v])
  }

  /** Every job has some job that starts before its finish: the backward scan stops within its array. */
  ghost predicate BackwardInRange(es: seq<int>, lf: seq<int>) {
    forall v: nat :: v < |lf| ==> SomeBefore(es, lf[v])
  }

  class NecessaryOrderComputer {
    var earliestStarts: seq<nat>
    var latestFinishs: seq<nat>
    var predecessorCount: seq<nat>
    var successorCount: seq<nat>

    constructor (earliestStarts: seq<nat>, latestFinishs: seq<nat>)
      requires |earliestStarts| == |latestFinishs|
      ensures this.earliestStarts == earliestStarts && this.latestFinishs == latestFinishs
      ensures predecessorCount == successorCount == seq(|earliestStarts|, _ => 0)
    {
      this.earliestStarts := earliestStarts;
      this.latestFinishs := latestFinishs;
      predecessorCount := seq(|earliestStarts|, _ => 0);
      successorCount := seq(|earliestStarts|, _ => 0);
    }

    /** Fills both counts. `inRange` says whether the scans stay within their arrays; outside them the program's
        behaviour is undefined. */
    method Compute() returns (inRange: bool)
      requires |earliestStarts| == |latestFinishs|
      modifies this`predecessorCount, this`successorCount
      ensures inRange <==>
        ForwardInRange(earliestStarts, latestFinishs) && BackwardInRange(earliestStarts, latestFinishs)
      ensures inRange ==> CountsFinished(earliestStarts, latestFinishs, predecessorCount)
      ensures inRange ==> CountsStarted(earliestStarts, latestFinishs, successorCount)
    {
      var byEs := SortIndices(earliestStarts);
      var byLf := SortIndices(latestFinishs);
      inRange, predecessorCount := ScanForward(earliestStarts, latestFinishs, byEs, byLf);
      if inRange {
        inRange, successorCount := ScanBackward(earliestStarts, latestFinishs, byEs, byLf);
      }
    }
  }

  /** The first `k` jobs of the order are finished by `t`. */
  ghost predicate AllFinished(lf: seq<nat>, byLf: seq<nat>, k: nat, t: nat)
    requires SortedBy(byLf, lf)
  {
    k <= |byLf| && forall i :: 0 <= i < k ==> lf[byLf[i]] <= t
  }

  /** The jobs from place `k` of the order on start at `t` or later. */
  ghost predicate AllStarted(es: seq<nat>, byEs: seq<nat>, k: nat, t: nat)
    requires SortedBy(byEs, es)
  {
    k <= |byEs| && forall i :: k <= i < |byEs| ==> es[byEs[i]] >= t
  }

  /** The inner loop of the forward scan. It reads past the end of the array exactly if all jobs are finished by `t`. */
  method Advance(lf: seq<nat>, byLf: seq<nat>, from: nat, t: nat) returns (finished: nat)
    requires SortedBy(byLf, lf) && AllFinished(lf, byLf, from, t)
    ensures finished == |FinishedBy(lf, t)| && AllFinished(lf, byLf, finished, t)
    ensures finished < |byLf| <==> SomeAfter(lf, t)
  {
    finished := from;
    while finished < |byLf| && lf[byLf[finished]] <= t
      invariant from <= finished <= |byLf|
      invariant forall k :: 0 <= k < finished ==> lf[byLf[k]] <= t
    {
      finished := finished + 1;
    }
    PrefixFinished(lf, byLf, finished, t);
  }

  method ScanForward(es: seq<nat>, lf: seq<nat>, byEs: seq<nat>, byLf: seq<nat>)
    returns (inRange: bool, count: seq<nat>)
    requires |es| == |lf| && SortedBy(byEs, es) && SortedBy(byLf, lf)
    ensures inRange <==> ForwardInRange(es, lf)
    ensures inRange ==> CountsFinished(es, lf, count)
  {
    count := seq(|es|, _ => 0);
    var finished: nat := 0;
    var i := 0;
    while i < |byEs|
      invariant 0 <= i <= |byEs| && finished <= |byLf| && |count| == |es|
      invariant i < |byEs| ==> AllFinished(lf, byLf, finished, es[byEs[i]])
      invariant forall j :: 0 <= j < i ==> ForwardDone(es, lf, count, byEs[j])
    {
      finished := Advance(lf, byLf, finished, es[byEs[i]]);
      if finished == |byLf| {
        assert !SomeAfter(lf, es[byEs[i]]);
        return false, count;
      }
      count := count[byEs[i] := finished];
      i := i + 1;
    }
    ForwardComplete(es, lf, count, byEs);
    inRange := true;
  }

  lemma ForwardComplete(es: seq<nat>, lf: seq<nat>, count: seq<nat>, byEs: seq<nat>)
    requires |count| == |es| && Permutation(byEs, |es|)
    requires forall j :: 0 <= j < |byEs| ==> ForwardDone(es, lf, count, byEs[j])
    ensures ForwardInRange(es, lf) && CountsFinished(es, lf, count)
  {
    forall v: nat | v < |es|
      ensures count[v] == |FinishedBy(lf, es[v])| && SomeAfter(lf, es[v])
    {
      var j := IndexOf(byEs, |es|, v);
      assert ForwardDone(es, lf, count, byEs[j]);
    }
  }

  ghost predicate ForwardDone(es: seq<nat>, lf: seq<nat>, count: seq<nat>, v: nat) {
    v < |es| == |count| && count[v] == |FinishedBy(lf, es[v])| && SomeAfter(lf, es[v])
  }

  lemma IndexOf(order: seq<nat>, n: nat, v: nat) returns (i: nat)
    requires Permutation(order, n) && v < n
    ensures i < |order| && order[i] == v
  {
    Surjective(order, n, v);
    i :| i < |order| && order[i] == v;
  }

  /** The scanned prefix holds exactly the jobs finished by `t`. */
  lemma PrefixFinished(lf: seq<nat>, byLf: seq<nat>, k: nat, t: int)
    requires SortedBy(byLf, lf) && k <= |byLf|
    requires forall i :: 0 <= i < k ==> lf[byLf[i]] <= t
    requires k < |byLf| ==> t < lf[byLf[k]]
    ensures |FinishedBy(lf, t)| == k
    ensures k < |byLf| <==> SomeAfter(lf, t)
  {
    var prefix: seq<int> := byLf[..k];
    DistinctCardinality(prefix);
    forall u: nat | u < |lf|
      ensures u in prefix <==> lf[u] <= t
    {
      var i := IndexOf(byLf, |lf|, u);
      if i < k {
        assert prefix[i] == u;
      }
    }
    if k < |byLf| {
      assert SomeAfter(lf, t) by {
        var u := byLf[k];
        assert u < |lf| && t < lf[u];
      }
    } else {
      forall u: nat | u < |lf|
        ensures lf[u] <= t
      {
        var i := IndexOf(byLf, |lf|, u);
      }
    }
    assert FinishedBy(lf, t) == Elements(prefix);
  }

  /** The inner loop of the backward scan, with a reverse iterator standing behind the entry it refers to. */
  method Retreat(es: seq<nat>, byEs: seq<nat>, from: nat, t: nat) returns (startIt: nat)
    requires SortedBy(byEs, es) && AllStarted(es, byEs, from, t)
    ensures AllStarted(es, byEs, startIt, t) && |byEs| - startIt == |StartedFrom(es, t)|
    ensures 0 < startIt <==> SomeBefore(es, t)
  {
    startIt := from;
    while startIt > 0 && es[byEs[startIt - 1]] >= t
      invariant 0 <= startIt <= from
      invariant forall k :: startIt <= k < |byEs| ==> es[byEs[k]] >= t
    {
      startIt := startIt - 1;
    }
    SuffixStarted(es, byEs, startIt, t);
  }

  /** What the backward scan knows before it looks at the places below `it`. */
  ghost predicate Retreated(es: seq<nat>, lf: seq<nat>, byEs: seq<nat>, byLf: seq<nat>, it: nat, startIt: nat,
                            count: seq<nat>)
    requires SortedBy(byEs, es) && SortedBy(byLf, lf)
  {
    && it <= |byLf| && startIt <= |byEs| && |count| == |lf|
    && (it > 0 ==> AllStarted(es, byEs, startIt, lf[byLf[it - 1]]))
    && forall j :: it <= j < |byLf| ==> BackwardDone(es, lf, count, byLf[j])
  }

  method ScanBackward(es: seq<nat>, lf: seq<nat>, byEs: seq<nat>, byLf: seq<nat>)
    returns (inRange: bool, count: seq<nat>)
    requires |es| == |lf| && SortedBy(byEs, es) && SortedBy(byLf, lf)
    ensures inRange <==> BackwardInRange(es, lf)
    ensures inRange ==> CountsStarted(es, lf, count)
  {
    count := seq(|lf|, _ => 0);
    var startIt: nat := |byEs|;
    var it := |byLf|;
    inRange := true;
    while it > 0 && inRange
      invariant 0 <= it <= |byLf| && (inRange ==> Retreated(es, lf, byEs, byLf, it, startIt, count))
      invariant !inRange ==> !BackwardInRange(es, lf)
    {
      it := it - 1;
      inRange, startIt, count := StepBackward(es, lf, byEs, byLf, it, startIt, count);
    }
    if inRange {
      BackwardComplete(es, lf, count, byLf);
    }
  }

  method StepBackward(es: seq<nat>, lf: seq<nat>, byEs: seq<nat>, byLf: seq<nat>, it: nat, startIt0: nat,
                      count0: seq<nat>)
    returns (inRange: bool, startIt: nat, count: seq<nat>)
    requires SortedBy(byEs, es) && SortedBy(byLf, lf) && it < |byLf|
    requires Retreated(es, lf, byEs, byLf, it + 1, startIt0, count0)
    ensures inRange ==> Retreated(es, lf, byEs, byLf, it, startIt, count)
    ensures !inRange ==> !BackwardInRange(es, lf)
  {
    count := count0;
    var v := byLf[it];
    startIt := Retreat(es, byEs, startIt0, lf[v]);
    inRange := startIt > 0;
    if inRange {
      count := count[v := |byEs| - startIt];
    }
  }

  lemma BackwardComplete(es: seq<nat>, lf: seq<nat>, count: seq<nat>, byLf: seq<nat>)
    requires |count| == |lf| && Permutation(byLf, |lf|)
    requires forall j :: 0 <= j < |byLf| ==> BackwardDone(es, lf, count, byLf[j])
    ensures BackwardInRange(es, lf) && CountsStarted(es, lf, count)
  {
    forall v: nat | v < |lf|
      ensures count[v] == |StartedFrom(es, lf[v])| && SomeBefore(es, lf[v])
    {
      var j := IndexOf(byLf, |lf|, v);
      assert BackwardDone(es, lf, count, byLf[j]);
    }
  }

  ghost predicate BackwardDone(es: seq<nat>, lf: seq<nat>, count: seq<nat>, v: nat) {
    v < |lf| == |count| && count[v] == |StartedFrom(es, lf[v])| && SomeBefore(es, lf[v])
  }

  /** The scanned suffix holds exactly the jobs that start at `t` or later. */
  lemma SuffixStarted(es: seq<nat>, byEs: seq<nat>, k: nat, t: int)
    requires SortedBy(byEs, es) && k <= |byEs|
    requires forall i :: k <= i < |byEs| ==> t <= es[byEs[i]]
    requires k > 0 ==> es[byEs[k - 1]] < t
    ensures |StartedFrom(es, t)| == |byEs| - k
    ensures k > 0 <==> SomeBefore(es, t)
  {
    var suffix: seq<int> := byEs[k..];
    DistinctCardinality(suffix);
    forall u: nat | u < |es|
      ensures u in suffix <==> es[u] >= t
    {
      var i := IndexOf(byEs, |es|, u);
      if k <= i {
        assert suffix[i - k] == u;
      }
    }
    if k > 0 {
      assert SomeBefore(es, t) by {
        var u := byEs[k - 1];
        assert u < |es| && es[u] < t;
      }
    } else {
      forall u: nat | u < |es|
        ensures es[u] >= t
      {
        var i := IndexOf(byEs, |es|, u);
      }
    }
    assert StartedFrom(es, t) == Elements(suffix);
  }

  /** Non-empty windows between earliest start and latest finish keep both scans in range. */
  lemma WindowsSuffice(es: seq<nat>, lf: seq<nat>)
    requires |es| == |lf| && forall v :: 0 <= v < |es| ==> es[v] < lf[v]
    ensures ForwardInRange(es, lf) && BackwardInRange(es, lf)
  {
  }

  /** On a solvable instance positive durations are enough for the windows to be non-empty. */
  lemma PositiveDurationsSuffice(inst: Instance, es: seq<nat>, lf: seq<nat>)
    requires inst.Valid() && inst.Solvable() && LeastStart(inst, es) && GreatestFinish(inst, lf)
    requires forall v :: 0 <= v < |inst.jobs| ==> inst.jobs[v].duration > 0
    ensures |es| == |lf| && forall v :: 0 <= v < |es| ==> es[v] < lf[v]
  {
    var s: seq<int> :| inst.Feasible(s);
    ExactFeasibility(inst, es);
    ReverseIsExact(inst, Finishes(lf));
    assert Pointwise(es, s) && Pointwise(FinishesOf(inst, s), lf);
  }

  // ---------- both vectors count the same pairs ----------

  /** The number of `u` below `a` with `lf[u] <= es[v]`, over all `v` below `b`. */
  ghost function Pairs(es: seq<int>, lf: seq<int>, a: nat, b: nat): (pairs: nat)
    requires a <= |lf| && b <= |es|
    decreases b
  {
    if b == 0 then 0 else Pairs(es, lf, a, b - 1) + |FinishedBy(lf[..a], es[b - 1])|
  }

  lemma FinishedByOneMore(lf: seq<int>, a: nat, t: int)
    requires 0 < a <= |lf|
    ensures |FinishedBy(lf[..a], t)| == |FinishedBy(lf[..a - 1], t)| + if lf[a - 1] <= t then 1 else 0
  {
    var less := FinishedBy(lf[..a - 1], t);
    assert FinishedBy(lf[..a], t) == if lf[a - 1] <= t then less + {a - 1} else less;
  }

  lemma StartedFromOneMore(es: seq<int>, b: nat, t: int)
    requires 0 < b <= |es|
    ensures |StartedFrom(es[..b], t)| == |StartedFrom(es[..b - 1], t)| + if es[b - 1] >= t then 1 else 0
  {
    var less := StartedFrom(es[..b - 1], t);
    assert StartedFrom(es[..b], t) == if es[b - 1] >= t then less + {b - 1} else less;
  }

  /** One more job on the finishing side adds the pairs it forms as seen from its own side. */
  lemma {:induction false} PairsOneMore(es: seq<int>, lf: seq<int>, a: nat, b: nat)
    requires 0 < a <= |lf| && b <= |es|
    ensures Pairs(es, lf, a, b) == Pairs(es, lf, a - 1, b) + |StartedFrom(es[..b], lf[a - 1])|
    decreases b
  {
    if b == 0 {
      assert StartedFrom(es[..0], lf[a - 1]) == {};
    } else {
      PairsOneMore(es, lf, a, b - 1);
      FinishedByOneMore(lf, a, es[b - 1]);
      StartedFromOneMore(es, b, lf[a - 1]);
    }
  }

  lemma {:induction false} SumOfFinished(es: seq<int>, lf: seq<int>, count: seq<nat>)
    requires |count| <= |es|
    requires forall v :: 0 <= v < |count| ==> count[v] == |FinishedBy(lf, es[v])|
    ensures Sum(count) == Pairs(es, lf, |lf|, |count|)
    decreases |count|
  {
    if count == [] {
    } else {
      SumOfFinished(es, lf, count[..|count| - 1]);
      assert lf[..|lf|] == lf;
    }
  }

  lemma {:induction false} SumOfStarted(es: seq<int>, lf: seq<int>, count: seq<nat>)
    requires |count| <= |lf|
    requires forall v :: 0 <= v < |count| ==> count[v] == |StartedFrom(es, lf[v])|
    ensures Sum(count) == Pairs(es, lf, |count|, |es|)
    decreases |count|
  {
    if count == [] {
      NoPairs(es, lf, |es|);
    } else {
      SumOfStarted(es, lf, count[..|count| - 1]);
      PairsOneMore(es, lf, |count|, |es|);
      assert es[..|es|] == es;
    }
  }

  lemma {:induction false} NoPairs(es: seq<int>, lf: seq<int>, b: nat)
    requires b <= |es|
    ensures Pairs(es, lf, 0, b) == 0
    decreases b
  {
    if b == 0 {
    } else {
      NoPairs(es, lf, b - 1);
      assert FinishedBy(lf[..0], es[b - 1]) == {};
    }
  }

  /** A necessary predecessor of one job has that job as necessary successor, so the counts have equal sums. */
  lemma EqualSums(es: seq<int>, lf: seq<int>, predecessors: seq<nat>, successors: seq<nat>)
    requires CountsFinished(es, lf, predecessors) && CountsStarted(es, lf, successors)
    ensures Sum(predecessors) == Sum(successors)
  {
    SumOfFinished(es, lf, predecessors);
    SumOfStarted(es, lf, successors);
  }

  /** In every schedule, at least the counted jobs are over before `v` starts, and at least the counted ones have
      not begun when `v` finishes. */
  lemma CountsAreNecessary(inst: Instance, es: seq<int>, lf: seq<int>, s: seq<int>, v: nat)
    requires inst.Valid() && LeastStart(inst, es) && GreatestFinish(inst, lf)
    requires inst.Feasible(s) && v < |s|
    ensures |FinishedBy(lf, es[v])| <= |FinishedBy(FinishesOf(inst, s), s[v])|
    ensures |StartedFrom(es, lf[v])| <= |StartedFrom(s, s[v] + inst.jobs[v].duration)|
  {
    assert Start(inst, s);
    ScheduleFinishes(inst, s);
    assert Pointwise(es, s) && Pointwise(FinishesOf(inst, s), lf);
    SubsetCardinality(FinishedBy(lf, es[v]), FinishedBy(FinishesOf(inst, s), s[v]));
    SubsetCardinality(StartedFrom(es, lf[v]), StartedFrom(s, s[v] + inst.jobs[v].duration));
  }

  /** An instance with one job of duration 0 that can only be at time 0: both scans read past the end. */
  lemma EmptyWindowLeavesRange(inst: Instance, es: seq<int>, lf: seq<int>)
    requires inst == Instance([Job(0, 0, 0)], LagGraph([[]], [[]])) && es == lf == [0]
    ensures inst.Valid() && inst.Solvable() && LeastStart(inst, es) && GreatestFinish(inst, lf)
    ensures !ForwardInRange(es, lf) && !BackwardInRange(es, lf)
  {
    assert inst.graph.RankedBy([0]);
    assert inst.Feasible([0]);
    assert StartsOf(inst, lf) == [0];
    assert es[0] == lf[0] == 0;
    assert !SomeAfter(lf, es[0]) && !SomeBefore(es, lf[0]);
  }
}
