/** Earliest starts and latest finishes over the lag graph. */
module CriticalPaths {
  import opened Machine
  import opened LagGraphs
  import opened Instances
  import opened Recurrences
  import opened TopologicalSorting

  // ---------- forward ----------

  /** Start vectors that respect releases and lags, but not necessarily deadlines. */
  ghost predicate Start(inst: Instance, s: seq<int>)
    requires inst.Valid()
  {
    inst.Released(s) && inst.KeepsLags(s)
  }

  ghost predicate BelowAllStarts(inst: Instance, es: seq<int>)
    requires inst.Valid()
  {
    forall s: seq<int> :: Start(inst, s) ==> Pointwise(es, s)
  }

  /** The least start vector. There is at most one. */
  ghost predicate LeastStart(inst: Instance, es: seq<int>)
    requires inst.Valid()
  {
    Start(inst, es) && BelowAllStarts(inst, es)
  }

  /** All starts that the pass reads, and all sums it forms with them, fit an `int`. */
  ghost predicate SumsFit(inst: Instance, s: seq<int>)
    requires inst.Valid() && |s| == |inst.jobs|
  {
    forall u: nat, v: nat, lag: int :: inst.graph.HasEdge(u, v, lag) ==>
      u < |s| && s[u] <= INT_MAX && s[u] + lag <= INT_MAX
  }

  ghost predicate ForwardFits(inst: Instance)
    requires inst.Valid()
  {
    exists s: seq<int> :: Start(inst, s) && SumsFit(inst, s)
  }

  /** The outcome of the forward pass; for the second one, a result of `int` arithmetic leaves its range, which is
      undefined. */
  datatype Forward = Starts(es: seq<nat>) | SumOverflow

  /** After some vertices of the order: the lags of those with a start that is an `int` are kept, nothing is higher than
      it has to be, and a start is above the range of `int` only with the release. */
  ghost predicate Forwarded(inst: Instance, order: seq<nat>, i: nat, es: seq<nat>)
    requires inst.Valid() && inst.graph.TopologicalOrder(order)
  {
    && i <= |order|
    && inst.Released(es)
    && BelowAllStarts(inst, es)
    && (forall v :: 0 <= v < |es| && es[v] > INT_MAX ==> es[v] == inst.jobs[v].release)
    && forall j :: 0 <= j < i ==> Kept(inst, es, order[j])
  }

  ghost predicate Kept(inst: Instance, es: seq<nat>, v: nat)
    requires inst.Valid() && |es| == |inst.jobs|
  {
    v < |es| && (es[v] <= INT_MAX ==> inst.KeepsLagsOf(es, v))
  }

  /** The lags out of jobs that are released after the largest `int` are kept. */
  ghost predicate KeepsLateLags(inst: Instance, es: seq<int>)
    requires inst.Valid() && |es| == |inst.jobs|
  {
    forall u: nat, v: nat, lag: int :: inst.graph.HasEdge(u, v, lag) && u < |es| && v < |es| ==>
      inst.jobs[u].release > INT_MAX ==> inst.jobs[u].release + lag <= es[v]
  }

  /** The pass solves its equations with the casts, if that is possible. The result never exceeds a start vector. It is
      the least one if all sums fit, and in general exactly if the lags out of jobs that are released after the largest
      `int` are kept. */
  method GetForward(inst: Instance) returns (r: Forward)
    requires inst.Valid()
    ensures r.Starts? ==> StartRecurrence(inst, r.es)
    ensures r.SumOverflow? ==> !StartsSolvable(inst)
    ensures r.Starts? ==> inst.Released(r.es) && BelowAllStarts(inst, r.es)
    ensures r.Starts? ==> (LeastStart(inst, r.es) <==> KeepsLateLags(inst, r.es))
    ensures ForwardFits(inst) ==> r.Starts? && LeastStart(inst, r.es)
  {
    var sort := new TopologicalSort(inst.graph);
    var order := sort.Get();
    var es: seq<nat> := seq(|order|, _ => 0);
    var i := 0;
    while i < |order|
      invariant 0 <= i <= |order| && |es| == |order|
      invariant forall j :: 0 <= j < i ==> es[order[j]] == inst.jobs[order[j]].release
    {
      es := es[order[i] := inst.jobs[order[i]].release];
      i := i + 1;
    }
    AllPlaced(inst, order, es);
    ReleasesAreFounded(inst, order, es);

    i := 0;
    while i < |order|
      invariant Forwarded(inst, order, i, es) && StartsUpTo(inst, order, i, es)
    {
      r := RelaxAll(inst, order, i, es);
      if r.SumOverflow? {
        return;
      }
      es := r.es;
      i := i + 1;
    }
    KeepsAll(inst, order, es);
    StartsAreDone(inst, order, es);
    r := Starts(es);
  }

  lemma AllPlaced(inst: Instance, order: seq<nat>, es: seq<nat>)
    requires inst.Valid() && inst.graph.TopologicalOrder(order) && |es| == |order|
    requires forall j :: 0 <= j < |order| ==> es[order[j]] == inst.jobs[order[j]].release
    ensures forall v :: 0 <= v < |es| ==> es[v] == inst.jobs[v].release
  {
    forall v | 0 <= v < |es|
      ensures es[v] == inst.jobs[v].release
    {
      var j := Position(inst.graph, order, v);
      assert es[order[j]] == inst.jobs[order[j]].release;
    }
  }

  lemma ReleasesAreFounded(inst: Instance, order: seq<nat>, es: seq<nat>)
    requires inst.Valid() && |es| == |inst.jobs|
    requires forall v :: 0 <= v < |es| ==> es[v] == inst.jobs[v].release
    ensures StartsUpTo(inst, order, 0, es)
  {
    forall v: nat | v < |es|
      ensures StartFounded(inst, order, 0, es, v)
    {
      assert inst.jobs[v].Typed();
    }
  }

  lemma KeepsAll(inst: Instance, order: seq<nat>, es: seq<nat>)
    requires inst.Valid() && inst.graph.TopologicalOrder(order)
    requires Forwarded(inst, order, |order|, es)
    ensures LeastStart(inst, es) <==> KeepsLateLags(inst, es)
    ensures ForwardFits(inst) ==> LeastStart(inst, es)
  {
    forall v: nat | v < |es|
      ensures Kept(inst, es, v)
    {
      var j := Position(inst.graph, order, v);
      assert Kept(inst, es, order[j]);
    }
    if LeastStart(inst, es) {
      forall u: nat, v: nat, lag: int | inst.graph.HasEdge(u, v, lag) && u < |es| && v < |es|
        ensures inst.jobs[u].release + lag <= es[v]
      {
        assert inst.KeepsLagsOf(es, u);
      }
    }
    if KeepsLateLags(inst, es) {
      forall v: nat | v < |es|
        ensures inst.KeepsLagsOf(es, v)
      {
        assert Kept(inst, es, v);
      }
    }
    if ForwardFits(inst) {
      forall u: nat, v: nat, lag: int | inst.graph.HasEdge(u, v, lag) && u < |es|
        ensures inst.jobs[u].release <= INT_MAX
      {
        SumFits(inst, es, u, v, lag);
      }
    }
  }

  /** If the sums fit for some start vector, they do for everything below all start vectors. */
  lemma SumFits(inst: Instance, es: seq<int>, u: nat, v: nat, lag: int)
    requires inst.Valid() && |es| == |inst.jobs| && BelowAllStarts(inst, es)
    requires ForwardFits(inst) && inst.graph.HasEdge(u, v, lag) && u < |es|
    ensures es[u] <= INT_MAX && es[u] + lag <= INT_MAX && inst.jobs[u].release <= INT_MAX
  {
    var s: seq<int> :| Start(inst, s) && SumsFit(inst, s);
    assert Pointwise(es, s);
  }

  /** The loop over the edges leaving the i-th vertex of the order. */
  method RelaxAll(inst: Instance, order: seq<nat>, i: nat, es0: seq<nat>) returns (r: Forward)
    requires inst.Valid() && inst.graph.TopologicalOrder(order)
    requires i < |order| && Forwarded(inst, order, i, es0) && StartsUpTo(inst, order, i, es0)
    ensures r.Starts? ==> Forwarded(inst, order, i + 1, r.es) && StartsUpTo(inst, order, i + 1, r.es)
    ensures r.SumOverflow? ==> !ForwardFits(inst) && !StartsSolvable(inst)
  {
    var es := es0;
    var v := order[i];
    var edges := inst.graph.adj[v];
    FirstEdge(inst, order, i, es);
    var k := 0;
    while k < |edges|
      invariant 0 <= k <= |edges|
      invariant Forwarded(inst, order, i, es) && es[v] == es0[v] && StartsWithin(inst, order, i, k, es)
      invariant forall j :: 0 <= j < k ==> Satisfied(es, v, edges[j])
    {
      assert inst.graph.HasEdge(v, edges[k].t, edges[k].lag);
      TargetIsLater(inst, order, i, edges[k].t, edges[k].lag);
      if !DemandDefined(es[v], edges[k].lag) {
        if ForwardFits(inst) {
          SumFits(inst, es, v, edges[k].t, edges[k].lag);
        }
        NoStarts(inst, order, i, k, es);
        return SumOverflow;
      }
      ghost var before := es;
      es := RaiseTarget(inst, order, i, es, edges[k]);
      NextEdge(inst, order, i, k, before, es);
      k := k + 1;
    }
    forall t: nat, lag: int | inst.graph.HasEdge(v, t, lag)
      ensures t < |es| && (es[v] <= INT_MAX ==> es[v] + lag <= es[t])
    {
      var j :| 0 <= j < |edges| && edges[j] == Edge(t, lag);
      assert Satisfied(es, v, edges[j]);
    }
    assert Kept(inst, es, v);
    LastEdge(inst, order, i, es);
    r := Starts(es);
  }

  ghost predicate Satisfied(es: seq<nat>, v: nat, e: Edge) {
    v < |es| && e.t < |es| && (es[v] <= INT_MAX ==> es[v] + e.lag <= es[e.t])
  }

  /** The loop body: the target starts at least when the edge demands it. */
  method RaiseTarget(inst: Instance, order: seq<nat>, i: nat, es0: seq<nat>, e: Edge) returns (es: seq<nat>)
    requires inst.Valid() && inst.graph.TopologicalOrder(order)
    requires i < |order| && Forwarded(inst, order, i, es0) && inst.graph.HasEdge(order[i], e.t, e.lag)
    requires IsUnsigned(es0[order[i]]) && DemandDefined(es0[order[i]], e.lag)
    ensures var start := Demand(es0[order[i]], e.lag);
      es == es0[e.t := if start > es0[e.t] then start else es0[e.t]]
    ensures Forwarded(inst, order, i, es) && es[order[i]] == es0[order[i]]
    ensures Satisfied(es, order[i], e)
    ensures forall f: Edge :: Satisfied(es0, order[i], f) ==> Satisfied(es, order[i], f)
  {
    TargetIsLater(inst, order, i, e.t, e.lag);
    var start := Demand(es0[order[i]], e.lag);
    es := es0[e.t := if start > es0[e.t] then start else es0[e.t]];
    RaisedIsForwarded(inst, order, i, es0, e.t, e.lag, es);
  }

  lemma RaisedIsForwarded(inst: Instance, order: seq<nat>, i: nat, es0: seq<nat>, t: nat, lag: int, es: seq<nat>)
    requires inst.Valid() && inst.graph.TopologicalOrder(order)
    requires i < |order| && inst.graph.HasEdge(order[i], t, lag)
    requires Forwarded(inst, order, i, es0)
    requires forall j :: 0 <= j <= i ==> order[j] != t
    requires t < |es0| == |es| && es0[t] <= es[t] && es == es0[t := es[t]]
    requires es[t] == es0[t] || (es[t] <= INT_MAX && (es[t] <= 0 || es[t] <= es0[order[i]] + lag))
    ensures Forwarded(inst, order, i, es)
  {
    forall s: seq<int> | Start(inst, s)
      ensures Pointwise(es, s)
    {
      assert Pointwise(es0, s);
      assert inst.KeepsLagsOf(s, order[i]);
    }
    forall j | 0 <= j < i
      ensures Kept(inst, es, order[j])
    {
      assert Kept(inst, es0, order[j]);
    }
  }

  /** A schedule exists if and only if every job meets its deadline when it starts as early as possible. */
  lemma ExactFeasibility(inst: Instance, es: seq<int>)
    requires inst.Valid() && LeastStart(inst, es)
    ensures inst.Solvable() <==> inst.InTime(es)
    ensures forall s: seq<int> :: inst.Feasible(s) ==> Pointwise(es, s)
  {
    if inst.InTime(es) {
      assert inst.Feasible(es);
    }
    forall s: seq<int> | inst.Feasible(s)
      ensures Pointwise(es, s) && inst.InTime(es)
    {
      assert Start(inst, s);
      assert Pointwise(es, s);
    }
  }

  lemma LeastStartIsUnique(inst: Instance, a: seq<int>, b: seq<int>)
    requires inst.Valid() && LeastStart(inst, a) && LeastStart(inst, b)
    ensures a == b
  {
    assert Pointwise(a, b) && Pointwise(b, a);
  }

  /** The requirement of the forward pass is exact: the sums fit for some start vector if and only if they do for
      the least one. */
  lemma ForwardFitsExactlyIf(inst: Instance, es: seq<int>)
    requires inst.Valid() && LeastStart(inst, es)
    ensures ForwardFits(inst) <==> SumsFit(inst, es)
  {
    if s: seq<int> :| Start(inst, s) && SumsFit(inst, s) {
      assert Pointwise(es, s);
    }
  }

  /** On a solvable instance whose deadlines fit an `int`, nothing in the forward pass overflows. */
  lemma SolvableFits(inst: Instance)
    requires inst.Valid() && inst.Solvable()
    requires forall v :: 0 <= v < |inst.jobs| ==> inst.jobs[v].deadline <= INT_MAX
    ensures ForwardFits(inst)
  {
    var s: seq<int> :| inst.Feasible(s);
    forall u: nat, v: nat, lag: int | inst.graph.HasEdge(u, v, lag)
      ensures u < |s| && s[u] <= INT_MAX && s[u] + lag <= INT_MAX
    {
      assert inst.KeepsLagsOf(s, u);
    }
    assert Start(inst, s) && SumsFit(inst, s);
  }

  /** `top` bounds the releases and `step` the lags. */
  ghost predicate BoundedBy(inst: Instance, top: nat, step: nat) {
    && (forall v :: 0 <= v < |inst.jobs| ==> inst.jobs[v].release <= top)
    && forall u: nat, v: nat, lag: int :: inst.graph.HasEdge(u, v, lag) ==> lag <= step
  }

  /** Starting every job by its place in a topological order respects all releases and lags. */
  lemma StaggeredStart(inst: Instance, top: nat, step: nat) returns (s: seq<int>)
    requires inst.Valid() && BoundedBy(inst, top, step) && inst.jobs != []
    ensures Start(inst, s) && forall v :: 0 <= v < |s| ==> s[v] <= top + (|inst.jobs| - 1) * step
  {
    AcyclicExactlyIfOrdered(inst.graph);
    var order :| inst.graph.TopologicalOrder(order);
    s := seq(|inst.jobs|, v requires 0 <= v < |inst.jobs| => top + Position(inst.graph, order, v) * step);
    forall u: nat | u < |s|
      ensures inst.KeepsLagsOf(s, u) && s[u] <= top + (|s| - 1) * step
    {
      Steps(Position(inst.graph, order, u), |s| - 1, step);
      forall v: nat, lag: int | inst.graph.HasEdge(u, v, lag)
        ensures s[u] + lag <= s[v]
      {
        var i, j := Position(inst.graph, order, u), Position(inst.graph, order, v);
        assert inst.graph.HasEdge(order[i], order[j], lag);
        Steps(i + 1, j, step);
      }
    }
  }

  lemma Steps(a: nat, b: nat, step: nat)
    requires a <= b
    ensures a * step <= b * step && (a > 0 ==> a * step == (a - 1) * step + step)
  {
  }

  /** No earliest start exceeds the largest release plus n - 1 times the largest lag. */
  lemma StartsAreBounded(inst: Instance, top: nat, step: nat, es: seq<int>, v: nat)
    requires inst.Valid() && BoundedBy(inst, top, step) && LeastStart(inst, es) && v < |es|
    ensures es[v] <= top + (|inst.jobs| - 1) * step
  {
    var s := StaggeredStart(inst, top, step);
    assert Pointwise(es, s);
  }

  /** If that bound fits an `int`, nothing in the forward pass overflows. */
  lemma BoundedFits(inst: Instance, top: nat, step: nat)
    requires inst.Valid() && BoundedBy(inst, top, step)
    requires inst.jobs != [] ==> top + (|inst.jobs| - 1) * step <= INT_MAX
    ensures ForwardFits(inst)
  {
    if inst.jobs == [] {
      assert Start(inst, []) && SumsFit(inst, []);
    } else {
      var s := StaggeredStart(inst, top, step);
      forall u: nat, v: nat, lag: int | inst.graph.HasEdge(u, v, lag)
        ensures u < |s| && v < |s| && s[u] + lag <= s[v]
      {
        assert inst.KeepsLagsOf(s, u);
      }
      assert SumsFit(inst, s);
    }
  }

  /** The least start vector is computed exactly if it solves the equations with the casts. */
  lemma ForwardIsLeastExactlyIf(inst: Instance, r: Forward, es: seq<int>)
    requires inst.Valid() && LeastStart(inst, es)
    requires r.Starts? ==> StartRecurrence(inst, r.es)
    requires r.SumOverflow? ==> !StartsSolvable(inst)
    ensures r.Starts? && r.es == es <==> StartRecurrence(inst, es)
  {
    if StartRecurrence(inst, es) && r.Starts? {
      StartRecurrenceIsUnique(inst, r.es, es);
    }
  }

  /** The only edge leads from the first of two jobs to the second, with a lag of 0. */
  lemma OneEdgeOnly(g: LagGraph)
    requires g == LagGraph([[Edge(1, 0)], []], [[], [Edge(0, 0)]])
    ensures g.WellFormed() && g.Acyclic()
    ensures forall u: nat, v: nat, lag: int :: g.HasEdge(u, v, lag) <==> u == 0 && v == 1 && lag == 0
  {
    assert forall e: Edge :: e in [Edge(1, 0)] <==> e == Edge(1, 0);
    assert forall e: Edge :: e in [Edge(0, 0)] <==> e == Edge(0, 0);
    assert g.RankedBy([0, 1]);
  }

  /** A start of 3000000000 is cast to a negative number, and a lag of 0 then demands nothing of the second job: the
      pass computes a start of 0 for it. */
  method WrappedStartIsLost() returns (inst: Instance, ghost es: seq<int>, r: Forward)
    ensures inst == Instance([Job(3000000000, 4000000000, 1), Job(0, 4000000000, 1)],
                             LagGraph([[Edge(1, 0)], []], [[], [Edge(0, 0)]]))
    ensures inst.Valid() && inst.Solvable() && LeastStart(inst, es) && es == [3000000000, 3000000000]
    ensures r == Starts([3000000000, 0])
  {
    inst := Instance([Job(3000000000, 4000000000, 1), Job(0, 4000000000, 1)],
                     LagGraph([[Edge(1, 0)], []], [[], [Edge(0, 0)]]));
    es := [3000000000, 3000000000];
    WrappedStart(inst, es, [3000000000, 0]);
    r := GetForward(inst);
    if r.Starts? {
      StartRecurrenceIsUnique(inst, r.es, [3000000000, 0]);
    }
  }

  lemma WrappedStart(inst: Instance, es: seq<int>, computed: seq<int>)
    requires inst == Instance([Job(3000000000, 4000000000, 1), Job(0, 4000000000, 1)],
                              LagGraph([[Edge(1, 0)], []], [[], [Edge(0, 0)]]))
    requires es == [3000000000, 3000000000] && computed == [3000000000, 0]
    ensures inst.Valid() && inst.Solvable() && LeastStart(inst, es) && StartRecurrence(inst, computed)
  {
    OneEdgeOnly(inst.graph);
    forall s: seq<int> | Start(inst, s)
      ensures Pointwise(es, s)
    {
      assert inst.graph.HasEdge(0, 1, 0) && inst.KeepsLagsOf(s, 0);
    }
    assert inst.Feasible(es);
  }

  // ---------- reverse ----------

  /** The outcome of the reverse pass. For the second one the program throws an exception, and for the third one a
      result of `int` arithmetic leaves its range, which is undefined. */
  datatype Reverse = Finishes(lf: seq<nat>) | NegativeFinish | Overflow

  function StartsOf(inst: Instance, f: seq<int>): (s: seq<int>)
    requires |f| == |inst.jobs|
    ensures |s| == |f| && forall v :: 0 <= v < |s| ==> s[v] == f[v] - inst.jobs[v].duration
  {
    seq(|f|, v requires 0 <= v < |f| => f[v] - inst.jobs[v].duration)
  }

  function FinishesOf(inst: Instance, s: seq<int>): (f: seq<int>)
    requires |s| == |inst.jobs|
    ensures |f| == |s| && forall v :: 0 <= v < |f| ==> f[v] == s[v] + inst.jobs[v].duration
  {
    seq(|s|, v requires 0 <= v < |s| => s[v] + inst.jobs[v].duration)
  }

  ghost predicate MeetsDeadlines(inst: Instance, f: seq<int>) {
    |f| == |inst.jobs| && forall v :: 0 <= v < |f| ==> f[v] <= inst.jobs[v].deadline
  }

  /** Finish vectors that respect deadlines and lags, but not necessarily releases. */
  ghost predicate Finish(inst: Instance, f: seq<int>)
    requires inst.Valid()
  {
    MeetsDeadlines(inst, f) && inst.KeepsLags(StartsOf(inst, f))
  }

  ghost predicate NonNegative(f: seq<int>) {
    forall v :: 0 <= v < |f| ==> f[v] >= 0
  }

  ghost predicate AboveAllFinishes(inst: Instance, lf: seq<int>)
    requires inst.Valid()
  {
    forall f: seq<int> :: Finish(inst, f) ==> Pointwise(f, lf)
  }

  ghost predicate GreatestFinish(inst: Instance, lf: seq<int>)
    requires inst.Valid()
  {
    Finish(inst, lf) && AboveAllFinishes(inst, lf)
  }

  /** The sum that an edge forms, and all its parts, fit an `int`. */
  predicate LeaveFits(finish: int, duration: nat, durationT: nat, lag: int) {
    && finish <= INT_MAX && duration <= INT_MAX && durationT <= INT_MAX
    && finish - duration + durationT <= INT_MAX && IsSigned(finish - duration + durationT - lag)
  }

  /** The finish of `v` and the durations are not changed by the casts, if any edge enters `v`. */
  ghost predicate CastsFitInto(inst: Instance, f: seq<int>, v: nat)
    requires inst.Valid() && |f| == |inst.jobs| && v < |f|
  {
    forall t: nat, lag: int :: inst.graph.HasEdge(t, v, lag) && t < |f| && f[v] >= 0 ==>
      f[v] <= INT_MAX && inst.jobs[v].duration <= INT_MAX && inst.jobs[t].duration <= INT_MAX
  }

  ghost predicate CastsFitWith(inst: Instance, f: seq<int>)
    requires inst.Valid() && |f| == |inst.jobs|
  {
    forall v: nat :: v < |f| ==> CastsFitInto(inst, f, v)
  }

  /** No cast changes a greatest finish or a duration that the pass reads. */
  ghost predicate CastsFit(inst: Instance)
    requires inst.Valid()
  {
    exists f: seq<int> :: GreatestFinish(inst, f) && CastsFitWith(inst, f)
  }

  /** The sums over all edges entering `v` fit. Only with a finish that is not negative they are ever formed. */
  ghost predicate FitsInto(inst: Instance, f: seq<int>, v: nat)
    requires inst.Valid() && |f| == |inst.jobs| && v < |f|
  {
    forall t: nat, lag: int :: inst.graph.HasEdge(t, v, lag) && t < |f| && f[v] >= 0 ==>
      LeaveFits(f[v], inst.jobs[v].duration, inst.jobs[t].duration, lag)
  }

  ghost predicate SumsLeftFit(inst: Instance, f: seq<int>)
    requires inst.Valid() && |f| == |inst.jobs|
  {
    forall v: nat :: v < |f| ==> FitsInto(inst, f, v)
  }

  /** Nothing overflows with the greatest finishes. */
  ghost predicate ReverseFits(inst: Instance)
    requires inst.Valid()
  {
    exists f: seq<int> :: GreatestFinish(inst, f) && SumsLeftFit(inst, f)
  }

  /** The later part of the order is settled, and nothing is lower than it has to be. */
  ghost predicate Backward(inst: Instance, order: seq<nat>, i: nat, lf: seq<int>)
    requires inst.Valid() && inst.graph.TopologicalOrder(order)
  {
    && i <= |order|
    && MeetsDeadlines(inst, lf)
    && AboveAllFinishes(inst, lf)
    && forall j :: i <= j < |order| ==> KeepsLagsInto(inst, lf, order[j])
  }

  /** The lags of all edges entering `v` are kept. */
  ghost predicate KeepsLagsInto(inst: Instance, f: seq<int>, v: nat)
    requires inst.Valid() && |f| == |inst.jobs|
  {
    v < |f| && forall t: nat, lag: int :: inst.graph.HasEdge(t, v, lag) ==> KeepsLag(inst, f, t, v, lag)
  }

  ghost predicate KeepsLag(inst: Instance, f: seq<int>, t: nat, v: nat, lag: int)
    requires |f| == |inst.jobs| && v < |f|
  {
    t < |f| && f[t] - inst.jobs[t].duration + lag <= f[v] - inst.jobs[v].duration
  }

  /** The pass solves its equations with the casts, if that is possible without negative finishes. Unless a cast changes
      a value, the result is the greatest finish vector, the exception means that no finish vector is non-negative, and
      an overflow that some sum with the greatest finishes does not fit. */
  method GetReverse(inst: Instance) returns (r: Reverse)
    requires inst.Valid()
    ensures r.Finishes? ==> FinishRecurrence(inst, r.lf)
    ensures !r.Finishes? ==> !FinishesSolvable(inst)
    ensures r.NegativeFinish? ==> SomeEdgeThrows(inst)
    ensures r.Overflow? ==> SomeEdgeOverflows(inst)
    ensures CastsFit(inst) && r.Finishes? ==> GreatestFinish(inst, r.lf) && ReverseFits(inst)
    ensures CastsFit(inst) ==> Justified(inst, r)
  {
    var sort := new TopologicalSort(inst.graph);
    var order := sort.Get();
    var lf := Deadlines(inst, order);
    r := LowerFrom(inst, order, lf);
    DeadlinesAreFounded(inst, order, lf);
    PlacesSolve(inst, order, 0, lf);
    if r.Finishes? {
      FinishesAreDone(inst, order, r.lf);
    }
    if CastsFit(inst) {
      ReverseIsSettled(inst, order, lf, r);
    }
  }

  lemma ReverseIsSettled(inst: Instance, order: seq<nat>, lf: seq<nat>, r: Reverse)
    requires inst.Valid() && inst.graph.TopologicalOrder(order) && CastsFit(inst) && |lf| == |inst.jobs|
    requires forall v :: 0 <= v < |lf| ==> lf[v] == inst.jobs[v].deadline
    requires r == LowerPlaces(inst, order, 0, lf)
    ensures r.Finishes? ==> GreatestFinish(inst, r.lf) && ReverseFits(inst)
    ensures Justified(inst, r)
  {
    var greatest: seq<int> :| GreatestFinish(inst, greatest) && CastsFitWith(inst, greatest);
    NothingSettled(inst, order, lf, greatest);
    PlacesAreJustified(inst, order, 0, lf, greatest);
    if r.Finishes? {
      PlacesAreSettled(inst, order, 0, lf, greatest);
      AllSettled(inst, order, r.lf, greatest);
    }
  }

  /** What ends the pass without a result is an edge into a vertex whose finish is settled. */
  ghost predicate Caused(inst: Instance, r: Reverse) {
    (r.NegativeFinish? ==> SomeEdgeThrows(inst)) && (r.Overflow? ==> SomeEdgeOverflows(inst))
  }

  /** What ends the pass without a result means what it says. */
  ghost predicate Justified(inst: Instance, r: Reverse)
    requires inst.Valid()
  {
    && (r.NegativeFinish? ==> !exists f: seq<int> :: Finish(inst, f) && NonNegative(f))
    && (r.Overflow? ==> !ReverseFits(inst))
  }

  /** From place `i` on, the finishes are settled and all sums fit. */
  ghost predicate Settled(inst: Instance, order: seq<nat>, i: nat, lf: seq<int>, greatest: seq<int>)
    requires inst.Valid() && inst.graph.TopologicalOrder(order) && |greatest| == |inst.jobs|
  {
    Backward(inst, order, i, lf) && forall j :: i <= j < |order| ==> FitsInto(inst, greatest, order[j])
  }

  lemma AllSettled(inst: Instance, order: seq<nat>, lf: seq<int>, greatest: seq<int>)
    requires inst.Valid() && inst.graph.TopologicalOrder(order) && GreatestFinish(inst, greatest)
    requires Settled(inst, order, 0, lf, greatest)
    ensures GreatestFinish(inst, lf) && ReverseFits(inst)
  {
    KeepsAllInto(inst, order, lf);
    forall v: nat | v < |greatest|
      ensures FitsInto(inst, greatest, v)
    {
      var j := Position(inst.graph, order, v);
      assert FitsInto(inst, greatest, order[j]);
    }
    assert SumsLeftFit(inst, greatest);
  }

  /** The loop that sets all finishes to the deadlines. */
  method Deadlines(inst: Instance, order: seq<nat>) returns (lf: seq<nat>)
    requires inst.Valid() && inst.graph.TopologicalOrder(order)
    ensures |lf| == |inst.jobs| && forall v :: 0 <= v < |lf| ==> lf[v] == inst.jobs[v].deadline
  {
    lf := seq(|order|, _ => 0);
    var i := |order|;
    while i > 0
      invariant 0 <= i <= |order| && |lf| == |order|
      invariant forall j :: i <= j < |order| ==> lf[order[j]] == inst.jobs[order[j]].deadline
    {
      i := i - 1;
      lf := lf[order[i] := inst.jobs[order[i]].deadline];
    }
    AllDue(inst, order, lf);
  }

  lemma DeadlinesAreFounded(inst: Instance, order: seq<nat>, lf: seq<nat>)
    requires inst.Valid() && |lf| == |inst.jobs|
    requires forall v :: 0 <= v < |lf| ==> lf[v] == inst.jobs[v].deadline
    ensures FinishesFrom(inst, order, |order|, lf)
  {
    forall t: nat | t < |lf|
      ensures FinishFounded(inst, order, |order|, lf, t)
    {
    }
  }

  lemma NothingSettled(inst: Instance, order: seq<nat>, lf: seq<int>, greatest: seq<int>)
    requires inst.Valid() && inst.graph.TopologicalOrder(order) && |greatest| == |inst.jobs|
    requires |lf| == |inst.jobs| && forall v :: 0 <= v < |lf| ==> lf[v] == inst.jobs[v].deadline
    ensures Settled(inst, order, |order|, lf, greatest)
  {
  }

  lemma AllDue(inst: Instance, order: seq<nat>, lf: seq<int>)
    requires inst.Valid() && inst.graph.TopologicalOrder(order) && |lf| == |order|
    requires forall j :: 0 <= j < |order| ==> lf[order[j]] == inst.jobs[order[j]].deadline
    ensures forall v :: 0 <= v < |lf| ==> lf[v] == inst.jobs[v].deadline
  {
    forall v | 0 <= v < |lf|
      ensures lf[v] == inst.jobs[v].deadline
    {
      var j := Position(inst.graph, order, v);
      assert lf[order[j]] == inst.jobs[order[j]].deadline;
    }
  }

  lemma KeepsAllInto(inst: Instance, order: seq<nat>, lf: seq<int>)
    requires inst.Valid() && inst.graph.TopologicalOrder(order)
    requires Backward(inst, order, 0, lf)
    ensures GreatestFinish(inst, lf)
  {
    forall u: nat | u < |lf|
      ensures inst.KeepsLagsOf(StartsOf(inst, lf), u)
    {
      forall v: nat, lag: int | inst.graph.HasEdge(u, v, lag)
        ensures StartsOf(inst, lf)[u] + lag <= StartsOf(inst, lf)[v]
      {
        var j := Position(inst.graph, order, v);
        assert KeepsLagsInto(inst, lf, order[j]);
        assert KeepsLag(inst, lf, u, v, lag);
      }
    }
  }

  /** The first `k` edges entering the i-th vertex are handled. */
  ghost predicate HandledUpTo(inst: Instance, order: seq<nat>, i: nat, k: nat, lf: seq<int>, greatest: seq<int>)
    requires inst.Valid() && inst.graph.TopologicalOrder(order) && |greatest| == |inst.jobs|
    requires i < |order| && k <= |inst.graph.radj[order[i]]|
  {
    && Backward(inst, order, i + 1, lf)
    && forall j :: 0 <= j < k ==> Handled(inst, lf, greatest, order[i], inst.graph.radj[order[i]][j])
  }

  /** The lag of an entering edge is kept, and its sum fits. */
  ghost predicate Handled(inst: Instance, lf: seq<int>, greatest: seq<int>, v: nat, e: Edge)
    requires |lf| == |greatest| == |inst.jobs| && v < |lf|
  {
    && KeepsLag(inst, lf, e.t, v, e.lag)
    && LeaveFits(greatest[v], inst.jobs[v].duration, inst.jobs[e.t].duration, e.lag)
  }

  lemma AllHandled(inst: Instance, order: seq<nat>, i: nat, lf0: seq<int>, lf: seq<int>, greatest: seq<int>)
    requires inst.Valid() && inst.graph.TopologicalOrder(order) && |greatest| == |inst.jobs| && i < |order|
    requires Settled(inst, order, i + 1, lf0, greatest)
    requires HandledUpTo(inst, order, i, |inst.graph.radj[order[i]]|, lf, greatest)
    ensures Settled(inst, order, i, lf, greatest)
  {
    var edges := inst.graph.radj[order[i]];
    forall t: nat, lag: int | inst.graph.HasEdge(t, order[i], lag)
      ensures Handled(inst, lf, greatest, order[i], Edge(t, lag))
    {
      assert inst.graph.HasReverseEdge(order[i], t, lag);
      var j :| 0 <= j < |edges| && edges[j] == Edge(t, lag);
    }
    assert KeepsLagsInto(inst, lf, order[i]) && FitsInto(inst, greatest, order[i]);
  }

  /** The edges into a vertex come from within the graph. */
  lemma EdgeIsTyped(inst: Instance, v: nat, k: nat)
    requires inst.Valid() && v < |inst.jobs| && k < |inst.graph.radj[v]|
    ensures var e := inst.graph.radj[v][k];
      e.t < |inst.jobs| && inst.jobs[v].Typed() && inst.jobs[e.t].Typed() && inst.graph.HasEdge(e.t, v, e.lag)
  {
    var e := inst.graph.radj[v][k];
    assert inst.graph.HasReverseEdge(v, e.t, e.lag);
    assert inst.graph.HasEdge(e.t, v, e.lag);
  }

  /** The outcome of one edge: its source has to finish early enough for the lag, and may not finish before time 0. */
  function LowerBy(inst: Instance, lf: seq<nat>, v: nat, e: Edge): (r: Reverse)
    requires inst.Valid() && MeetsDeadlines(inst, lf) && v < |lf| && e.t < |lf|
    ensures r.Finishes? ==> MeetsDeadlines(inst, r.lf)
  {
    assert inst.jobs[v].Typed() && inst.jobs[e.t].Typed() && lf[v] <= inst.jobs[v].deadline;
    if !LeaveDefined(lf[v], inst.jobs[v].duration, inst.jobs[e.t].duration, e.lag) then Overflow
    else
      var newFinish := Leave(lf[v], inst.jobs[v].duration, inst.jobs[e.t].duration, e.lag);
      if newFinish < 0 then NegativeFinish
      else Finishes(if newFinish < lf[e.t] then lf[e.t := newFinish] else lf)
  }

  /** The outcome of the first `k` edges entering a vertex. */
  ghost function LowerEdges(inst: Instance, lf: seq<nat>, v: nat, k: nat): (r: Reverse)
    requires inst.Valid() && MeetsDeadlines(inst, lf) && v < |inst.jobs| && k <= |inst.graph.radj[v]|
    ensures r.Finishes? ==> MeetsDeadlines(inst, r.lf)
  {
    if k == 0 then Finishes(lf)
    else
      var before := LowerEdges(inst, lf, v, k - 1);
      EdgeIsTyped(inst, v, k - 1);
      if before.Finishes? then LowerBy(inst, before.lf, v, inst.graph.radj[v][k - 1]) else before
  }

  /** The outcome of the vertices from place `i` of the order on. */
  ghost function LowerPlaces(inst: Instance, order: seq<nat>, i: nat, lf: seq<nat>): (r: Reverse)
    requires inst.Valid() && inst.graph.TopologicalOrder(order) && MeetsDeadlines(inst, lf) && i <= |order|
    ensures r.Finishes? ==> MeetsDeadlines(inst, r.lf)
    decreases |order| - i
  {
    if i == |order| then Finishes(lf)
    else
      var behind := LowerPlaces(inst, order, i + 1, lf);
      if behind.Finishes? then LowerEdges(inst, behind.lf, order[i], |inst.graph.radj[order[i]]|) else behind
  }

  lemma {:induction false} EdgesFailForGood(inst: Instance, lf: seq<nat>, v: nat, k: nat, m: nat)
    requires inst.Valid() && MeetsDeadlines(inst, lf) && v < |inst.jobs| && k <= m <= |inst.graph.radj[v]|
    requires !LowerEdges(inst, lf, v, k).Finishes?
    ensures LowerEdges(inst, lf, v, m) == LowerEdges(inst, lf, v, k)
    decreases m
  {
    if k == m {
    } else {
      EdgesFailForGood(inst, lf, v, k, m - 1);
    }
  }

  lemma {:induction false} PlacesFailForGood(inst: Instance, order: seq<nat>, i: nat, lf: seq<nat>, m: nat)
    requires inst.Valid() && inst.graph.TopologicalOrder(order) && MeetsDeadlines(inst, lf) && m <= i <= |order|
    requires !LowerPlaces(inst, order, i, lf).Finishes?
    ensures LowerPlaces(inst, order, m, lf) == LowerPlaces(inst, order, i, lf)
    decreases i - m
  {
    if i == m {
    } else {
      PlacesFailForGood(inst, order, i, lf, m + 1);
    }
  }

  /** The loop over the edges entering the i-th vertex of the order. */
  method LowerAll(inst: Instance, order: seq<nat>, i: nat, lf: seq<nat>) returns (r: Reverse)
    requires inst.Valid() && inst.graph.TopologicalOrder(order) && MeetsDeadlines(inst, lf) && i < |order|
    ensures r == LowerEdges(inst, lf, order[i], |inst.graph.radj[order[i]]|)
  {
    r := Finishes(lf);
    var v := order[i];
    var edges := inst.graph.radj[v];
    var k := 0;
    while k < |edges|
      invariant 0 <= k <= |edges| && r.Finishes? && r == LowerEdges(inst, lf, v, k)
    {
      EdgeIsTyped(inst, v, k);
      r := LowerBy(inst, r.lf, v, edges[k]);
      k := k + 1;
      if !r.Finishes? {
        EdgesFailForGood(inst, lf, v, k, |edges|);
        return;
      }
    }
  }

  /** The loop over the order, from its end. */
  method LowerFrom(inst: Instance, order: seq<nat>, lf: seq<nat>) returns (r: Reverse)
    requires inst.Valid() && inst.graph.TopologicalOrder(order) && MeetsDeadlines(inst, lf)
    ensures r == LowerPlaces(inst, order, 0, lf)
  {
    r := Finishes(lf);
    var i := |order|;
    while i > 0
      invariant 0 <= i <= |order| && r.Finishes? && r == LowerPlaces(inst, order, i, lf)
    {
      i := i - 1;
      r := LowerAll(inst, order, i, r.lf);
      if !r.Finishes? {
        PlacesFailForGood(inst, order, i, lf, 0);
        return;
      }
    }
  }

  // What the outcomes mean for the equations.

  /** The finishes solve the equations as far as the pass has come, or the pass fails for a reason and the equations
      have no solution. */
  ghost predicate Solves(inst: Instance, order: seq<nat>, i: nat, k: nat, r: Reverse)
    requires inst.Valid()
  {
    if r.Finishes? then FinishesWithin(inst, order, i, k, r.lf) else !FinishesSolvable(inst) && Caused(inst, r)
  }

  lemma LowerSolves(inst: Instance, order: seq<nat>, i: nat, k: nat, lf: seq<nat>, r: Reverse)
    requires inst.Valid() && inst.graph.TopologicalOrder(order) && MeetsDeadlines(inst, lf)
    requires FinishesWithin(inst, order, i, k, lf) && k < |inst.graph.radj[order[i]]|
    requires inst.graph.radj[order[i]][k].t < |lf| && r == LowerBy(inst, lf, order[i], inst.graph.radj[order[i]][k])
    ensures Solves(inst, order, i, k + 1, r)
  {
    if r.Finishes? {
      NextEdgeBack(inst, order, i, k, lf, r.lf);
    } else {
      NoFinishes(inst, order, i, k, lf);
      BehindIsSolved(inst, order, i, k, lf);
      var e := inst.graph.radj[order[i]][k];
      EdgeIsTyped(inst, order[i], k);
      assert r.NegativeFinish? ==> EdgeThrows(inst, lf, e.t, order[i], e.lag);
      assert r.Overflow? ==> EdgeOverflows(inst, lf, e.t, order[i], e.lag);
    }
  }

  lemma {:induction false} EdgesSolve(inst: Instance, order: seq<nat>, i: nat, k: nat, lf: seq<nat>)
    requires inst.Valid() && inst.graph.TopologicalOrder(order) && MeetsDeadlines(inst, lf)
    requires FinishesWithin(inst, order, i, 0, lf) && k <= |inst.graph.radj[order[i]]|
    ensures Solves(inst, order, i, k, LowerEdges(inst, lf, order[i], k))
    decreases k
  {
    if k == 0 {
    } else {
      EdgesSolve(inst, order, i, k - 1, lf);
      EdgeIsTyped(inst, order[i], k - 1);
      var before := LowerEdges(inst, lf, order[i], k - 1);
      if before.Finishes? {
        LowerSolves(inst, order, i, k - 1, before.lf, LowerEdges(inst, lf, order[i], k));
      }
    }
  }

  /** The reverse pass solves its equations, or they have no solution. */
  lemma {:induction false} PlacesSolve(inst: Instance, order: seq<nat>, i: nat, lf: seq<nat>)
    requires inst.Valid() && inst.graph.TopologicalOrder(order) && MeetsDeadlines(inst, lf) && i <= |order|
    requires FinishesFrom(inst, order, |order|, lf)
    ensures var r := LowerPlaces(inst, order, i, lf);
      if r.Finishes? then FinishesFrom(inst, order, i, r.lf) else !FinishesSolvable(inst) && Caused(inst, r)
    decreases |order| - i
  {
    if i == |order| {
    } else {
      PlacesSolve(inst, order, i + 1, lf);
      var behind := LowerPlaces(inst, order, i + 1, lf);
      if behind.Finishes? {
        FirstEdgeBack(inst, order, i, behind.lf);
        EdgesSolve(inst, order, i, |inst.graph.radj[order[i]]|, behind.lf);
        var r := LowerPlaces(inst, order, i, lf);
        if r.Finishes? {
          LastEdgeBack(inst, order, i, r.lf);
        }
      }
    }
  }

  // What the outcomes mean for the greatest finishes, if no cast changes a value.

  /** The edge reads what it has to, and `r` is its outcome. */
  ghost predicate Lowers(inst: Instance, lf: seq<nat>, greatest: seq<int>, v: nat, e: Edge, r: Reverse)
    requires inst.Valid()
  {
    && MeetsDeadlines(inst, lf) && v < |lf| && e.t < |lf|
    && lf[v] <= INT_MAX && inst.jobs[v].duration <= INT_MAX && inst.jobs[e.t].duration <= INT_MAX
    && inst.graph.HasEdge(e.t, v, e.lag)
    && |greatest| == |lf| && greatest[v] == lf[v]
    && r == LowerBy(inst, lf, v, e)
  }

  lemma LowerIsExact(inst: Instance, order: seq<nat>, i: nat, k: nat, lf: seq<nat>, greatest: seq<int>, r: Reverse)
    requires inst.Valid() && inst.graph.TopologicalOrder(order) && GreatestFinish(inst, greatest)
    requires CastsFitWith(inst, greatest)
    requires i < |order| && k < |inst.graph.radj[order[i]]| && HandledUpTo(inst, order, i, k, lf, greatest)
    requires MeetsDeadlines(inst, lf) && inst.graph.radj[order[i]][k].t < |lf|
    requires r == LowerBy(inst, lf, order[i], inst.graph.radj[order[i]][k])
    ensures r.Finishes? ==> HandledUpTo(inst, order, i, k + 1, r.lf, greatest)
    ensures Justified(inst, r)
  {
    var e := inst.graph.radj[order[i]][k];
    EdgeIsTyped(inst, order[i], k);
    ReadIsGreatest(inst, order, i, lf, e.t, e.lag, greatest);
    assert Lowers(inst, lf, greatest, order[i], e, r);
    LowerIsJustified(inst, lf, greatest, order[i], e, r);
    if r.Finishes? {
      LowerIsHandled(inst, order, i, k, lf, greatest, r);
    }
  }

  lemma LowerIsJustified(inst: Instance, lf: seq<nat>, greatest: seq<int>, v: nat, e: Edge, r: Reverse)
    requires inst.Valid() && GreatestFinish(inst, greatest) && Lowers(inst, lf, greatest, v, e, r)
    requires AboveAllFinishes(inst, lf)
    ensures Justified(inst, r)
  {
    if r.Overflow? {
      OverflowIsReal(inst, greatest, e.t, v, e.lag);
    } else if r.NegativeFinish? {
      NothingLeft(inst, lf, e.t, v, e.lag);
    }
  }

  lemma LowerIsHandled(inst: Instance, order: seq<nat>, i: nat, k: nat, lf: seq<nat>, greatest: seq<int>, r: Reverse)
    requires inst.Valid() && inst.graph.TopologicalOrder(order) && GreatestFinish(inst, greatest)
    requires i < |order| && k < |inst.graph.radj[order[i]]|
    requires Lowers(inst, lf, greatest, order[i], inst.graph.radj[order[i]][k], r) && r.Finishes?
    requires HandledUpTo(inst, order, i, k, lf, greatest)
    ensures HandledUpTo(inst, order, i, k + 1, r.lf, greatest)
  {
    OneMoreHandled(inst, order, i, k, lf, greatest);
  }

  lemma {:induction false} EdgesAreHandled(inst: Instance, order: seq<nat>, i: nat, k: nat, lf: seq<nat>,
                                           greatest: seq<int>)
    requires inst.Valid() && inst.graph.TopologicalOrder(order) && GreatestFinish(inst, greatest)
    requires CastsFitWith(inst, greatest)
    requires i < |order| && k <= |inst.graph.radj[order[i]]| && MeetsDeadlines(inst, lf)
    requires Backward(inst, order, i + 1, lf) && LowerEdges(inst, lf, order[i], k).Finishes?
    ensures HandledUpTo(inst, order, i, k, LowerEdges(inst, lf, order[i], k).lf, greatest)
    decreases k
  {
    if k == 0 {
    } else {
      EdgesAreHandled(inst, order, i, k - 1, lf, greatest);
      EdgeIsTyped(inst, order[i], k - 1);
      var before, r := LowerEdges(inst, lf, order[i], k - 1).lf, LowerEdges(inst, lf, order[i], k);
      LowerIsExact(inst, order, i, k - 1, before, greatest, r);
    }
  }

  lemma {:induction false} EdgesAreJustified(inst: Instance, order: seq<nat>, i: nat, k: nat, lf: seq<nat>,
                                             greatest: seq<int>)
    requires inst.Valid() && inst.graph.TopologicalOrder(order) && GreatestFinish(inst, greatest)
    requires CastsFitWith(inst, greatest)
    requires i < |order| && k <= |inst.graph.radj[order[i]]| && MeetsDeadlines(inst, lf)
    requires Backward(inst, order, i + 1, lf)
    ensures Justified(inst, LowerEdges(inst, lf, order[i], k))
    decreases k
  {
    if k == 0 {
    } else if LowerEdges(inst, lf, order[i], k - 1).Finishes? {
      EdgesAreHandled(inst, order, i, k - 1, lf, greatest);
      EdgeIsTyped(inst, order[i], k - 1);
      var before, r := LowerEdges(inst, lf, order[i], k - 1).lf, LowerEdges(inst, lf, order[i], k);
      LowerIsExact(inst, order, i, k - 1, before, greatest, r);
    } else {
      EdgesAreJustified(inst, order, i, k - 1, lf, greatest);
    }
  }

  /** If no cast changes a value, the reverse pass settles the greatest finishes. */
  lemma {:induction false} PlacesAreSettled(inst: Instance, order: seq<nat>, i: nat, lf: seq<nat>, greatest: seq<int>)
    requires inst.Valid() && inst.graph.TopologicalOrder(order) && GreatestFinish(inst, greatest)
    requires CastsFitWith(inst, greatest)
    requires MeetsDeadlines(inst, lf) && i <= |order| && Settled(inst, order, |order|, lf, greatest)
    requires LowerPlaces(inst, order, i, lf).Finishes?
    ensures Settled(inst, order, i, LowerPlaces(inst, order, i, lf).lf, greatest)
    decreases |order| - i
  {
    if i == |order| {
    } else {
      PlacesAreSettled(inst, order, i + 1, lf, greatest);
      var behind, r := LowerPlaces(inst, order, i + 1, lf).lf, LowerPlaces(inst, order, i, lf);
      EdgesAreHandled(inst, order, i, |inst.graph.radj[order[i]]|, behind, greatest);
      AllHandled(inst, order, i, behind, r.lf, greatest);
    }
  }

  /** If no cast changes a value, a failure of the reverse pass is justified. */
  lemma {:induction false} PlacesAreJustified(inst: Instance, order: seq<nat>, i: nat, lf: seq<nat>,
                                              greatest: seq<int>)
    requires inst.Valid() && inst.graph.TopologicalOrder(order) && GreatestFinish(inst, greatest)
    requires CastsFitWith(inst, greatest)
    requires MeetsDeadlines(inst, lf) && i <= |order| && Settled(inst, order, |order|, lf, greatest)
    ensures Justified(inst, LowerPlaces(inst, order, i, lf))
    decreases |order| - i
  {
    if i == |order| {
    } else if LowerPlaces(inst, order, i + 1, lf).Finishes? {
      PlacesAreSettled(inst, order, i + 1, lf, greatest);
      var behind := LowerPlaces(inst, order, i + 1, lf).lf;
      EdgesAreJustified(inst, order, i, |inst.graph.radj[order[i]]|, behind, greatest);
    } else {
      PlacesAreJustified(inst, order, i + 1, lf, greatest);
    }
  }

  lemma OneMoreHandled(inst: Instance, order: seq<nat>, i: nat, k: nat, lf: seq<int>, greatest: seq<int>)
    requires inst.Valid() && inst.graph.TopologicalOrder(order) && GreatestFinish(inst, greatest)
    requires i < |order| && k < |inst.graph.radj[order[i]]| && HandledUpTo(inst, order, i, k, lf, greatest)
    requires var e := inst.graph.radj[order[i]][k];
      && e.t < |lf|
      && LeaveFits(greatest[order[i]], inst.jobs[order[i]].duration, inst.jobs[e.t].duration, e.lag)
    ensures var e := inst.graph.radj[order[i]][k];
      HandledUpTo(inst, order, i, k + 1, Lowered(inst, lf, e.t, order[i], e.lag), greatest)
  {
    var e := inst.graph.radj[order[i]][k];
    assert inst.graph.HasReverseEdge(order[i], e.t, e.lag);
    LoweredByEdge(inst, order, i, lf, e.t, e.lag);
  }

  /** What the pass reads is the greatest finish of a vertex, and unchanged by the casts. */
  lemma ReadIsGreatest(inst: Instance, order: seq<nat>, i: nat, lf: seq<nat>, t: nat, lag: int, greatest: seq<int>)
    requires inst.Valid() && inst.graph.TopologicalOrder(order) && GreatestFinish(inst, greatest)
    requires CastsFitWith(inst, greatest)
    requires i < |order| && Backward(inst, order, i + 1, lf) && inst.graph.HasEdge(t, order[i], lag)
    ensures t < |lf| && lf[order[i]] == greatest[order[i]] <= INT_MAX
    ensures inst.jobs[order[i]].duration <= INT_MAX && inst.jobs[t].duration <= INT_MAX
  {
    SourceIsEarlier(inst, order, i, t, lag);
    SettledIsGreatest(inst, order, i, lf, greatest);
    assert CastsFitInto(inst, greatest, order[i]);
  }

  lemma OverflowIsReal(inst: Instance, greatest: seq<int>, t: nat, v: nat, lag: int)
    requires inst.Valid() && GreatestFinish(inst, greatest) && inst.graph.HasEdge(t, v, lag)
    requires t < |greatest| && v < |greatest| && greatest[v] >= 0
    requires !LeaveFits(greatest[v], inst.jobs[v].duration, inst.jobs[t].duration, lag)
    ensures !ReverseFits(inst)
  {
    forall f: seq<int> | GreatestFinish(inst, f)
      ensures !SumsLeftFit(inst, f)
    {
      GreatestFinishIsUnique(inst, f, greatest);
      assert !FitsInto(inst, f, v);
    }
  }

  lemma GreatestFinishIsUnique(inst: Instance, a: seq<int>, b: seq<int>)
    requires inst.Valid() && GreatestFinish(inst, a) && GreatestFinish(inst, b)
    ensures a == b
  {
    assert Pointwise(a, b) && Pointwise(b, a);
  }

  /** The finish of a vertex all of whose outgoing edges have been handled is final. */
  lemma SettledIsGreatest(inst: Instance, order: seq<nat>, i: nat, lf: seq<int>, greatest: seq<int>)
    requires inst.Valid() && inst.graph.TopologicalOrder(order) && GreatestFinish(inst, greatest)
    requires i < |order| && Backward(inst, order, i + 1, lf)
    ensures lf[order[i]] == greatest[order[i]]
  {
    assert Pointwise(greatest, lf);
    var f := seq(|lf|, v requires 0 <= v < |lf| =>
      if Position(inst.graph, order, v) >= i then lf[v] else greatest[v]);
    forall u: nat | u < |f|
      ensures inst.KeepsLagsOf(StartsOf(inst, f), u)
    {
      assert inst.KeepsLagsOf(StartsOf(inst, greatest), u);
      forall v: nat, lag: int | inst.graph.HasEdge(u, v, lag)
        ensures StartsOf(inst, f)[u] + lag <= StartsOf(inst, f)[v]
      {
        MixedKeepsLag(inst, order, i, lf, greatest, u, v, lag);
      }
    }
    assert Finish(inst, f);
    assert Pointwise(f, greatest);
  }

  lemma MixedKeepsLag(inst: Instance, order: seq<nat>, i: nat, lf: seq<int>, greatest: seq<int>,
                      u: nat, v: nat, lag: int)
    requires inst.Valid() && inst.graph.TopologicalOrder(order) && GreatestFinish(inst, greatest)
    requires i < |order| && Backward(inst, order, i + 1, lf) && Pointwise(greatest, lf)
    requires inst.graph.HasEdge(u, v, lag) && u < |lf| && v < |lf|
    ensures var p, q := Position(inst.graph, order, u), Position(inst.graph, order, v);
      (if p >= i then lf[u] else greatest[u]) - inst.jobs[u].duration + lag
      <= (if q >= i then lf[v] else greatest[v]) - inst.jobs[v].duration
  {
    var p, q := Position(inst.graph, order, u), Position(inst.graph, order, v);
    assert inst.graph.HasEdge(order[p], order[q], lag);
    if p >= i {
      assert KeepsLagsInto(inst, lf, order[q]);
      assert KeepsLag(inst, lf, u, v, lag);
    } else {
      assert inst.KeepsLagsOf(StartsOf(inst, greatest), u);
    }
  }

  /** There is a greatest finish vector, if negative finishes are allowed. */
  lemma GreatestFinishExists(inst: Instance) returns (f: seq<int>)
    requires inst.Valid()
    ensures GreatestFinish(inst, f)
  {
    AcyclicExactlyIfOrdered(inst.graph);
    var order :| inst.graph.TopologicalOrder(order);
    f := seq(|inst.jobs|, v requires 0 <= v < |inst.jobs| => inst.jobs[v].deadline);
    var i: nat := |order|;
    while i > 0
      invariant i <= |order| && Backward(inst, order, i, f)
    {
      f := LoweredAll(inst, order, i - 1, f, |inst.graph.radj[order[i - 1]]|);
      i := i - 1;
    }
    KeepsAllInto(inst, order, f);
  }

  /** The finishes after the first `k` edges entering the i-th vertex of the order. */
  lemma {:induction false} LoweredAll(inst: Instance, order: seq<nat>, i: nat, lf: seq<int>, k: nat)
    returns (f: seq<int>)
    requires inst.Valid() && inst.graph.TopologicalOrder(order)
    requires i < |order| && Backward(inst, order, i + 1, lf) && k <= |inst.graph.radj[order[i]]|
    ensures Backward(inst, order, i + 1, f)
    ensures forall j :: 0 <= j < k ==>
      KeepsLag(inst, f, inst.graph.radj[order[i]][j].t, order[i], inst.graph.radj[order[i]][j].lag)
    ensures k == |inst.graph.radj[order[i]]| ==> Backward(inst, order, i, f)
  {
    f := lf;
    if k > 0 {
      f := LoweredAll(inst, order, i, lf, k - 1);
      var e := inst.graph.radj[order[i]][k - 1];
      assert inst.graph.HasReverseEdge(order[i], e.t, e.lag);
      SourceIsEarlier(inst, order, i, e.t, e.lag);
      LoweredByEdge(inst, order, i, f, e.t, e.lag);
      f := Lowered(inst, f, e.t, order[i], e.lag);
    }
    if k == |inst.graph.radj[order[i]]| {
      forall t: nat, lag: int | inst.graph.HasEdge(t, order[i], lag)
        ensures KeepsLag(inst, f, t, order[i], lag)
      {
        assert inst.graph.HasReverseEdge(order[i], t, lag);
        var j :| 0 <= j < k && inst.graph.radj[order[i]][j] == Edge(t, lag);
      }
    }
  }

  /** The finishes after one edge. */
  ghost function Lowered(inst: Instance, lf: seq<int>, t: nat, v: nat, lag: int): (f: seq<int>)
    requires |lf| == |inst.jobs| && t < |lf| && v < |lf|
  {
    var finish := lf[v] - inst.jobs[v].duration + inst.jobs[t].duration - lag;
    if finish < lf[t] then lf[t := finish] else lf
  }

  lemma LoweredByEdge(inst: Instance, order: seq<nat>, i: nat, lf: seq<int>, t: nat, lag: int)
    requires inst.Valid() && inst.graph.TopologicalOrder(order)
    requires i < |order| && Backward(inst, order, i + 1, lf) && inst.graph.HasEdge(t, order[i], lag) && t < |order|
    ensures Backward(inst, order, i + 1, Lowered(inst, lf, t, order[i], lag))
    ensures KeepsLag(inst, Lowered(inst, lf, t, order[i], lag), t, order[i], lag)
    ensures forall e: Edge :: KeepsLag(inst, lf, e.t, order[i], e.lag) ==>
      KeepsLag(inst, Lowered(inst, lf, t, order[i], lag), e.t, order[i], e.lag)
  {
    SourceIsEarlier(inst, order, i, t, lag);
    FinishLeft(inst, lf, t, order[i], lag);
    LoweredIsBackward(inst, order, i, lf, t, lag, Lowered(inst, lf, t, order[i], lag));
  }

  /** What an edge leaves to its source bounds every finish vector. */
  lemma FinishLeft(inst: Instance, lf: seq<int>, t: nat, v: nat, lag: int)
    requires inst.Valid() && inst.graph.HasEdge(t, v, lag) && t < |inst.jobs|
    requires |lf| == |inst.jobs| && AboveAllFinishes(inst, lf)
    ensures forall f: seq<int> :: Finish(inst, f) ==>
      |f| == |inst.jobs| && f[t] <= lf[v] - inst.jobs[v].duration + inst.jobs[t].duration - lag
  {
    forall f: seq<int> | Finish(inst, f)
      ensures |f| == |inst.jobs| && f[t] <= lf[v] - inst.jobs[v].duration + inst.jobs[t].duration - lag
    {
      assert Pointwise(f, lf);
      assert inst.KeepsLagsOf(StartsOf(inst, f), t);
    }
  }

  lemma NothingLeft(inst: Instance, lf: seq<int>, t: nat, v: nat, lag: int)
    requires inst.Valid() && inst.graph.HasEdge(t, v, lag) && t < |inst.jobs|
    requires |lf| == |inst.jobs| && AboveAllFinishes(inst, lf)
    requires lf[v] - inst.jobs[v].duration + inst.jobs[t].duration - lag < 0
    ensures !exists f: seq<int> :: Finish(inst, f) && NonNegative(f)
  {
    FinishLeft(inst, lf, t, v, lag);
  }

  lemma LoweredIsBackward(inst: Instance, order: seq<nat>, i: nat, lf0: seq<int>, t: nat, lag: int, lf: seq<int>)
    requires inst.Valid() && inst.graph.TopologicalOrder(order)
    requires i < |order| && inst.graph.HasEdge(t, order[i], lag)
    requires Backward(inst, order, i + 1, lf0)
    requires forall j :: i <= j < |order| ==> order[j] != t
    requires t < |lf0| == |lf| && lf[t] <= lf0[t] && lf == lf0[t := lf[t]]
    requires lf[t] == lf0[t] || (forall f: seq<int> :: Finish(inst, f) ==> |f| == |lf| && f[t] <= lf[t])
    ensures Backward(inst, order, i + 1, lf)
    ensures forall u: nat, l: int :: KeepsLag(inst, lf0, u, order[i], l) ==> KeepsLag(inst, lf, u, order[i], l)
  {
    forall f: seq<int> | Finish(inst, f)
      ensures Pointwise(f, lf)
    {
      assert Pointwise(f, lf0);
    }
    forall j | i < j < |order|
      ensures KeepsLagsInto(inst, lf, order[j])
    {
      forall u: nat, l: int | inst.graph.HasEdge(u, order[j], l)
        ensures KeepsLag(inst, lf, u, order[j], l)
      {
        assert KeepsLag(inst, lf0, u, order[j], l);
      }
    }
  }

  lemma ScheduleFinishes(inst: Instance, s: seq<int>)
    requires inst.Valid() && inst.Feasible(s)
    ensures Finish(inst, FinishesOf(inst, s)) && NonNegative(FinishesOf(inst, s))
  {
    assert StartsOf(inst, FinishesOf(inst, s)) == s;
  }

  /** If no cast changes a value, the reverse pass never throws on a solvable instance, its finishes bound every
      schedule, and the starts that belong to them keep all lags; they form a schedule exactly if the instance has
      one. */
  lemma ReverseIsExact(inst: Instance, r: Reverse)
    requires inst.Valid() && !r.Overflow?
    requires r.Finishes? ==> GreatestFinish(inst, r.lf)
    requires r.NegativeFinish? ==> !exists f: seq<int> :: Finish(inst, f) && NonNegative(f)
    ensures r.NegativeFinish? ==> !inst.Solvable()
    ensures r.Finishes? ==> forall s: seq<int> :: inst.Feasible(s) ==> Pointwise(FinishesOf(inst, s), r.lf)
    ensures r.Finishes? ==> inst.KeepsLags(StartsOf(inst, r.lf))
    ensures inst.Solvable() <==> r.Finishes? && inst.Released(StartsOf(inst, r.lf))
  {
    forall s: seq<int> | inst.Feasible(s)
      ensures r.Finishes? && Pointwise(FinishesOf(inst, s), r.lf)
    {
      ScheduleFinishes(inst, s);
    }
    if r.Finishes? && inst.Released(StartsOf(inst, r.lf)) {
      assert inst.Feasible(StartsOf(inst, r.lf));
    }
  }

  /** The pass stays within the range of `int` exactly if the sums with the greatest finishes do. */
  lemma ReverseFitsExactlyIf(inst: Instance, lf: seq<int>)
    requires inst.Valid() && GreatestFinish(inst, lf)
    ensures ReverseFits(inst) <==> SumsLeftFit(inst, lf)
  {
    if f: seq<int> :| GreatestFinish(inst, f) && SumsLeftFit(inst, f) {
      GreatestFinishIsUnique(inst, f, lf);
    }
  }

  /** On a solvable instance without negative lags, deadlines up to half of the largest `int` are small enough. */
  lemma SmallDeadlinesFit(inst: Instance)
    requires inst.Valid() && inst.Solvable() && inst.graph.NonNegativeLags()
    requires forall v :: 0 <= v < |inst.jobs| ==> 2 * inst.jobs[v].deadline <= INT_MAX
    ensures ReverseFits(inst)
  {
    var lf := GreatestFinishExists(inst);
    var s: seq<int> :| inst.Feasible(s);
    ScheduleFinishes(inst, s);
    assert Pointwise(FinishesOf(inst, s), lf);
    forall v: nat, t: nat, lag: int | v < |lf| && inst.graph.HasEdge(t, v, lag) && t < |lf|
      ensures LeaveFits(lf[v], inst.jobs[v].duration, inst.jobs[t].duration, lag)
    {
      assert inst.KeepsLagsOf(StartsOf(inst, lf), t);
      assert inst.jobs[t].release <= s[t] && inst.jobs[v].release <= s[v];
    }
    assert SumsLeftFit(inst, lf);
  }

  /** The greatest finishes are computed exactly if they solve the equations with the casts. */
  lemma ReverseIsGreatestExactlyIf(inst: Instance, r: Reverse, lf: seq<int>)
    requires inst.Valid() && GreatestFinish(inst, lf)
    requires r.Finishes? ==> FinishRecurrence(inst, r.lf)
    requires !r.Finishes? ==> !FinishesSolvable(inst)
    ensures r.Finishes? && r.lf == lf <==> FinishRecurrence(inst, lf)
  {
    if FinishRecurrence(inst, lf) && r.Finishes? {
      FinishRecurrenceIsUnique(inst, r.lf, lf);
    }
  }

  /** Deadlines of 3000000000: the only edge throws, although both jobs can be scheduled. */
  method WrappedDeadlineThrows() returns (inst: Instance, r: Reverse)
    ensures inst == Instance([Job(0, 3000000000, 1), Job(0, 3000000000, 1)],
                             LagGraph([[Edge(1, 0)], []], [[], [Edge(0, 0)]]))
    ensures inst.Valid() && inst.Solvable() && r == NegativeFinish
  {
    inst := Instance([Job(0, 3000000000, 1), Job(0, 3000000000, 1)],
                     LagGraph([[Edge(1, 0)], []], [[], [Edge(0, 0)]]));
    WrappedDeadline(inst);
    r := GetReverse(inst);
  }

  lemma WrappedDeadline(inst: Instance)
    requires inst == Instance([Job(0, 3000000000, 1), Job(0, 3000000000, 1)],
                              LagGraph([[Edge(1, 0)], []], [[], [Edge(0, 0)]]))
    ensures inst.Valid() && inst.Solvable() && !FinishesSolvable(inst) && !SomeEdgeOverflows(inst)
  {
    OneEdgeOnly(inst.graph);
    assert inst.Feasible([0, 0]);
    forall f: seq<int> | |f| == 2 && f[0] >= 0 && AllGranted(inst, f, 1)
      ensures f[1] != 3000000000
    {
      assert inst.graph.HasEdge(0, 1, 0) && Granted(inst, f, 0, 1, 0);
    }
    forall f: seq<int>
      ensures !FinishRecurrence(inst, f)
    {
      assert forall v: nat, lag: int :: !FinishesBy(inst, f, 1, v, lag);
    }
    forall f: seq<int>, t: nat, v: nat, lag: int
      ensures !EdgeOverflows(inst, f, t, v, lag)
    {
      assert inst.graph.IsPath(1, Empty, 1);
      assert forall x: nat, l: int :: !FinishesBy(inst, f, 1, x, l);
      assert EdgeOverflows(inst, f, t, v, lag) ==> SolvedAt(inst, f, 1);
    }
  }
}
