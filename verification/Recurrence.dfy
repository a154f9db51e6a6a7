/** The passes over the lag graph as systems of equations, with the casts of the program: what a pass computes, whether
    or not a cast changes a value. */
module Recurrences {
  import opened Machine
  import opened LagGraphs
  import opened Instances

  lemma TargetIsLater(inst: Instance, order: seq<nat>, i: nat, t: nat, lag: int)
    requires inst.Valid() && inst.graph.TopologicalOrder(order)
    requires i < |order| && inst.graph.HasEdge(order[i], t, lag)
    ensures t < |order| && i < Position(inst.graph, order, t)
    ensures forall j :: 0 <= j <= i ==> order[j] != t
  {
    var j := Position(inst.graph, order, t);
    assert inst.graph.HasEdge(order[i], order[j], lag);
  }

  lemma SourceIsEarlier(inst: Instance, order: seq<nat>, i: nat, t: nat, lag: int)
    requires inst.Valid() && inst.graph.TopologicalOrder(order)
    requires i < |order| && inst.graph.HasEdge(t, order[i], lag)
    ensures t < |order|
    ensures forall j :: i <= j < |order| ==> order[j] != t
  {
    var j := Position(inst.graph, order, t);
    assert inst.graph.HasEdge(order[j], order[i], lag);
  }

  // ---------- forward ----------

  /** The arithmetic that an edge causes stays within the range of `int`. A start above it is cast to a negative
      number. */
  predicate DemandDefined(start: nat, lag: int)
    requires IsUnsigned(start)
  {
    Signed(start) != INT_MIN && (lag < -1 * Signed(start) || IsSigned(Signed(start) + lag))
  }

  /** The start that an edge demands of its target, with the casts of the program. What is demanded of a start that is
      cast to a negative number is never too much. */
  function Demand(start: nat, lag: int): (r: nat)
    requires IsUnsigned(start) && IsSigned(lag) && DemandDefined(start, lag)
    ensures r <= INT_MAX && (r == 0 || r <= start + lag)
    ensures start <= INT_MAX ==> r == if start + lag < 0 then 0 else start + lag
  {
    if lag < Int(-1 * Signed(start)) then 0 else Unsigned(Int(Signed(start) + lag))
  }

  /** What the casts and the arithmetic amount to: starts from 2^31 on count as negative, and 2^31 itself has no
      negative counterpart. */
  lemma DemandIsExact(start: nat, lag: int)
    requires IsUnsigned(start) && IsSigned(lag)
    ensures DemandDefined(start, lag) <==>
      if start < 0x8000_0000 then start + lag < 0x8000_0000 else start > 0x8000_0000
    ensures DemandDefined(start, lag) ==>
      Demand(start, lag) == Max0(if start < 0x8000_0000 then start + lag else start - 0x1_0000_0000 + lag)
  {
  }

  ghost function Max0(x: int): (r: nat) {
    if x < 0 then 0 else x
  }

  /** The target of an edge starts at least when the edge demands it. */
  ghost predicate Demanded(f: seq<int>, u: nat, v: nat, lag: int) {
    && u < |f| && v < |f| && IsUnsigned(f[u]) && IsSigned(lag)
    && DemandDefined(f[u], lag) && Demand(f[u], lag) <= f[v]
  }

  ghost predicate AllDemanded(inst: Instance, f: seq<int>, u: nat) {
    forall v: nat, lag: int :: inst.graph.HasEdge(u, v, lag) ==> Demanded(f, u, v, lag)
  }

  /** The job starts exactly when the edge demands it. */
  ghost predicate StartsBy(inst: Instance, f: seq<int>, u: nat, v: nat, lag: int) {
    inst.graph.HasEdge(u, v, lag) && Demanded(f, u, v, lag) && Demand(f[u], lag) == f[v]
  }

  /** The job starts at its release, or exactly when one of the edges demands it that come from before place `i`. */
  ghost predicate StartFounded(inst: Instance, order: seq<nat>, i: nat, f: seq<int>, v: nat)
    requires |f| == |inst.jobs| && v < |f|
  {
    && IsUnsigned(f[v]) && inst.jobs[v].release <= f[v]
    && (f[v] == inst.jobs[v].release ||
        exists j: nat, lag: int :: j < i && j < |order| && StartsBy(inst, f, order[j], v, lag))
  }

  ghost predicate StartsFounded(inst: Instance, order: seq<nat>, i: nat, f: seq<int>) {
    |f| == |inst.jobs| && forall v: nat :: v < |f| ==> StartFounded(inst, order, i, f, v)
  }

  /** What the forward pass has reached when the vertices before place `i` of the order are done. */
  ghost predicate StartsUpTo(inst: Instance, order: seq<nat>, i: nat, f: seq<int>) {
    && |f| == |inst.jobs| && i <= |order|
    && StartsFounded(inst, order, i, f)
    && forall j :: 0 <= j < i ==> AllDemanded(inst, f, order[j])
  }

  /** Every job starts at the latest of its release and of what its edges demand. */
  ghost predicate StartRecurrence(inst: Instance, f: seq<int>) {
    && |f| == |inst.jobs|
    && (forall v: nat :: v < |f| ==> IsUnsigned(f[v]) && inst.jobs[v].release <= f[v])
    && (forall u: nat :: AllDemanded(inst, f, u))
    && forall v: nat :: v < |f| ==>
         f[v] == inst.jobs[v].release || exists u: nat, lag: int :: StartsBy(inst, f, u, v, lag)
  }

  ghost predicate StartsSolvable(inst: Instance) {
    exists f: seq<int> :: StartRecurrence(inst, f)
  }

  lemma StartsAreDone(inst: Instance, order: seq<nat>, f: seq<int>)
    requires inst.Valid() && inst.graph.TopologicalOrder(order)
    ensures StartsUpTo(inst, order, |order|, f) <==> StartRecurrence(inst, f)
  {
    if StartsUpTo(inst, order, |order|, f) {
      forall u: nat
        ensures AllDemanded(inst, f, u)
      {
        if u < |f| {
          var j := Position(inst.graph, order, u);
          assert AllDemanded(inst, f, order[j]);
        }
      }
      forall v: nat | v < |f|
        ensures IsUnsigned(f[v]) && inst.jobs[v].release <= f[v]
        ensures f[v] == inst.jobs[v].release || exists u: nat, lag: int :: StartsBy(inst, f, u, v, lag)
      {
        assert StartFounded(inst, order, |order|, f, v);
      }
    }
    if StartRecurrence(inst, f) {
      forall v: nat | v < |f|
        ensures StartFounded(inst, order, |order|, f, v)
      {
        if f[v] != inst.jobs[v].release {
          var u: nat, lag: int :| StartsBy(inst, f, u, v, lag);
          var j := Position(inst.graph, order, u);
          assert StartsBy(inst, f, order[j], v, lag);
        }
      }
    }
  }

  /** Up to place `i`, the starts are those of any solution. */
  lemma {:induction false} StartIsSolution(inst: Instance, order: seq<nat>, i: nat, f: seq<int>, g: seq<int>, j: nat)
    requires inst.Valid() && inst.graph.TopologicalOrder(order)
    requires StartRecurrence(inst, g) && |f| == |inst.jobs| && j <= i && j < |order|
    requires StartsFounded(inst, order, |order|, f)
    requires forall m :: 0 <= m < i && m < |order| ==> AllDemanded(inst, f, order[m])
    ensures f[order[j]] == g[order[j]]
    decreases j
  {
    var v := order[j];
    assert StartFounded(inst, order, |order|, f, v);
    if f[v] != inst.jobs[v].release {
      var m: nat, lag: int :| m < |order| && StartsBy(inst, f, order[m], v, lag);
      TargetIsLater(inst, order, m, v, lag);
      StartIsSolution(inst, order, i, f, g, m);
      assert AllDemanded(inst, g, order[m]);
      assert Demanded(g, order[m], v, lag);
    }
    if g[v] != inst.jobs[v].release {
      var u: nat, lag: int :| StartsBy(inst, g, u, v, lag);
      var m := Position(inst.graph, order, u);
      TargetIsLater(inst, order, m, v, lag);
      StartIsSolution(inst, order, i, f, g, m);
      assert AllDemanded(inst, f, order[m]);
      assert Demanded(f, order[m], v, lag);
    }
  }

  /** What the forward pass has reached when also `k` edges of the vertex at place `i` are done. */
  ghost predicate StartsWithin(inst: Instance, order: seq<nat>, i: nat, k: nat, f: seq<int>)
    requires |inst.graph.adj| == |inst.jobs|
  {
    && |f| == |inst.jobs| && i < |order| && order[i] < |f| && k <= |inst.graph.adj[order[i]]|
    && StartsFounded(inst, order, i + 1, f)
    && (forall j :: 0 <= j < i ==> AllDemanded(inst, f, order[j]))
    && forall j :: 0 <= j < k ==>
         Demanded(f, order[i], inst.graph.adj[order[i]][j].t, inst.graph.adj[order[i]][j].lag)
  }

  lemma FoundedLater(inst: Instance, order: seq<nat>, i: nat, k: nat, f: seq<int>)
    requires |f| == |inst.jobs| && i <= k && StartsFounded(inst, order, i, f)
    ensures StartsFounded(inst, order, k, f)
  {
    forall v: nat | v < |f|
      ensures StartFounded(inst, order, k, f, v)
    {
      assert StartFounded(inst, order, i, f, v);
    }
  }

  lemma FirstEdge(inst: Instance, order: seq<nat>, i: nat, f: seq<int>)
    requires inst.Valid() && inst.graph.TopologicalOrder(order) && i < |order| && StartsUpTo(inst, order, i, f)
    ensures StartsWithin(inst, order, i, 0, f)
  {
    FoundedLater(inst, order, i, i + 1, f);
  }

  lemma LastEdge(inst: Instance, order: seq<nat>, i: nat, f: seq<int>)
    requires inst.Valid() && inst.graph.TopologicalOrder(order) && i < |order|
    requires StartsWithin(inst, order, i, |inst.graph.adj[order[i]]|, f)
    ensures StartsUpTo(inst, order, i + 1, f)
  {
    var edges := inst.graph.adj[order[i]];
    forall v: nat, lag: int | inst.graph.HasEdge(order[i], v, lag)
      ensures Demanded(f, order[i], v, lag)
    {
      var j :| 0 <= j < |edges| && edges[j] == Edge(v, lag);
    }
  }

  /** The start of the target rises to what the edge demands. */
  lemma NextEdge(inst: Instance, order: seq<nat>, i: nat, k: nat, f: seq<int>, g: seq<int>)
    requires inst.Valid() && inst.graph.TopologicalOrder(order) && StartsWithin(inst, order, i, k, f)
    requires k < |inst.graph.adj[order[i]]| && IsUnsigned(f[order[i]])
    requires var e := inst.graph.adj[order[i]][k];
      && e.t < |f| && IsSigned(e.lag) && DemandDefined(f[order[i]], e.lag)
      && g == f[e.t := if Demand(f[order[i]], e.lag) > f[e.t] then Demand(f[order[i]], e.lag) else f[e.t]]
    ensures StartsWithin(inst, order, i, k + 1, g)
  {
    var e := inst.graph.adj[order[i]][k];
    assert inst.graph.HasEdge(order[i], e.t, e.lag);
    TargetIsLater(inst, order, i, e.t, e.lag);
    var later := i + 1;
    forall v: nat | v < |g|
      ensures StartFounded(inst, order, later, g, v)
    {
      assert StartFounded(inst, order, later, f, v);
      if v == e.t && g[v] != f[v] {
        assert StartsBy(inst, g, order[i], v, e.lag);
      } else if f[v] != inst.jobs[v].release {
        var j: nat, lag: int :| j < i + 1 && j < |order| && StartsBy(inst, f, order[j], v, lag);
        assert StartsBy(inst, g, order[j], v, lag);
      }
    }
    forall j | 0 <= j < i
      ensures AllDemanded(inst, g, order[j])
    {
      assert AllDemanded(inst, f, order[j]);
      forall v: nat, lag: int | inst.graph.HasEdge(order[j], v, lag)
        ensures Demanded(g, order[j], v, lag)
      {
        assert Demanded(f, order[j], v, lag);
      }
    }
  }

  /** Where the arithmetic of the pass overflows, there is no solution. */
  lemma NoStarts(inst: Instance, order: seq<nat>, i: nat, k: nat, f: seq<int>)
    requires inst.Valid() && inst.graph.TopologicalOrder(order) && StartsWithin(inst, order, i, k, f)
    requires k < |inst.graph.adj[order[i]]| && IsUnsigned(f[order[i]])
    requires !DemandDefined(f[order[i]], inst.graph.adj[order[i]][k].lag)
    ensures !StartsSolvable(inst)
  {
    var e := inst.graph.adj[order[i]][k];
    assert inst.graph.HasEdge(order[i], e.t, e.lag);
    FoundedLater(inst, order, i + 1, |order|, f);
    forall g: seq<int> | StartRecurrence(inst, g)
      ensures !AllDemanded(inst, g, order[i])
    {
      StartIsSolution(inst, order, i, f, g, i);
      assert !Demanded(g, order[i], e.t, e.lag);
    }
  }

  lemma StartRecurrenceIsUnique(inst: Instance, f: seq<int>, g: seq<int>)
    requires inst.Valid() && StartRecurrence(inst, f) && StartRecurrence(inst, g)
    ensures f == g
  {
    AcyclicExactlyIfOrdered(inst.graph);
    var order :| inst.graph.TopologicalOrder(order);
    StartsAreDone(inst, order, f);
    forall v: nat | v < |f|
      ensures f[v] == g[v]
    {
      StartIsSolution(inst, order, |order|, f, g, Position(inst.graph, order, v));
    }
  }

  // ---------- reverse ----------

  /** The three results of `int` arithmetic that an edge causes stay within the range. */
  predicate LeaveDefined(finish: nat, duration: nat, durationT: nat, lag: int)
    requires IsUnsigned(finish) && IsUnsigned(duration) && IsUnsigned(durationT)
  {
    && IsSigned(Signed(finish) - Signed(duration))
    && IsSigned(Signed(finish) - Signed(duration) + Signed(durationT))
    && IsSigned(Signed(finish) - Signed(duration) + Signed(durationT) - lag)
  }

  /** The finish that an edge leaves to its source, with the casts of the program. */
  function Leave(finish: nat, duration: nat, durationT: nat, lag: int): (r: int)
    requires IsUnsigned(finish) && IsUnsigned(duration) && IsUnsigned(durationT)
    requires LeaveDefined(finish, duration, durationT, lag)
    ensures finish <= INT_MAX && duration <= INT_MAX && durationT <= INT_MAX ==>
      r == finish - duration + durationT - lag
  {
    Int(Int(Int(Signed(finish) - Signed(duration)) + Signed(durationT)) - lag)
  }

  /** The result is right modulo 2^32; for values that are not changed by the casts, two sums have to fit. */
  lemma LeaveIsExact(finish: nat, duration: nat, durationT: nat, lag: int)
    requires IsUnsigned(finish) && IsUnsigned(duration) && IsUnsigned(durationT)
    ensures LeaveDefined(finish, duration, durationT, lag) ==>
      var r := Leave(finish, duration, durationT, lag);
      -0x8000_0000 <= r < 0x8000_0000 && (r - (finish - duration + durationT - lag)) % 0x1_0000_0000 == 0
    ensures finish < 0x8000_0000 && duration < 0x8000_0000 && durationT < 0x8000_0000 ==>
      (LeaveDefined(finish, duration, durationT, lag) <==>
         finish - duration + durationT < 0x8000_0000 &&
         -0x8000_0000 <= finish - duration + durationT - lag < 0x8000_0000)
  {
  }

  /** The source of an edge finishes at the latest when the edge lets it. */
  ghost predicate Granted(inst: Instance, f: seq<int>, t: nat, v: nat, lag: int) {
    && t < |f| == |inst.jobs| && v < |f| && IsUnsigned(f[v]) && inst.jobs[v].Typed() && inst.jobs[t].Typed()
    && LeaveDefined(f[v], inst.jobs[v].duration, inst.jobs[t].duration, lag)
    && f[t] <= Leave(f[v], inst.jobs[v].duration, inst.jobs[t].duration, lag)
  }

  ghost predicate AllGranted(inst: Instance, f: seq<int>, v: nat) {
    forall t: nat, lag: int :: inst.graph.HasEdge(t, v, lag) ==> Granted(inst, f, t, v, lag)
  }

  /** The job finishes exactly when the edge lets it. */
  ghost predicate FinishesBy(inst: Instance, f: seq<int>, t: nat, v: nat, lag: int) {
    && inst.graph.HasEdge(t, v, lag) && Granted(inst, f, t, v, lag)
    && Leave(f[v], inst.jobs[v].duration, inst.jobs[t].duration, lag) == f[t]
  }

  /** The job finishes at its deadline, or exactly when one of the edges lets it that lead to place `i` or behind. */
  ghost predicate FinishFounded(inst: Instance, order: seq<nat>, i: nat, f: seq<int>, t: nat)
    requires |f| == |inst.jobs| && t < |f|
  {
    && 0 <= f[t] <= inst.jobs[t].deadline
    && (f[t] == inst.jobs[t].deadline ||
        exists j: nat, lag: int :: i <= j < |order| && FinishesBy(inst, f, t, order[j], lag))
  }

  ghost predicate FinishesFounded(inst: Instance, order: seq<nat>, i: nat, f: seq<int>) {
    |f| == |inst.jobs| && forall t: nat :: t < |f| ==> FinishFounded(inst, order, i, f, t)
  }

  /** What the reverse pass has reached when the vertices from place `i` of the order on are done. */
  ghost predicate FinishesFrom(inst: Instance, order: seq<nat>, i: nat, f: seq<int>) {
    && |f| == |inst.jobs| && i <= |order|
    && FinishesFounded(inst, order, i, f)
    && forall j :: i <= j < |order| ==> AllGranted(inst, f, order[j])
  }

  /** Every job finishes at the earliest of its deadline and of what its edges leave, and that is not negative. */
  ghost predicate FinishRecurrence(inst: Instance, f: seq<int>) {
    && |f| == |inst.jobs|
    && (forall t: nat :: t < |f| ==> 0 <= f[t] <= inst.jobs[t].deadline)
    && (forall v: nat :: AllGranted(inst, f, v))
    && forall t: nat :: t < |f| ==>
         f[t] == inst.jobs[t].deadline || exists v: nat, lag: int :: FinishesBy(inst, f, t, v, lag)
  }

  /** The job finishes at the earliest of its deadline and of what its edges leave. */
  ghost predicate SolvedAt(inst: Instance, f: seq<int>, w: nat) {
    && w < |f| == |inst.jobs| && 0 <= f[w] <= inst.jobs[w].deadline
    && (forall x: nat, lag: int :: inst.graph.HasEdge(w, x, lag) ==> Granted(inst, f, w, x, lag))
    && (f[w] == inst.jobs[w].deadline || exists x: nat, lag: int :: FinishesBy(inst, f, w, x, lag))
  }

  /** So do the job and all that depend on it: this determines its finish. */
  ghost predicate SolvedBehind(inst: Instance, f: seq<int>, v: nat) {
    forall w: nat :: inst.graph.Reaches(v, w) ==> SolvedAt(inst, f, w)
  }

  /** The finish of `v` is settled, and the edge leaves less than nothing to its source. */
  ghost predicate EdgeThrows(inst: Instance, f: seq<int>, t: nat, v: nat, lag: int) {
    && inst.graph.HasEdge(t, v, lag) && SolvedBehind(inst, f, v)
    && t < |f| == |inst.jobs| && v < |f| && IsUnsigned(f[v]) && inst.jobs[v].Typed() && inst.jobs[t].Typed()
    && LeaveDefined(f[v], inst.jobs[v].duration, inst.jobs[t].duration, lag)
    && Leave(f[v], inst.jobs[v].duration, inst.jobs[t].duration, lag) < 0
  }

  /** The finish of `v` is settled, and the arithmetic of the edge overflows. */
  ghost predicate EdgeOverflows(inst: Instance, f: seq<int>, t: nat, v: nat, lag: int) {
    && inst.graph.HasEdge(t, v, lag) && SolvedBehind(inst, f, v)
    && t < |f| == |inst.jobs| && v < |f| && IsUnsigned(f[v]) && inst.jobs[v].Typed() && inst.jobs[t].Typed()
    && !LeaveDefined(f[v], inst.jobs[v].duration, inst.jobs[t].duration, lag)
  }

  ghost predicate SomeEdgeThrows(inst: Instance) {
    exists f: seq<int>, t: nat, v: nat, lag: int :: EdgeThrows(inst, f, t, v, lag)
  }

  ghost predicate SomeEdgeOverflows(inst: Instance) {
    exists f: seq<int>, t: nat, v: nat, lag: int :: EdgeOverflows(inst, f, t, v, lag)
  }

  ghost predicate FinishesSolvable(inst: Instance) {
    exists f: seq<int> :: FinishRecurrence(inst, f)
  }

  lemma FinishesAreDone(inst: Instance, order: seq<nat>, f: seq<int>)
    requires inst.Valid() && inst.graph.TopologicalOrder(order)
    ensures FinishesFrom(inst, order, 0, f) <==> FinishRecurrence(inst, f)
  {
    if FinishesFrom(inst, order, 0, f) {
      forall v: nat
        ensures AllGranted(inst, f, v)
      {
        if v < |f| {
          var j := Position(inst.graph, order, v);
          assert AllGranted(inst, f, order[j]);
        }
      }
      forall t: nat | t < |f|
        ensures 0 <= f[t] <= inst.jobs[t].deadline
        ensures f[t] == inst.jobs[t].deadline || exists v: nat, lag: int :: FinishesBy(inst, f, t, v, lag)
      {
        assert FinishFounded(inst, order, 0, f, t);
      }
    }
    if FinishRecurrence(inst, f) {
      forall t: nat | t < |f|
        ensures FinishFounded(inst, order, 0, f, t)
      {
        if f[t] != inst.jobs[t].deadline {
          var v: nat, lag: int :| FinishesBy(inst, f, t, v, lag);
          var j := Position(inst.graph, order, v);
          assert FinishesBy(inst, f, t, order[j], lag);
        }
      }
    }
  }

  /** From place `i - 1` on, the finishes are those of any solution. */
  lemma {:induction false} FinishIsSolution(inst: Instance, order: seq<nat>, i: nat, f: seq<int>, g: seq<int>, j: nat)
    requires inst.Valid() && inst.graph.TopologicalOrder(order)
    requires FinishRecurrence(inst, g) && |f| == |inst.jobs| && i <= j + 1 && j < |order|
    requires FinishesFounded(inst, order, 0, f)
    requires forall m :: i <= m < |order| ==> AllGranted(inst, f, order[m])
    ensures f[order[j]] == g[order[j]]
    decreases |order| - j
  {
    var t := order[j];
    assert FinishFounded(inst, order, 0, f, t);
    if f[t] != inst.jobs[t].deadline {
      var m: nat, lag: int :| m < |order| && FinishesBy(inst, f, t, order[m], lag);
      assert j < m;
      FinishIsSolution(inst, order, i, f, g, m);
      assert AllGranted(inst, g, order[m]);
      assert Granted(inst, g, t, order[m], lag);
    }
    if g[t] != inst.jobs[t].deadline {
      var v: nat, lag: int :| FinishesBy(inst, g, t, v, lag);
      var m := Position(inst.graph, order, v);
      assert inst.graph.HasEdge(order[j], order[m], lag) && j < m;
      FinishIsSolution(inst, order, i, f, g, m);
      assert AllGranted(inst, f, order[m]);
      assert Granted(inst, f, t, order[m], lag);
    }
  }

  /** What the reverse pass has reached when also `k` edges into the vertex at place `i` are done. */
  ghost predicate FinishesWithin(inst: Instance, order: seq<nat>, i: nat, k: nat, f: seq<int>)
    requires |inst.graph.radj| == |inst.jobs|
  {
    && |f| == |inst.jobs| && i < |order| && order[i] < |f| && k <= |inst.graph.radj[order[i]]|
    && FinishesFounded(inst, order, i, f)
    && (forall j :: i < j < |order| ==> AllGranted(inst, f, order[j]))
    && forall j :: 0 <= j < k ==>
         Granted(inst, f, inst.graph.radj[order[i]][j].t, order[i], inst.graph.radj[order[i]][j].lag)
  }

  lemma FoundedEarlier(inst: Instance, order: seq<nat>, i: nat, k: nat, f: seq<int>)
    requires |f| == |inst.jobs| && k <= i && FinishesFounded(inst, order, i, f)
    ensures FinishesFounded(inst, order, k, f)
  {
    forall t: nat | t < |f|
      ensures FinishFounded(inst, order, k, f, t)
    {
      assert FinishFounded(inst, order, i, f, t);
    }
  }

  /** When the pass is at a vertex, everything behind it is settled, the vertex included. */
  lemma BehindIsSolved(inst: Instance, order: seq<nat>, i: nat, k: nat, f: seq<int>)
    requires inst.Valid() && inst.graph.TopologicalOrder(order) && FinishesWithin(inst, order, i, k, f)
    ensures SolvedBehind(inst, f, order[i])
  {
    forall w: nat | inst.graph.Reaches(order[i], w)
      ensures SolvedAt(inst, f, w)
    {
      var p :| inst.graph.IsPath(order[i], p, w);
      PathGoesForward(inst.graph, order, order[i], p, w);
      assert Position(inst.graph, order, order[i]) == i;
      var j := Position(inst.graph, order, w);
      assert FinishFounded(inst, order, i, f, w);
      forall x: nat, lag: int | inst.graph.HasEdge(w, x, lag)
        ensures Granted(inst, f, w, x, lag)
      {
        TargetIsLater(inst, order, j, x, lag);
        assert AllGranted(inst, f, order[Position(inst.graph, order, x)]);
      }
    }
  }

  lemma FirstEdgeBack(inst: Instance, order: seq<nat>, i: nat, f: seq<int>)
    requires inst.Valid() && inst.graph.TopologicalOrder(order) && i < |order|
    requires FinishesFrom(inst, order, i + 1, f)
    ensures FinishesWithin(inst, order, i, 0, f)
  {
    FoundedEarlier(inst, order, i + 1, i, f);
  }

  lemma LastEdgeBack(inst: Instance, order: seq<nat>, i: nat, f: seq<int>)
    requires inst.Valid() && inst.graph.TopologicalOrder(order) && i < |order|
    requires FinishesWithin(inst, order, i, |inst.graph.radj[order[i]]|, f)
    ensures FinishesFrom(inst, order, i, f)
  {
    var edges := inst.graph.radj[order[i]];
    forall t: nat, lag: int | inst.graph.HasEdge(t, order[i], lag)
      ensures Granted(inst, f, t, order[i], lag)
    {
      assert inst.graph.HasReverseEdge(order[i], t, lag);
      var j :| 0 <= j < |edges| && edges[j] == Edge(t, lag);
    }
    assert AllGranted(inst, f, order[i]);
  }

  /** The finish of the source falls to what the edge leaves. */
  lemma NextEdgeBack(inst: Instance, order: seq<nat>, i: nat, k: nat, f: seq<int>, g: seq<int>)
    requires inst.Valid() && inst.graph.TopologicalOrder(order) && FinishesWithin(inst, order, i, k, f)
    requires k < |inst.graph.radj[order[i]]| && IsUnsigned(f[order[i]])
    requires var e := inst.graph.radj[order[i]][k];
      && e.t < |f| && LeaveDefined(f[order[i]], inst.jobs[order[i]].duration, inst.jobs[e.t].duration, e.lag)
      && var left := Leave(f[order[i]], inst.jobs[order[i]].duration, inst.jobs[e.t].duration, e.lag);
         left >= 0 && g == if left < f[e.t] then f[e.t := left] else f
    ensures FinishesWithin(inst, order, i, k + 1, g)
  {
    var e := inst.graph.radj[order[i]][k];
    assert inst.graph.HasReverseEdge(order[i], e.t, e.lag) && inst.graph.HasEdge(e.t, order[i], e.lag);
    SourceIsEarlier(inst, order, i, e.t, e.lag);
    forall t: nat | t < |g|
      ensures FinishFounded(inst, order, i, g, t)
    {
      assert FinishFounded(inst, order, i, f, t);
      if t == e.t && g[t] != f[t] {
        assert FinishesBy(inst, g, t, order[i], e.lag);
      } else if f[t] != inst.jobs[t].deadline {
        var j: nat, lag: int :| i <= j < |order| && FinishesBy(inst, f, t, order[j], lag);
        assert FinishesBy(inst, g, t, order[j], lag);
      }
    }
    forall j | i < j < |order|
      ensures AllGranted(inst, g, order[j])
    {
      assert AllGranted(inst, f, order[j]);
      forall t: nat, lag: int | inst.graph.HasEdge(t, order[j], lag)
        ensures Granted(inst, g, t, order[j], lag)
      {
        assert Granted(inst, f, t, order[j], lag);
      }
    }
  }

  /** Where the arithmetic of the pass overflows, or the program throws, there is no solution. */
  lemma NoFinishes(inst: Instance, order: seq<nat>, i: nat, k: nat, f: seq<int>)
    requires inst.Valid() && inst.graph.TopologicalOrder(order) && FinishesWithin(inst, order, i, k, f)
    requires k < |inst.graph.radj[order[i]]| && IsUnsigned(f[order[i]])
    requires var e := inst.graph.radj[order[i]][k];
      && e.t < |f|
      && (LeaveDefined(f[order[i]], inst.jobs[order[i]].duration, inst.jobs[e.t].duration, e.lag) ==>
            Leave(f[order[i]], inst.jobs[order[i]].duration, inst.jobs[e.t].duration, e.lag) < 0)
    ensures !FinishesSolvable(inst)
  {
    var e := inst.graph.radj[order[i]][k];
    assert inst.graph.HasReverseEdge(order[i], e.t, e.lag) && inst.graph.HasEdge(e.t, order[i], e.lag);
    FoundedEarlier(inst, order, i, 0, f);
    forall g: seq<int> | FinishRecurrence(inst, g)
      ensures !AllGranted(inst, g, order[i])
    {
      FinishIsSolution(inst, order, i + 1, f, g, i);
      assert !Granted(inst, g, e.t, order[i], e.lag);
    }
  }

  lemma FinishRecurrenceIsUnique(inst: Instance, f: seq<int>, g: seq<int>)
    requires inst.Valid() && FinishRecurrence(inst, f) && FinishRecurrence(inst, g)
    ensures f == g
  {
    AcyclicExactlyIfOrdered(inst.graph);
    var order :| inst.graph.TopologicalOrder(order);
    FinishesAreDone(inst, order, f);
    forall v: nat | v < |f|
      ensures f[v] == g[v]
    {
      FinishIsSolution(inst, order, 0, f, g, Position(inst.graph, order, v));
    }
  }
}
