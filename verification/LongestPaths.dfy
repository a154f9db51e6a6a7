/** All-pairs longest paths by relaxation along one shared topological order. */
module LongestPaths {
  import opened Machine
  import opened LagGraphs
  import opened Instances
  import opened TopologicalSorting
  import opened CriticalPaths
  import opened Recurrences

  const NO_PATH: int := -1

  /** Some path from `a` to `b` has that length. */
  ghost predicate HasPath(g: LagGraph, a: nat, length: int, b: nat) {
    exists p :: g.IsPath(a, p, b) && p.Length() == length
  }

  /** An entry is the length of some path, unless it says that there is none. */
  ghost predicate Attained(g: LagGraph, a: nat, length: int, b: nat) {
    length == -1 || (length >= 0 && HasPath(g, a, length, b))
  }

  /** An entry is the length of a longest path, and -1 exactly if there is no path. */
  ghost predicate Exact(g: LagGraph, a: nat, length: int, b: nat) {
    && Attained(g, a, length, b)
    && (length == -1 <==> !g.Reaches(a, b))
    && forall p :: g.IsPath(a, p, b) ==> p.Length() <= length
  }

  ghost predicate ExactRow(g: LagGraph, a: nat, row: seq<int>) {
    |row| == |g.adj| && forall b :: 0 <= b < |row| ==> Exact(g, a, row[b], b)
  }

  ghost predicate ExactTable(g: LagGraph, table: seq<seq<int>>) {
    |table| == |g.adj| && forall a :: 0 <= a < |table| ==> ExactRow(g, a, table[a])
  }

  lemma TableEntries(g: LagGraph, table: seq<seq<int>>)
    requires ExactTable(g, table)
    ensures forall a :: 0 <= a < |table| ==> |table[a]| == |table|
    ensures forall a: nat, b: nat :: a < |table| && b < |table| ==> (table[a][b] == -1 <==> !g.Reaches(a, b))
    ensures forall a: nat, b: nat :: a < |table| && b < |table| && g.Reaches(a, b) ==>
      table[a][b] >= 0 && HasPath(g, a, table[a][b], b)
    ensures forall a: nat, p: Path, b: nat :: a < |table| && b < |table| && g.IsPath(a, p, b) ==>
      p.Length() <= table[a][b]
  {
    assert forall a :: 0 <= a < |table| ==> ExactRow(g, a, table[a]);
    forall a: nat, b: nat | a < |table| && b < |table|
      ensures table[a][b] == -1 <==> !g.Reaches(a, b)
      ensures g.Reaches(a, b) ==> table[a][b] >= 0 && HasPath(g, a, table[a][b], b)
      ensures forall p :: g.IsPath(a, p, b) ==> p.Length() <= table[a][b]
    {
      assert Exact(g, a, table[a][b], b);
    }
  }

  /** The edges leaving `v` cannot lengthen any path of the row. */
  ghost predicate Settled(g: LagGraph, row: seq<int>, v: nat) {
    v < |row| && (row[v] == NO_PATH ||
                  forall t: nat, lag: int :: g.HasEdge(v, t, lag) ==> t < |row| && row[v] + lag <= row[t])
  }

  /** The row of `a` after the order has been relaxed from `a` up to its i-th entry. */
  ghost predicate Relaxed(g: LagGraph, order: seq<nat>, a: nat, i: nat, row: seq<int>)
    requires g.WellFormed() && g.TopologicalOrder(order)
  {
    && a < |g.adj| == |row| && i <= |order|
    && row[a] >= 0
    && (forall b :: 0 <= b < |row| ==> Attained(g, a, row[b], b))
    && forall j :: Position(g, order, a) <= j < i ==> Settled(g, row, order[j])
  }

  /** The length of every path fits an `int`. */
  ghost predicate PathsFit(g: LagGraph) {
    forall a: nat, p: Path, b: nat :: g.IsPath(a, p, b) ==> p.Length() <= INT_MAX
  }

  class APLPComputer {
    const instance: Instance
    var result: seq<seq<int>>
    var topologicalOrder: seq<nat>

    constructor (instance: Instance)
      ensures this.instance == instance
    {
      this.instance := instance;
    }

    /** The table of longest path lengths: -1 where there is no path, and otherwise a length that some path has and no
        path exceeds. */
    method Get() returns (table: seq<seq<int>>)
      requires instance.Valid() && instance.graph.NonNegativeLags() && PathsFit(instance.graph)
      modifies this
      ensures ExactTable(instance.graph, table)
      ensures |table| == |instance.jobs| && forall a :: 0 <= a < |table| ==> |table[a]| == |instance.jobs|
      ensures forall a: nat, b: nat :: a < |table| && b < |table| ==>
        (table[a][b] == -1 <==> !instance.graph.Reaches(a, b))
      ensures forall a: nat, b: nat :: a < |table| && b < |table| && instance.graph.Reaches(a, b) ==>
        table[a][b] >= 0 && HasPath(instance.graph, a, table[a][b], b)
      ensures forall a: nat, p: Path, b: nat :: a < |table| && b < |table| && instance.graph.IsPath(a, p, b) ==>
        p.Length() <= table[a][b]
    {
      var n := |instance.jobs|;
      result := seq(n, _ => seq(n, _ => NO_PATH));
      var sort := new TopologicalSort(instance.graph);
      topologicalOrder := sort.Get();
      var jid := 0;
      while jid < n
        invariant 0 <= jid <= n && |result| == n
        invariant instance.graph.TopologicalOrder(topologicalOrder)
        invariant forall a :: 0 <= a < jid ==> ExactRow(instance.graph, a, result[a])
        invariant forall a :: jid <= a < n ==> result[a] == seq(n, _ => NO_PATH)
      {
        ComputeSSLP(jid);
        jid := jid + 1;
      }
      table := result;
      result := [];
      TableEntries(instance.graph, table);
    }

    /** Fills the row of `startJob`. */
    method ComputeSSLP(startJob: nat)
      requires instance.Valid() && instance.graph.NonNegativeLags() && PathsFit(instance.graph)
      requires instance.graph.TopologicalOrder(topologicalOrder)
      requires startJob < |result| == |instance.jobs|
      requires result[startJob] == seq(|instance.jobs|, _ => NO_PATH)
      modifies this`result
      ensures |result| == |old(result)|
      ensures forall a :: 0 <= a < |result| && a != startJob ==> result[a] == old(result[a])
      ensures ExactRow(instance.graph, startJob, result[startJob])
    {
      var g := instance.graph;
      result := result[startJob := result[startJob][startJob := 0]];
      assert g.IsPath(startJob, Empty, startJob) && Empty.Length() == 0;

      ghost var place := Position(g, topologicalOrder, startJob);
      var i := 0;
      while topologicalOrder[i] != startJob
        invariant 0 <= i <= place
        decreases place - i
      {
        i := i + 1;
      }

      while i < |topologicalOrder|
        invariant place <= i <= |topologicalOrder|
        invariant |result| == |old(result)|
        invariant forall a :: 0 <= a < |result| && a != startJob ==> result[a] == old(result[a])
        invariant Relaxed(g, topologicalOrder, startJob, i, result[startJob])
      {
        var row := RelaxOut(instance, topologicalOrder, startJob, i, result[startJob]);
        result := result[startJob := row];
        i := i + 1;
      }
      RelaxedIsExact(g, topologicalOrder, startJob, result[startJob]);
    }
  }

  /** Relaxes the edges leaving the i-th vertex of the order in the row of `a`. */
  method RelaxOut(inst: Instance, order: seq<nat>, a: nat, i: nat, row0: seq<int>) returns (row: seq<int>)
    requires inst.Valid() && inst.graph.NonNegativeLags() && PathsFit(inst.graph) && inst.graph.TopologicalOrder(order)
    requires i < |order| && Relaxed(inst.graph, order, a, i, row0)
    ensures Relaxed(inst.graph, order, a, i + 1, row)
  {
    row := row0;
    var v := order[i];
    if row[v] == NO_PATH {
      return;
    }
    var edges := inst.graph.adj[v];
    var k := 0;
    while k < |edges|
      invariant 0 <= k <= |edges|
      invariant Relaxed(inst.graph, order, a, i, row) && row[v] == row0[v]
      invariant forall j :: 0 <= j < k ==> Longer(row, v, edges[j])
    {
      assert inst.graph.HasEdge(v, edges[k].t, edges[k].lag);
      row := RelaxEdge(inst, order, a, i, row, edges[k]);
      k := k + 1;
    }
    forall t: nat, lag: int | inst.graph.HasEdge(v, t, lag)
      ensures t < |row| && row[v] + lag <= row[t]
    {
      var j :| 0 <= j < |edges| && edges[j] == Edge(t, lag);
      assert Longer(row, v, edges[j]);
    }
    assert Settled(inst.graph, row, v);
  }

  /** The entry at the target of an edge is no shorter than what comes over the edge. */
  ghost predicate Longer(row: seq<int>, v: nat, e: Edge) {
    v < |row| && e.t < |row| && row[v] + e.lag <= row[e.t]
  }

  method RelaxEdge(inst: Instance, order: seq<nat>, a: nat, i: nat, row0: seq<int>, e: Edge) returns (row: seq<int>)
    requires inst.Valid() && inst.graph.NonNegativeLags() && PathsFit(inst.graph) && inst.graph.TopologicalOrder(order)
    requires i < |order| && Relaxed(inst.graph, order, a, i, row0)
    requires row0[order[i]] != NO_PATH
    requires inst.graph.HasEdge(order[i], e.t, e.lag)
    ensures Relaxed(inst.graph, order, a, i, row)
    ensures row[order[i]] == row0[order[i]] && Longer(row, order[i], e)
    ensures forall f: Edge :: Longer(row0, order[i], f) ==> Longer(row, order[i], f)
  {
    var v := order[i];
    TargetIsLater(inst, order, i, e.t, e.lag);
    ghost var p :| inst.graph.IsPath(a, p, v) && p.Length() == row0[v];
    assert inst.graph.IsPath(a, Snoc(p, v, e.lag), e.t);
    assert Snoc(p, v, e.lag).Length() == row0[v] + e.lag;
    var relaxedDist := Int(row0[v] + e.lag);
    row := row0[e.t := if row0[e.t] > relaxedDist then row0[e.t] else relaxedDist];
    forall j | Position(inst.graph, order, a) <= j < i
      ensures Settled(inst.graph, row, order[j])
    {
      assert Settled(inst.graph, row0, order[j]);
    }
  }

  /** Once everything from `a` on is relaxed, no path from `a` is longer than its entry. */
  lemma {:induction false} PathIsCovered(g: LagGraph, order: seq<nat>, a: nat, row: seq<int>, p: Path, b: nat)
    requires g.WellFormed() && g.TopologicalOrder(order) && g.NonNegativeLags()
    requires Relaxed(g, order, a, |order|, row)
    requires g.IsPath(a, p, b)
    ensures b < |row| && row[b] != NO_PATH && 0 <= p.Length() <= row[b]
    decreases p
  {
    PathEnds(g, a, p, b);
    match p
    case Empty =>
    case Snoc(prefix, u, lag) =>
      PathIsCovered(g, order, a, row, prefix, u);
      PathGoesForward(g, order, a, prefix, u);
      assert Settled(g, row, order[Position(g, order, u)]);
  }

  lemma RelaxedIsExact(g: LagGraph, order: seq<nat>, a: nat, row: seq<int>)
    requires g.WellFormed() && g.TopologicalOrder(order) && g.NonNegativeLags()
    requires Relaxed(g, order, a, |order|, row)
    ensures ExactRow(g, a, row)
  {
    forall b | 0 <= b < |row|
      ensures Exact(g, a, row[b], b)
    {
      forall p | g.IsPath(a, p, b)
        ensures row[b] != NO_PATH && p.Length() <= row[b]
      {
        PathIsCovered(g, order, a, row, p, b);
      }
    }
  }

  /** A path cannot have more edges than there are places between its ends in a topological order. */
  lemma {:induction false} PathIsShort(g: LagGraph, order: seq<nat>, step: nat, a: nat, p: Path, b: nat)
    requires g.WellFormed() && g.TopologicalOrder(order) && g.IsPath(a, p, b)
    requires forall u: nat, v: nat, lag: int :: g.HasEdge(u, v, lag) ==> lag <= step
    ensures a < |g.adj| && b < |g.adj| && Position(g, order, a) <= Position(g, order, b)
    ensures p.Length() <= (Position(g, order, b) - Position(g, order, a)) * step
    decreases p
  {
    PathGoesForward(g, order, a, p, b);
    match p
    case Empty =>
    case Snoc(prefix, u, lag) =>
      PathIsShort(g, order, step, a, prefix, u);
      var i, j, k := Position(g, order, a), Position(g, order, u), Position(g, order, b);
      assert g.HasEdge(order[j], order[k], lag);
      Steps(j + 1 - i, k - i, step);
  }

  /** If n - 1 times the largest lag fits an `int`, every path does. */
  lemma ShortPathsFit(g: LagGraph, step: nat)
    requires g.WellFormed() && g.Acyclic() && g.adj != []
    requires forall u: nat, v: nat, lag: int :: g.HasEdge(u, v, lag) ==> lag <= step
    requires (|g.adj| - 1) * step <= INT_MAX
    ensures PathsFit(g)
  {
    AcyclicExactlyIfOrdered(g);
    var order :| g.TopologicalOrder(order);
    forall a: nat, p: Path, b: nat | g.IsPath(a, p, b)
      ensures p.Length() <= INT_MAX
    {
      PathIsShort(g, order, step, a, p, b);
      Steps(Position(g, order, b) - Position(g, order, a), |g.adj| - 1, step);
    }
  }

  // ---------- agreement with the critical path ----------

  /** A path pushes the start of its end at least to the release of its origin plus its length. */
  lemma {:induction false} StartAfterPath(inst: Instance, s: seq<int>, a: nat, p: Path, b: nat)
    requires inst.Valid() && Start(inst, s) && inst.graph.IsPath(a, p, b)
    ensures a < |s| && b < |s|
    ensures inst.jobs[a].release + p.Length() <= s[b]
    decreases p
  {
    PathEnds(inst.graph, a, p, b);
    match p
    case Empty =>
    case Snoc(prefix, u, lag) =>
      StartAfterPath(inst, s, a, prefix, u);
      assert inst.KeepsLagsOf(s, u);
  }

  lemma NoLesserStart(inst: Instance, es: seq<int>, s: seq<int>, b: nat)
    requires inst.Valid() && LeastStart(inst, es) && b < |es| == |s| && s[b] < es[b]
    ensures !Start(inst, s)
  {
  }

  /** Nothing holds the start of `b` up but its own release or one of its incoming edges. */
  lemma HeldUp(inst: Instance, es: seq<int>, b: nat)
    requires inst.Valid() && LeastStart(inst, es) && b < |es|
    ensures es[b] == inst.jobs[b].release ||
      exists u: nat, lag: int :: inst.graph.HasEdge(u, b, lag) && u < |es| && es[b] == es[u] + lag
  {
    var s := es[b := es[b] - 1];
    NoLesserStart(inst, es, s, b);
    if es[b] != inst.jobs[b].release {
      assert inst.Released(s);
      var u: nat :| u < |s| && !inst.KeepsLagsOf(s, u);
      var t: nat, lag: int :| inst.graph.HasEdge(u, t, lag) && s[u] + lag > s[t];
      assert inst.KeepsLagsOf(es, u);
      NoLoop(inst.graph, u);
      assert t == b && es[b] == es[u] + lag;
    }
  }

  lemma NoLoop(g: LagGraph, u: nat)
    requires g.WellFormed() && g.Acyclic()
    ensures forall lag: int :: !g.HasEdge(u, u, lag)
  {
    var rank :| g.RankedBy(rank);
  }

  /** Tracing back what holds the start of `b` up ends at a release. */
  lemma {:induction false} TraceBack(inst: Instance, rank: seq<nat>, es: seq<int>, b: nat) returns (a: nat, p: Path)
    requires inst.Valid() && LeastStart(inst, es) && b < |es| && inst.graph.RankedBy(rank)
    ensures inst.graph.IsPath(a, p, b) && a < |es|
    ensures es[b] == inst.jobs[a].release + p.Length()
    decreases rank[b]
  {
    HeldUp(inst, es, b);
    if es[b] == inst.jobs[b].release {
      a, p := b, Empty;
    } else {
      var u: nat, lag: int :| inst.graph.HasEdge(u, b, lag) && u < |es| && es[b] == es[u] + lag;
      a, p := TraceBack(inst, rank, es, u);
      p := Snoc(p, u, lag);
    }
  }

  /** The two analyses agree: the earliest start of `b` is the largest release plus longest path into `b`. */
  lemma AnalysesAgree(inst: Instance, es: seq<int>, table: seq<seq<int>>, b: nat)
    requires inst.Valid() && LeastStart(inst, es) && ExactTable(inst.graph, table) && b < |es|
    ensures forall a :: 0 <= a < |es| && table[a][b] != NO_PATH ==> inst.jobs[a].release + table[a][b] <= es[b]
    ensures exists a :: 0 <= a < |es| && table[a][b] != NO_PATH && inst.jobs[a].release + table[a][b] == es[b]
  {
    forall a | 0 <= a < |es| && table[a][b] != NO_PATH
      ensures inst.jobs[a].release + table[a][b] <= es[b]
    {
      assert Exact(inst.graph, a, table[a][b], b);
      var p :| inst.graph.IsPath(a, p, b) && p.Length() == table[a][b];
      StartAfterPath(inst, es, a, p, b);
    }
    var rank :| inst.graph.RankedBy(rank);
    var a, p := TraceBack(inst, rank, es, b);
    assert Exact(inst.graph, a, table[a][b], b);
    assert inst.graph.Reaches(a, b);
  }
}
