/** The generator of pairs of jobs that may overlap in a schedule. */
module OverlappingPairs {
  import opened Seqs
  import opened SortedSets
  import opened LagGraphs
  import opened Instances
  import opened Postorders
  import opened TopologicalSorting

  type Pair = (nat, nat)

  /** The jobs in topological order, their places in it, and for every job the answer of the interval tree: the jobs
      whose closed windows meet that of the job, in some order. */
  datatype RawGenerator = Generator(instance: Instance, hits: seq<seq<nat>>, dfs: seq<nat>, dfsIndex: seq<nat>) {

    function N(): (n: nat) {
      |instance.jobs|
    }

    /** There is a first job, so that the walk can begin. */
    ghost predicate Valid() {
      Built() && N() > 0
    }

    ghost predicate Built() {
      && instance.Valid() && instance.graph.Simple()
      && instance.graph.TopologicalOrder(dfs)
      && |dfsIndex| == N()
      && (forall i :: 0 <= i < N() ==> dfsIndex[dfs[i]] == i)
      && (forall v :: 0 <= v < N() ==> dfsIndex[v] < N() && dfs[dfsIndex[v]] == v)
      && AnswersQueries(instance, hits)
    }
  }

  lemma NoEdges(g: LagGraph)
    requires g == LagGraph([[]], [[]])
    ensures g.WellFormed() && g.Acyclic() && g.Simple() && g.TopologicalOrder([0])
    ensures forall u: nat, v: nat, lag: int :: !g.HasEdge(u, v, lag)
  {
    assert g.RankedBy([0]);
  }

  /** A generator with one job. */
  ghost function OneJob(): (g: RawGenerator)
    ensures g.Valid()
  {
    var graph := LagGraph([[]], [[]]);
    NoEdges(graph);
    Generator(Instance([Job(0, 0, 0)], graph), [[0]], [0], [0])
  }

  type Generator = g: RawGenerator | g.Valid() ghost witness OneJob()

  /** A direct successor of the first job of the order. */
  ghost predicate Seeded(gen: Generator, v: nat)
  {
    gen.instance.graph.Adjacent(gen.dfs[0], v)
  }

  /** What the predecessor set of a job contains when the job is current: its ancestors and itself, except for
      the direct successors of the first job. */
  ghost predicate Known(gen: Generator, a: nat, b: nat)
  {
    (b == a || gen.instance.graph.Precedes(b, a)) && !Seeded(gen, b)
  }

  /** The pairs that are handed out, if the closed windows meet. */
  ghost predicate Yielded(gen: Generator, a: nat, b: nat)
    requires a < gen.N() && b < gen.N()
  {
    && gen.dfsIndex[b] < gen.dfsIndex[a] && !Known(gen, a, b)
    && gen.instance.jobs[b].release != gen.instance.jobs[a].deadline
    && gen.instance.jobs[b].deadline != gen.instance.jobs[a].release
  }

  ghost function Pairs(gen: Generator, a: nat, bs: seq<nat>): (pairs: seq<Pair>)
    requires a < gen.N() && Below(bs, gen.N())
  {
    if bs == [] then []
    else if Yielded(gen, a, bs[0]) then [(a, bs[0])] + Pairs(gen, a, bs[1..])
    else Pairs(gen, a, bs[1..])
  }

  /** The pairs whose first job comes at place `j` of the order or later. */
  ghost function PairsFrom(gen: Generator, j: nat): (pairs: seq<Pair>)
    requires j <= gen.N()
    decreases gen.N() - j
  {
    if j == gen.N() then [] else Pairs(gen, gen.dfs[j], gen.hits[gen.dfs[j]]) + PairsFrom(gen, j + 1)
  }

  // ---------- the predecessor sets ----------

  /** Some job up to place `i` of the order has an edge to `v`. */
  ghost predicate Touched(gen: Generator, v: nat, i: nat)
  {
    exists u: nat :: u < gen.N() && gen.dfsIndex[u] <= i && gen.instance.graph.Adjacent(u, v)
  }

  /** The jobs up to place `i` that push `b` along an edge to `v`. */
  ghost predicate PushedBy(gen: Generator, u: nat, v: nat, i: nat, b: nat)
  {
    u < gen.N() && gen.dfsIndex[u] <= i && gen.instance.graph.Adjacent(u, v) && Known(gen, u, b)
  }

  /** What the set of `v` holds after the jobs up to place `i` have pushed theirs. */
  ghost predicate Pushed(gen: Generator, v: nat, i: nat, b: nat)
  {
    (b == v && Touched(gen, v, i) && !Seeded(gen, v)) || exists u: nat :: PushedBy(gen, u, v, i, b)
  }

  ghost predicate HoldsPushed(gen: Generator, held: seq<nat>, v: nat, i: nat)
  {
    Ascending(held) && forall b: nat :: b in held <==> Pushed(gen, v, i, b)
  }

  ghost predicate HoldsKnown(gen: Generator, held: seq<nat>, v: nat)
  {
    Ascending(held) && forall b: nat :: b in held <==> Known(gen, v, b)
  }

  ghost predicate LaterHoldPushed(gen: Generator, sets: seq<seq<nat>>, i: nat, j: nat)
  {
    |sets| == gen.N() && forall v: nat :: v < gen.N() && gen.dfsIndex[v] > j ==> HoldsPushed(gen, sets[v], v, i)
  }

  /** When the job at place `i` is current: its own set is complete, and the sets of all later jobs hold what has
      been pushed to them so far. Nothing is needed of the earlier sets, which are cleared. */
  ghost predicate Ancestry(gen: Generator, sets: seq<seq<nat>>, i: nat)
  {
    LaterHoldPushed(gen, sets, i, i) && i < gen.N() && HoldsKnown(gen, sets[gen.dfs[i]], gen.dfs[i])
  }

  lemma EdgesGoForward(gen: Generator, u: nat, v: nat)
    requires gen.instance.graph.Adjacent(u, v)
    ensures u < gen.N() && v < gen.N() && gen.dfsIndex[u] < gen.dfsIndex[v]
  {
    var lag: int :| gen.instance.graph.HasEdge(u, v, lag);
    assert gen.instance.graph.HasEdge(gen.dfs[gen.dfsIndex[u]], gen.dfs[gen.dfsIndex[v]], lag);
  }

  lemma AncestorsAreEarlier(gen: Generator, b: nat, a: nat)
    requires gen.instance.graph.Precedes(b, a)
    ensures b < gen.N() && a < gen.N() && gen.dfsIndex[b] < gen.dfsIndex[a]
  {
    var p :| p != Empty && gen.instance.graph.IsPath(b, p, a);
    PathGoesForward(gen.instance.graph, gen.dfs, b, p, a);
    var i, j := Position(gen.instance.graph, gen.dfs, b), Position(gen.instance.graph, gen.dfs, a);
    assert gen.dfsIndex[gen.dfs[i]] == i && gen.dfsIndex[gen.dfs[j]] == j;
  }

  lemma FirstIsNotSeeded(gen: Generator)
    ensures !Seeded(gen, gen.dfs[0]) && forall b: nat :: Known(gen, gen.dfs[0], b) <==> b == gen.dfs[0]
  {
    if Seeded(gen, gen.dfs[0]) {
      EdgesGoForward(gen, gen.dfs[0], gen.dfs[0]);
    }
    forall b: nat
      ensures !gen.instance.graph.Precedes(b, gen.dfs[0])
    {
      if gen.instance.graph.Precedes(b, gen.dfs[0]) {
        AncestorsAreEarlier(gen, b, gen.dfs[0]);
      }
    }
  }

  /** Every set is non-empty: it holds the job itself, or else the first job. */
  lemma SomethingKnown(gen: Generator, u: nat) returns (b: nat)
    requires u < gen.N()
    ensures Known(gen, u, b)
  {
    FirstIsNotSeeded(gen);
    b := if Seeded(gen, u) then gen.dfs[0] else u;
    PrecedesByEdge(gen.instance.graph, gen.dfs[0], u);
  }

  lemma TouchedIsPushed(gen: Generator, v: nat, i: nat)
    ensures Touched(gen, v, i) <==> exists b: nat :: Pushed(gen, v, i, b)
    ensures Seeded(gen, v) ==> Touched(gen, v, i)
  {
    if u: nat :| u < gen.N() && gen.dfsIndex[u] <= i && gen.instance.graph.Adjacent(u, v) {
      var b := SomethingKnown(gen, u);
      assert PushedBy(gen, u, v, i, b);
      assert Pushed(gen, v, i, b);
    }
    if b: nat :| Pushed(gen, v, i, b) {
      if u: nat :| PushedBy(gen, u, v, i, b) {
        assert Touched(gen, v, i);
      }
    }
    if Seeded(gen, v) {
      assert gen.dfsIndex[gen.dfs[0]] == 0;
    }
  }

  /** When all earlier jobs have pushed, the set of the next one is complete but for the job itself. */
  lemma CurrentIsKnown(gen: Generator, i: nat, b: nat)
    requires 0 < i < gen.N()
    ensures Known(gen, gen.dfs[i], b) <==>
      Pushed(gen, gen.dfs[i], i - 1, b) || (b == gen.dfs[i] && !Touched(gen, gen.dfs[i], i - 1))
  {
    var a := gen.dfs[i];
    TouchedIsPushed(gen, a, i - 1);
    PrecedesByEdge(gen.instance.graph, b, a);
    forall u: nat | gen.instance.graph.Adjacent(u, a)
      ensures u < gen.N() && gen.dfsIndex[u] <= i - 1
    {
      EdgesGoForward(gen, u, a);
    }
    if Known(gen, a, b) && b != a {
      var u: nat :| gen.instance.graph.Adjacent(u, a) && (b == u || gen.instance.graph.Precedes(b, u));
      assert PushedBy(gen, u, a, i - 1, b);
    }
    var before: nat := i - 1;
    if u: nat :| PushedBy(gen, u, a, before, b) {
      assert gen.instance.graph.Adjacent(u, a) && (b == u || gen.instance.graph.Precedes(b, u));
    }
  }

  /** What the job at place `i` adds along an edge. */
  lemma PushOne(gen: Generator, i: nat, t: nat, b: nat)
    requires 0 < i < gen.N()
    ensures gen.instance.graph.Adjacent(gen.dfs[i], t) ==>
      (Pushed(gen, t, i, b) <==>
         Pushed(gen, t, i - 1, b) || Known(gen, gen.dfs[i], b) || (b == t && !Touched(gen, t, i - 1)))
    ensures gen.instance.graph.Adjacent(gen.dfs[i], t) ==> Touched(gen, t, i)
    ensures !gen.instance.graph.Adjacent(gen.dfs[i], t) ==> (Pushed(gen, t, i, b) <==> Pushed(gen, t, i - 1, b))
  {
    TouchedIsPushed(gen, t, i - 1);
    assert gen.dfsIndex[gen.dfs[i]] == i;
    forall u: nat
      ensures PushedBy(gen, u, t, i, b) <==>
        PushedBy(gen, u, t, i - 1, b) || (u == gen.dfs[i] && gen.instance.graph.Adjacent(u, t) && Known(gen, u, b))
    {
    }
    if Known(gen, gen.dfs[i], b) && gen.instance.graph.Adjacent(gen.dfs[i], t) {
      assert PushedBy(gen, gen.dfs[i], t, i, b);
    }
  }

  ghost predicate ClosedWindowsMeet(a: Job, b: Job) {
    b.release <= a.deadline && a.release <= b.deadline
  }

  /** The contract of the interval tree: every meeting job, once. */
  ghost predicate AnswersQueries(inst: Instance, hits: seq<seq<nat>>) {
    && |hits| == |inst.jobs|
    && forall a :: 0 <= a < |hits| ==>
         && Distinct(hits[a]) && Below(hits[a], |hits|)
         && forall b: nat :: b < |hits| ==>
              (b in hits[a] <==> ClosedWindowsMeet(inst.jobs[a], inst.jobs[b]))
  }

  /** The constructor of the generator. The searches leave the jobs in the opposite order, the last root at the end. */
  method Generate(inst: Instance, hits: seq<seq<nat>>) returns (gen: RawGenerator)
    requires inst.Valid() && inst.graph.Simple() && AnswersQueries(inst, hits)
    ensures gen.Built() && gen.instance == inst && gen.hits == hits
    ensures var order := Numbering(inst.graph);
      |order| == gen.N() && forall i :: 0 <= i < gen.N() ==> gen.dfs[i] == order[gen.N() - 1 - i]
    ensures gen.N() > 0 ==> inst.graph.radj[gen.dfs[0]] == []
    ensures forall r: nat :: r < gen.N() && inst.graph.radj[r] == [] ==> r <= gen.dfs[0]
  {
    var topo := new TopologicalSort(inst.graph);
    var dfs := topo.Get();
    var dfsIndex: seq<nat> := seq(|inst.jobs|, _ => 0);
    var index := 0;
    while index < |dfs|
      invariant 0 <= index <= |dfs| && |dfsIndex| == |dfs|
      invariant forall i :: 0 <= i < index ==> dfsIndex[dfs[i]] == i
    {
      dfsIndex := dfsIndex[dfs[index] := index];
      index := index + 1;
    }
    forall v | 0 <= v < |dfs|
      ensures dfsIndex[v] < |dfs| && dfs[dfsIndex[v]] == v
    {
      var i := Position(inst.graph, dfs, v);
      assert dfsIndex[dfs[i]] == i;
    }
    gen := Generator(inst, hits, dfs, dfsIndex);
    LastIsLastRoot(inst.graph, SomeRank(inst.graph), |inst.jobs|);
  }

  /** The seeding of the predecessor sets by the iterator's constructor. */
  method Seed(gen: Generator) returns (sets: seq<seq<nat>>)
    ensures Ancestry(gen, sets, 0)
  {
    var first := gen.dfs[0];
    sets := seq(gen.N(), _ => []);
    sets := sets[first := [first]];
    var edges := gen.instance.graph.adj[first];
    FirstIsNotSeeded(gen);
    var k := 0;
    while k < |edges|
      invariant 0 <= k <= |edges| && |sets| == gen.N()
      invariant sets[first] == [first]
      invariant forall v: nat :: v < gen.N() && v != first ==>
        sets[v] == if exists j :: 0 <= j < k && edges[j].t == v then [first] else []
    {
      var t := edges[k].t;
      assert gen.instance.graph.HasEdge(first, t, edges[k].lag) && gen.instance.graph.Adjacent(first, t);
      EdgesGoForward(gen, first, t);
      sets := sets[t := sets[t] + [first]];
      k := k + 1;
    }
    forall v: nat | v < gen.N() && gen.dfsIndex[v] > 0
      ensures HoldsPushed(gen, sets[v], v, 0)
    {
      SeedsArePushed(gen, v);
      SeededByEdge(gen, v);
    }
  }

  lemma SeededByEdge(gen: Generator, v: nat)
    ensures Seeded(gen, v) <==>
      exists j :: 0 <= j < |gen.instance.graph.adj[gen.dfs[0]]| && gen.instance.graph.adj[gen.dfs[0]][j].t == v
  {
    var edges := gen.instance.graph.adj[gen.dfs[0]];
    if Seeded(gen, v) {
      var lag: int :| gen.instance.graph.HasEdge(gen.dfs[0], v, lag);
      var j :| 0 <= j < |edges| && edges[j] == Edge(v, lag);
    }
    if j :| 0 <= j < |edges| && edges[j].t == v {
      assert gen.instance.graph.HasEdge(gen.dfs[0], v, edges[j].lag);
    }
  }

  /** The first job pushes itself to its direct successors, and these do not contain themselves. */
  lemma SeedsArePushed(gen: Generator, v: nat)
    requires v < gen.N() && gen.dfsIndex[v] > 0
    ensures forall b: nat :: Pushed(gen, v, 0, b) <==> Seeded(gen, v) && b == gen.dfs[0]
  {
    var first := gen.dfs[0];
    FirstIsNotSeeded(gen);
    assert gen.dfsIndex[first] == 0;
    if Touched(gen, v, 0) {
      var u: nat :| u < gen.N() && gen.dfsIndex[u] <= 0 && gen.instance.graph.Adjacent(u, v);
      assert u == gen.dfs[gen.dfsIndex[u]] == first;
    }
    forall b: nat
      ensures Pushed(gen, v, 0, b) <==> Seeded(gen, v) && b == first
    {
      if Pushed(gen, v, 0, b) {
        var u: nat :| PushedBy(gen, u, v, 0, b);
        assert u == gen.dfs[gen.dfsIndex[u]] == first;
      }
      if Seeded(gen, v) && b == first {
        assert PushedBy(gen, first, v, 0, b);
      }
    }
  }

  /** Completes the set of the job at place `i` and merges it into the sets of all its direct successors. */
  method PushForward(gen: Generator, i: nat, sets0: seq<seq<nat>>) returns (sets: seq<seq<nat>>)
    requires 0 < i < gen.N() && LaterHoldPushed(gen, sets0, i - 1, i - 1)
    ensures Ancestry(gen, sets, i)
  {
    sets := sets0;
    var jidA := gen.dfs[i];
    assert gen.dfsIndex[jidA] == i && HoldsPushed(gen, sets[jidA], jidA, i - 1);
    if sets[jidA] == [] {
      sets := sets[jidA := [jidA]];
    }
    CurrentIsComplete(gen, i, sets0[jidA], sets[jidA]);
    var edges := gen.instance.graph.adj[jidA];
    var k := 0;
    while k < |edges|
      invariant 0 <= k <= |edges| && |sets| == gen.N()
      invariant HoldsKnown(gen, sets[jidA], jidA)
      invariant forall v: nat :: v < gen.N() && gen.dfsIndex[v] > i ==>
        HoldsPushed(gen, sets[v], v, if ReachedBy(edges, k, v) then i else i - 1)
    {
      var t := edges[k].t;
      assert gen.instance.graph.HasEdge(jidA, t, edges[k].lag) && gen.instance.graph.Adjacent(jidA, t);
      EdgesGoForward(gen, jidA, t);
      var merged := MergeInto(gen, i, t, sets[jidA], sets[t], ReachedBy(edges, k, t));
      sets := sets[t := merged];
      k := k + 1;
    }
    forall v: nat | v < gen.N() && gen.dfsIndex[v] > i
      ensures HoldsPushed(gen, sets[v], v, i)
    {
      AllReached(gen, i, sets[v], v);
    }
  }

  ghost predicate ReachedBy(edges: seq<Edge>, k: nat, v: nat)
    requires k <= |edges|
  {
    exists j :: 0 <= j < k && edges[j].t == v
  }

  lemma AllReached(gen: Generator, i: nat, held: seq<nat>, v: nat)
    requires 0 < i < gen.N()
    requires var edges := gen.instance.graph.adj[gen.dfs[i]];
      HoldsPushed(gen, held, v, if ReachedBy(edges, |edges|, v) then i else i - 1)
    ensures HoldsPushed(gen, held, v, i)
  {
    var edges := gen.instance.graph.adj[gen.dfs[i]];
    if gen.instance.graph.Adjacent(gen.dfs[i], v) {
      var lag: int :| gen.instance.graph.HasEdge(gen.dfs[i], v, lag);
      var j :| 0 <= j < |edges| && edges[j] == Edge(v, lag);
      assert ReachedBy(edges, |edges|, v);
    } else if !ReachedBy(edges, |edges|, v) {
      forall b: nat
        ensures Pushed(gen, v, i, b) <==> Pushed(gen, v, i - 1, b)
      {
        PushOne(gen, i, v, b);
      }
    }
  }

  lemma CurrentIsComplete(gen: Generator, i: nat, before: seq<nat>, after: seq<nat>)
    requires 0 < i < gen.N() && HoldsPushed(gen, before, gen.dfs[i], i - 1)
    requires after == if before == [] then [gen.dfs[i]] else before
    ensures HoldsKnown(gen, after, gen.dfs[i])
  {
    TouchedIsPushed(gen, gen.dfs[i], i - 1);
    assert before != [] ==> before[0] in before;
    forall b: nat
      ensures b in after <==> Known(gen, gen.dfs[i], b)
    {
      CurrentIsKnown(gen, i, b);
    }
  }

  /** One edge: the target's set, which first gets the target itself if it is empty, is merged with the set pushed. */
  method MergeInto(gen: Generator, i: nat, t: nat, current: seq<nat>, target: seq<nat>, ghost again: bool)
    returns (merged: seq<nat>)
    requires 0 < i < gen.N() && t < gen.N() && gen.dfsIndex[t] > i
    requires gen.instance.graph.Adjacent(gen.dfs[i], t)
    requires HoldsKnown(gen, current, gen.dfs[i])
    requires HoldsPushed(gen, target, t, if again then i else i - 1)
    ensures HoldsPushed(gen, merged, t, i)
  {
    var held := target;
    if held == [] {
      held := [t];
    }
    merged := SetUnion(current, held);
    TouchedIsPushed(gen, t, i);
    TouchedIsPushed(gen, t, i - 1);
    assert target != [] ==> target[0] in target;
    forall b: nat
      ensures b in merged <==> Pushed(gen, t, i, b)
    {
      PushOne(gen, i, t, b);
    }
  }

  /** The set of the current job is not needed by the later ones. */
  lemma ClearingIsHarmless(gen: Generator, sets: seq<seq<nat>>, i: nat)
    requires i < gen.N() && Ancestry(gen, sets, i)
    ensures LaterHoldPushed(gen, sets[gen.dfs[i] := []], i, i)
  {
    assert gen.dfsIndex[gen.dfs[i]] == i;
  }

  /** Taking one query result off the list. */
  lemma PairsStep(gen: Generator, a: nat, bs: seq<nat>, k: nat)
    requires a < gen.N() && Below(bs, gen.N()) && k < |bs|
    ensures Pairs(gen, a, bs[k..]) ==
      if Yielded(gen, a, bs[k]) then [(a, bs[k])] + Pairs(gen, a, bs[k + 1..]) else Pairs(gen, a, bs[k + 1..])
  {
    assert bs[k..][1..] == bs[k + 1..];
  }

  /** The pairs from number `b` of the query results `bs` of the job at place `i` on. */
  ghost function RemainingAt(gen: Generator, i: nat, bs: seq<nat>, b: nat): (pairs: seq<Pair>)
    requires i <= gen.N() && Below(bs, gen.N()) && b <= |bs|
  {
    if i == gen.N() then [] else Pairs(gen, gen.dfs[i], bs[b..]) + PairsFrom(gen, i + 1)
  }

  lemma FirstOfRemaining(gen: Generator, i: nat, bs: seq<nat>, b: nat)
    requires i < gen.N() && Below(bs, gen.N()) && b < |bs| && Yielded(gen, gen.dfs[i], bs[b])
    ensures RemainingAt(gen, i, bs, b) == [(gen.dfs[i], bs[b])] + RemainingAt(gen, i, bs, b + 1)
  {
    var first := [(gen.dfs[i], bs[b])];
    PairsStep(gen, gen.dfs[i], bs, b);
    var ofJob, ofLater := Pairs(gen, gen.dfs[i], bs[b + 1..]), PairsFrom(gen, i + 1);
    Reassociate(first, ofJob, ofLater);
  }

  lemma Reassociate<T>(a: seq<T>, b: seq<T>, c: seq<T>)
    ensures (a + b) + c == a + (b + c)
  {
  }

  /** When the query results of one job are used up, the pairs of the later jobs remain. */
  lemma OfLaterJobs(gen: Generator, i: nat, bs: seq<nat>)
    requires i < gen.N() && Below(bs, gen.N())
    ensures RemainingAt(gen, i, bs, |bs|) == PairsFrom(gen, i + 1)
  {
    assert bs[|bs|..] == [];
  }

  lemma OfWholeJob(gen: Generator, i: nat)
    requires i < gen.N()
    ensures RemainingAt(gen, i, gen.hits[gen.dfs[i]], 0) == PairsFrom(gen, i)
  {
    assert gen.hits[gen.dfs[i]][0..] == gen.hits[gen.dfs[i]];
  }

  /** The condition under which a query result is passed over. */
  method Skips(gen: Generator, jidA: nat, held: seq<nat>, b: nat) returns (skip: bool)
    requires jidA < gen.N() && HoldsKnown(gen, held, jidA) && b < gen.N()
    ensures skip <==> !Yielded(gen, jidA, b)
  {
    if gen.dfsIndex[jidA] < gen.dfsIndex[b] {
      return true;
    }
    var isPredecessor := BinarySearch(held, b);
    skip := isPredecessor || b == jidA || gen.instance.jobs[b].release == gen.instance.jobs[jidA].deadline ||
    gen.instance.jobs[b].deadline == gen.instance.jobs[jidA].release;
  }

  /** The loop that passes over query results. */
  method SkipForward(gen: Generator, i: nat, held: seq<nat>, bs: seq<nat>, from: nat) returns (b: nat)
    requires i < gen.N() && HoldsKnown(gen, held, gen.dfs[i]) && Below(bs, gen.N()) && from <= |bs|
    ensures from <= b <= |bs| && (b < |bs| ==> Yielded(gen, gen.dfs[i], bs[b]))
    ensures RemainingAt(gen, i, bs, b) == RemainingAt(gen, i, bs, from)
  {
    var jidA := gen.dfs[i];
    b := from;
    while b != |bs|
      invariant from <= b <= |bs| && Pairs(gen, jidA, bs[b..]) == Pairs(gen, jidA, bs[from..])
      decreases |bs| - b
    {
      var skip := Skips(gen, jidA, held, bs[b]);
      if !skip {
        return;
      }
      PairsStep(gen, jidA, bs, b);
      b := b + 1;
    }
  }

  /** What happens when the job at place `i` becomes current: its query results, its set, and the first result that is
      not passed over. */
  method Enter(gen: Generator, i: nat, sets0: seq<seq<nat>>) returns (bs: seq<nat>, b: nat, sets: seq<seq<nat>>)
    requires 0 < i < gen.N() && LaterHoldPushed(gen, sets0, i - 1, i - 1)
    ensures Ancestry(gen, sets, i) && Below(bs, gen.N()) && b <= |bs|
    ensures b < |bs| ==> Yielded(gen, gen.dfs[i], bs[b])
    ensures RemainingAt(gen, i, bs, b) == PairsFrom(gen, i)
  {
    bs := gen.hits[gen.dfs[i]];
    sets := PushForward(gen, i, sets0);
    b := SkipForward(gen, i, sets[gen.dfs[i]], bs, 0);
    OfWholeJob(gen, i);
  }

  class PairIterator {
    const gen: Generator
    var aIndex: nat
    var bQr: seq<nat>
    var bIterator: nat
    var predecessors: seq<seq<nat>>
    var element: Pair

    ghost predicate Valid()
      reads this`aIndex, this`bQr, this`bIterator
    {
      && aIndex <= gen.N()
      && bIterator <= |bQr| && Below(bQr, gen.N())
      && (aIndex == gen.N() ==> bIterator == |bQr|)
    }

    /** The predecessor sets are what the position in the walk asks for. */
    ghost predicate Informed()
      reads this`aIndex, this`predecessors
    {
      aIndex < gen.N() ==> Ancestry(gen, predecessors, aIndex)
    }

    /** The pairs still to come, the current one included. */
    ghost function Remaining(): (pairs: seq<Pair>)
      requires Valid()
      reads this`aIndex, this`bQr, this`bIterator
    {
      RemainingAt(gen, aIndex, bQr, bIterator)
    }

    /** Not at the end of the query results, the iterator stands on a result that is not passed over. */
    ghost predicate Stopped()
      requires Valid()
      reads this`aIndex, this`bQr, this`bIterator
    {
      bIterator < |bQr| ==> Yielded(gen, gen.dfs[aIndex], bQr[bIterator])
    }

    predicate AtEnd()
      reads this`aIndex
    {
      aIndex == gen.N()
    }

    /** The walk is over, or the job and the query result under the iterators form the current pair. */
    ghost predicate Settled()
      requires Valid()
      reads this`aIndex, this`bQr, this`bIterator
    {
      Stopped() && (AtEnd() || bIterator < |bQr|)
    }

    function Current(): (current: Pair)
      requires Valid() && Settled() && !AtEnd()
      reads this`aIndex, this`bQr, this`bIterator
    {
      (gen.dfs[aIndex], bQr[bIterator])
    }

    /** The first pair becomes the element. */
    constructor (gen: Generator)
      ensures Valid() && Informed() && Settled() && this.gen == gen
      ensures Remaining() == PairsFrom(gen, 0)
      ensures !AtEnd() ==> element == Current()
    {
      this.gen := gen;
      aIndex := 0;
      bQr := gen.hits[gen.dfs[0]];
      bIterator := 0;
      element := (0, 0);
      var sets := Seed(gen);
      predecessors := sets;
      new;
      OfWholeJob(gen, 0);
      SkipBForward();
      if bIterator == |bQr| {
        AdvanceA();
      }
      if bIterator != |bQr| {
        element := (gen.dfs[aIndex], bQr[bIterator]);
      }
    }

    method SkipBForward()
      requires Valid() && aIndex < gen.N() && Informed()
      modifies this`bIterator
      ensures Valid() && Stopped()
      ensures Remaining() == old(Remaining())
    {
      bIterator := SkipForward(gen, aIndex, predecessors[gen.dfs[aIndex]], bQr, bIterator);
    }

    method AdvanceB()
      requires Valid() && Informed() && Settled() && !AtEnd()
      modifies this`bIterator
      ensures Valid() && Stopped()
      ensures old(Remaining()) == [old(Current())] + Remaining()
    {
      FirstOfRemaining(gen, aIndex, bQr, bIterator);
      bIterator := bIterator + 1;
      SkipBForward();
    }

    /** Moves on to the next job with pairs, if the query results of the current one are used up. */
    method AdvanceA()
      requires Valid() && Informed() && Stopped()
      modifies this`aIndex, this`bQr, this`bIterator, this`predecessors
      ensures Valid() && Informed() && Settled()
      ensures Remaining() == old(Remaining())
      ensures old(aIndex < gen.N() && bIterator == |bQr|) ==> old(aIndex) < aIndex
    {
      while aIndex < gen.N() && bIterator == |bQr|
        invariant Valid() && Informed() && Stopped() && Remaining() == old(Remaining())
        invariant old(aIndex) == aIndex ==> bIterator == old(bIterator) && bQr == old(bQr)
        invariant old(aIndex) <= aIndex
        decreases gen.N() - aIndex
      {
        StepA();
      }
    }

    /** The body of the loop: one job further. */
    method StepA()
      requires Valid() && Informed() && aIndex < gen.N() && bIterator == |bQr|
      modifies this`aIndex, this`bQr, this`bIterator, this`predecessors
      ensures Valid() && Informed() && Stopped() && aIndex == old(aIndex) + 1
      ensures Remaining() == old(Remaining())
    {
      ClearingIsHarmless(gen, predecessors, aIndex);
      OfLaterJobs(gen, aIndex, bQr);
      predecessors := predecessors[gen.dfs[aIndex] := []];
      aIndex := aIndex + 1;
      if aIndex >= gen.N() {
        return;
      }
      bQr, bIterator, predecessors := Enter(gen, aIndex, predecessors);
    }

    /** The iterators move on behind the current pair; `moved` says whether to another first job. */
    method Proceed() returns (moved: bool)
      requires Valid() && Informed() && Settled() && !AtEnd()
      modifies this`aIndex, this`bQr, this`bIterator, this`predecessors
      ensures Valid() && Informed() && Settled()
      ensures old(Remaining()) == [old(Current())] + Remaining()
      ensures !moved ==> aIndex == old(aIndex)
    {
      AdvanceB();
      moved := bIterator == |bQr|;
      if moved {
        ghost var rest := Remaining();
        while bIterator == |bQr| && aIndex < gen.N()
          invariant Valid() && Informed() && Stopped() && Remaining() == rest
          decreases gen.N() - aIndex
        {
          AdvanceA();
        }
      }
    }

    /** The prefix increment: the first of the remaining pairs is dropped. */
    method Next()
      requires Valid() && Informed() && Settled() && !AtEnd()
      modifies this
      ensures Valid() && Informed() && Settled()
      ensures old(Remaining()) == [old(Current())] + Remaining()
      ensures !AtEnd() && old(element == Current()) ==> element == Current()
    {
      var moved := Proceed();
      if moved && aIndex < gen.N() {
        element := (gen.dfs[aIndex], element.1);
      }
      if bIterator != |bQr| {
        element := (element.0, bQr[bIterator]);
      }
    }
  }

  lemma MoveOver(done: seq<Pair>, current: Pair, rest: seq<Pair>, before: seq<Pair>)
    requires before == [current] + rest
    ensures done + before == (done + [current]) + rest
    ensures |rest| < |before|
  {
  }

  /** The whole walk, from `begin()` to `end()`: no pair comes twice, and the pairs are those of a later and an earlier
      job whose windows properly overlap, unless the later one depends on the earlier one; but dependents of direct
      successors of the first job are not left out. */
  method Enumerate(gen: Generator) returns (pairs: seq<Pair>)
    ensures pairs == PairsFrom(gen, 0) && Distinct(pairs)
    ensures forall x: nat, y: nat :: (x, y) in pairs <==>
      && x < gen.N() && y < gen.N() && gen.dfsIndex[y] < gen.dfsIndex[x]
      && gen.instance.jobs[x].release < gen.instance.jobs[y].deadline
      && gen.instance.jobs[y].release < gen.instance.jobs[x].deadline
      && (!gen.instance.graph.Precedes(y, x) || gen.instance.graph.Adjacent(gen.dfs[0], y))
  {
    EnumeratedPairs(gen);
    var it := new PairIterator(gen);
    pairs := [];
    assert [] + it.Remaining() == PairsFrom(gen, 0);
    while !it.AtEnd()
      invariant fresh(it) && it.gen == gen && it.Valid() && it.Informed() && it.Settled()
      invariant !it.AtEnd() ==> it.element == it.Current()
      invariant pairs + it.Remaining() == PairsFrom(gen, 0)
      decreases |it.Remaining()|
    {
      var current := it.element;
      ghost var before := it.Remaining();
      it.Next();
      MoveOver(pairs, current, it.Remaining(), before);
      pairs := pairs + [current];
    }
  }

  // ---------- what is enumerated ----------

  lemma {:induction false} PairsOfOne(gen: Generator, a: nat, bs: seq<nat>)
    requires a < gen.N() && Below(bs, gen.N()) && Distinct(bs)
    ensures Distinct(Pairs(gen, a, bs))
    ensures forall x: nat, y: nat :: (x, y) in Pairs(gen, a, bs) <==> x == a && y in bs && Yielded(gen, a, y)
    decreases |bs|
  {
    if bs == [] {
    } else {
      PairsOfOne(gen, a, bs[1..]);
      assert bs[0] !in bs[1..];
    }
  }

  lemma {:induction false} PairsOfAll(gen: Generator, j: nat)
    requires j <= gen.N()
    ensures Distinct(PairsFrom(gen, j))
    ensures forall x: nat, y: nat :: (x, y) in PairsFrom(gen, j) <==>
      x < gen.N() && j <= gen.dfsIndex[x] && y in gen.hits[x] && Yielded(gen, x, y)
    decreases gen.N() - j
  {
    if j == gen.N() {
    } else {
      PairsOfOne(gen, gen.dfs[j], gen.hits[gen.dfs[j]]);
      PairsOfAll(gen, j + 1);
      var head, tail := Pairs(gen, gen.dfs[j], gen.hits[gen.dfs[j]]), PairsFrom(gen, j + 1);
      forall p: Pair | p in head
        ensures p !in tail
      {
        assert (p.0, p.1) in head;
      }
      DistinctConcat(head, tail);
      assert forall x :: 0 <= x < gen.N() && gen.dfsIndex[x] == j ==> x == gen.dfs[j];
    }
  }

  /** Each of the windows begins before the other one ends. */
  ghost predicate Crossing(gen: Generator, a: nat, b: nat)
    requires a < gen.N() && b < gen.N()
  {
    && gen.instance.jobs[a].release < gen.instance.jobs[b].deadline
    && gen.instance.jobs[b].release < gen.instance.jobs[a].deadline
  }

  /** Exactly which pairs are enumerated, and none of them twice. */
  lemma EnumeratedPairs(gen: Generator)
    ensures Distinct(PairsFrom(gen, 0))
    ensures forall x: nat, y: nat :: (x, y) in PairsFrom(gen, 0) <==>
      && x < gen.N() && y < gen.N() && gen.dfsIndex[y] < gen.dfsIndex[x]
      && gen.instance.jobs[x].release < gen.instance.jobs[y].deadline
      && gen.instance.jobs[y].release < gen.instance.jobs[x].deadline
      && (!gen.instance.graph.Precedes(y, x) || Seeded(gen, y))
  {
    PairsOfAll(gen, 0);
  }

  /** Completeness: two jobs whose windows properly overlap, and of which neither depends on the other, are enumerated
      exactly once, the later one of the order first. */
  lemma IndependentPairsAreYielded(gen: Generator, x: nat, y: nat)
    requires x < gen.N() && y < gen.N() && gen.dfsIndex[y] < gen.dfsIndex[x]
    requires var a, b := gen.instance.jobs[x], gen.instance.jobs[y];
      a.release < b.deadline && b.release < a.deadline
    requires !gen.instance.graph.Precedes(x, y) && !gen.instance.graph.Precedes(y, x)
    ensures multiset(PairsFrom(gen, 0))[(x, y)] == 1
    ensures (y, x) !in PairsFrom(gen, 0)
  {
    EnumeratedPairs(gen);
    CountOfDistinct(PairsFrom(gen, 0), (x, y));
  }

  // ---------- schedules ----------

  /** Along every edge the second job can only start when the first one is over. */
  ghost predicate LagsCoverDurations(inst: Instance) {
    forall u: nat, v: nat, lag: int :: inst.graph.HasEdge(u, v, lag) && u < |inst.jobs| ==> lag >= inst.jobs[u].duration
  }

  /** The job is active at time `t`. */
  ghost predicate Active(inst: Instance, s: seq<int>, v: nat, t: int)
    requires |s| == |inst.jobs| && v < |s|
  {
    s[v] <= t < s[v] + inst.jobs[v].duration
  }

  lemma {:induction false} PredecessorIsOver(inst: Instance, s: seq<int>, a: nat, p: Path, b: nat)
    requires inst.Valid() && LagsCoverDurations(inst) && inst.Feasible(s)
    requires p != Empty && inst.graph.IsPath(a, p, b)
    ensures a < |s| && b < |s| && s[a] + inst.jobs[a].duration <= s[b]
    decreases p
  {
    PathEnds(inst.graph, a, p, b);
    PathEnds(inst.graph, a, p.prefix, p.via);
    assert inst.KeepsLagsOf(s, p.via);
    if p.prefix == Empty {
    } else {
      PredecessorIsOver(inst, s, a, p.prefix, p.via);
    }
  }

  lemma ActiveTogetherIsIndependent(inst: Instance, s: seq<int>, x: nat, y: nat, t: int)
    requires inst.Valid() && LagsCoverDurations(inst) && inst.Feasible(s) && x < |s| && y < |s|
    requires Active(inst, s, x, t) && Active(inst, s, y, t)
    ensures !inst.graph.Precedes(x, y)
  {
    forall p | p != Empty && inst.graph.IsPath(x, p, y)
      ensures false
    {
      PredecessorIsOver(inst, s, x, p, y);
    }
  }

  /** If lags cover durations, every two jobs that are active together at some time of some schedule are enumerated,
      exactly once. */
  lemma OverlapsAreYielded(gen: Generator, s: seq<int>, x: nat, y: nat, t: int)
    requires LagsCoverDurations(gen.instance) && gen.instance.Feasible(s)
    requires x < gen.N() && y < gen.N() && x != y
    requires Active(gen.instance, s, x, t) && Active(gen.instance, s, y, t)
    ensures multiset(PairsFrom(gen, 0))[(x, y)] + multiset(PairsFrom(gen, 0))[(y, x)] == 1
  {
    ActiveTogetherIsIndependent(gen.instance, s, x, y, t);
    ActiveTogetherIsIndependent(gen.instance, s, y, x, t);
    assert gen.dfs[gen.dfsIndex[x]] == x && gen.dfs[gen.dfsIndex[y]] == y;
    if gen.dfsIndex[y] < gen.dfsIndex[x] {
      IndependentPairsAreYielded(gen, x, y);
    } else {
      IndependentPairsAreYielded(gen, y, x);
    }
  }

  lemma {:induction false} CountOfDistinct<T>(s: seq<T>, x: T)
    requires Distinct(s) && x in s
    ensures multiset(s)[x] == 1
  {
    var init, last := s[..|s| - 1], s[|s| - 1];
    assert s == init + [last];
    if last == x {
      assert x !in init;
    } else {
      CountOfDistinct(init, x);
    }
  }

  /** Soundness holds exactly if no direct successor of the first job has a descendant with a crossing window: the
      seeding of their sets leaves them out of the sets of their descendants. */
  lemma SoundExactlyIf(gen: Generator)
    ensures (forall x: nat, y: nat :: (x, y) in PairsFrom(gen, 0) ==> !gen.instance.graph.Precedes(y, x))
       <==> (forall x: nat, y: nat ::
               x < gen.N() && y < gen.N() && Seeded(gen, y) && gen.instance.graph.Precedes(y, x) ==>
               !Crossing(gen, x, y))
  {
    EnumeratedPairs(gen);
    forall x: nat, y: nat | x < gen.N() && y < gen.N() && gen.instance.graph.Precedes(y, x)
      ensures gen.dfsIndex[y] < gen.dfsIndex[x]
    {
      AncestorsAreEarlier(gen, y, x);
    }
  }

  ghost function ChainGraph(): (g: LagGraph) {
    LagGraph([[Edge(1, 1)], [Edge(2, 1)], []], [[], [Edge(0, 1)], [Edge(1, 1)]])
  }

  lemma ChainEdges()
    ensures forall u: nat, v: nat, lag: int ::
      ChainGraph().HasEdge(u, v, lag) <==> lag == 1 && ((u == 0 && v == 1) || (u == 1 && v == 2))
    ensures forall u: nat, v: nat, lag: int ::
      ChainGraph().HasReverseEdge(v, u, lag) <==> lag == 1 && ((u == 0 && v == 1) || (u == 1 && v == 2))
    ensures ChainGraph().WellFormed() && ChainGraph().Acyclic() && ChainGraph().Simple()
    ensures ChainGraph().TopologicalOrder([0, 1, 2])
  {
    assert forall e: Edge :: e in [Edge(1, 1)] <==> e == Edge(1, 1);
    assert forall e: Edge :: e in [Edge(2, 1)] <==> e == Edge(2, 1);
    assert forall e: Edge :: e in [Edge(0, 1)] <==> e == Edge(0, 1);
    assert ChainGraph().RankedBy([0, 1, 2]);
  }

  /** Three jobs in a row, all with the same window. */
  ghost function Chain(): (gen: Generator)
    ensures gen.instance == Instance([Job(0, 10, 1), Job(0, 10, 1), Job(0, 10, 1)], ChainGraph())
    ensures gen.dfs == gen.dfsIndex == [0, 1, 2]
  {
    ChainEdges();
    var all: seq<nat> := [0, 1, 2];
    Generator(Instance([Job(0, 10, 1), Job(0, 10, 1), Job(0, 10, 1)], ChainGraph()), [all, all, all], all, all)
  }

  /** In this chain the second job is enumerated with the third, which depends on it. */
  lemma DependentPairYielded()
    ensures (2, 1) in PairsFrom(Chain(), 0) && ChainGraph().Precedes(1, 2)
  {
    ChainEdges();
    EnumeratedPairs(Chain());
    assert ChainGraph().HasEdge(0, 1, 1) && ChainGraph().HasEdge(1, 2, 1);
    assert ChainGraph().Adjacent(0, 1);
    assert ChainGraph().IsPath(1, Snoc(Empty, 1, 1), 2);
    assert Crossing(Chain(), 2, 1);
  }

  ghost function OneEdge(): (g: LagGraph) {
    LagGraph([[Edge(1, 1)], []], [[], [Edge(0, 1)]])
  }

  lemma OneEdgeOnly()
    ensures forall u: nat, v: nat, lag: int :: OneEdge().HasEdge(u, v, lag) <==> lag == 1 && u == 0 && v == 1
    ensures OneEdge().WellFormed() && OneEdge().Acyclic() && OneEdge().Simple() && OneEdge().TopologicalOrder([0, 1])
  {
    assert forall e: Edge :: e in [Edge(1, 1)] <==> e == Edge(1, 1);
    assert forall e: Edge :: e in [Edge(0, 1)] <==> e == Edge(0, 1);
    assert OneEdge().RankedBy([0, 1]);
  }

  lemma ShortLagIsValid(g: RawGenerator)
    requires g.instance == Instance([Job(0, 10, 2), Job(0, 10, 1)], OneEdge())
    requires g.hits == [[0, 1], [0, 1]] && g.dfs == g.dfsIndex == [0, 1]
    ensures g.Valid()
  {
    OneEdgeOnly();
  }

  /** Two jobs, the second of which has to start at least 1 later than the first, which takes 2. */
  ghost function ShortLag(): (gen: Generator)
    ensures gen.instance == Instance([Job(0, 10, 2), Job(0, 10, 1)], OneEdge())
    ensures gen.dfs == gen.dfsIndex == [0, 1]
  {
    var both: seq<nat> := [0, 1];
    var g := RawGenerator.Generator(Instance([Job(0, 10, 2), Job(0, 10, 1)], OneEdge()), [both, both], both, both);
    ShortLagIsValid(g);
    g
  }

  lemma DependentAndNotSeeded()
    ensures OneEdge().Precedes(0, 1) && !Seeded(ShortLag(), 0)
  {
    OneEdgeOnly();
    assert OneEdge().IsPath(0, Snoc(Empty, 0, 1), 1);
    FirstIsNotSeeded(ShortLag());
  }

  /** These two can be active together, but they are not enumerated: lags shorter than durations are not seen. */
  lemma OverlappingPairMissing(s: seq<int>)
    requires s == [0, 1]
    ensures ShortLag().instance.Feasible(s)
    ensures Active(ShortLag().instance, s, 0, 1) && Active(ShortLag().instance, s, 1, 1)
    ensures forall x: nat, y: nat :: (x, y) !in PairsFrom(ShortLag(), 0)
  {
    DependentAndNotSeeded();
    EnumeratedPairs(ShortLag());
    ShortLagSchedule(ShortLag().instance, s);
  }

  lemma ShortLagSchedule(inst: Instance, s: seq<int>)
    requires inst == Instance([Job(0, 10, 2), Job(0, 10, 1)], OneEdge()) && s == [0, 1]
    ensures inst.graph.WellFormed() && inst.Feasible(s)
  {
    OneEdgeOnly();
  }
}
