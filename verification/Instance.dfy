/** Problem instances: jobs with time windows, and the lag graph over them. */
module Instances {
  import opened Machine
  import opened LagGraphs

  datatype Job = Job(release: nat, deadline: nat, duration: nat) {
    predicate Typed() {
      IsUnsigned(release) && IsUnsigned(deadline) && IsUnsigned(duration)
    }
  }

  datatype Instance = Instance(jobs: seq<Job>, graph: LagGraph) {

    ghost predicate Valid() {
      && |jobs| == |graph.adj| <= UINT_MAX
      && graph.WellFormed()
      && graph.Acyclic()
      && (forall v :: 0 <= v < |jobs| ==> jobs[v].Typed())
      && (forall u: nat, v: nat, lag: int :: graph.HasEdge(u, v, lag) ==> IsSigned(lag))
    }

    /** Every job starts at its release or later. */
    ghost predicate Released(s: seq<int>) {
      |s| == |jobs| && forall v :: 0 <= v < |s| ==> jobs[v].release <= s[v]
    }

    /** The lags of all edges leaving `v` are kept. */
    ghost predicate KeepsLagsOf(s: seq<int>, v: nat)
      requires |s| == |jobs| == |graph.adj| && graph.WellFormed()
    {
      v < |s| && forall t: nat, lag: int :: graph.HasEdge(v, t, lag) ==> s[v] + lag <= s[t]
    }

    ghost predicate KeepsLags(s: seq<int>)
      requires |jobs| == |graph.adj| && graph.WellFormed()
    {
      |s| == |jobs| && forall v: nat :: v < |s| ==> KeepsLagsOf(s, v)
    }

    ghost predicate InTime(s: seq<int>) {
      |s| == |jobs| && forall v :: 0 <= v < |s| ==> s[v] + jobs[v].duration <= jobs[v].deadline
    }

    /** A schedule: start times within all windows that keep all lags. */
    ghost predicate Feasible(s: seq<int>)
      requires |jobs| == |graph.adj| && graph.WellFormed()
    {
      Released(s) && KeepsLags(s) && InTime(s)
    }

    ghost predicate Solvable()
      requires |jobs| == |graph.adj| && graph.WellFormed()
    {
      exists s: seq<int> :: Feasible(s)
    }
  }

  ghost predicate Pointwise(a: seq<int>, b: seq<int>) {
    |a| == |b| && forall v :: 0 <= v < |a| ==> a[v] <= b[v]
  }
}
