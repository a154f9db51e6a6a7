/** The postorder of repeated depth-first searches, as a definition by recursion. */
module Postorders {
  import opened Seqs
  import opened LagGraphs

  /** A witness of acyclicity. It only serves to bound the recursion of the search. */
  ghost function SomeRank(g: LagGraph): (rank: seq<nat>)
    requires g.Acyclic()
    ensures g.RankedBy(rank)
  {
    var rank :| g.RankedBy(rank);
    rank
  }

  /** The postorder of a plain depth-first search from `v` behind the vertices listed `before`: these are not searched
      again, and the edges are followed in their order. */
  ghost function Postorder(g: LagGraph, rank: seq<nat>, before: seq<nat>, v: nat): (after: seq<nat>)
    requires g.WellFormed() && g.RankedBy(rank) && v < |g.adj|
    decreases Bound(rank) - rank[v], 1, 0
  {
    if v in before then before else PostorderOfTargets(g, rank, before, v, |g.adj[v]|) + [v]
  }

  /** The same for the first `k` edges leaving `v`. */
  ghost function PostorderOfTargets(g: LagGraph, rank: seq<nat>, before: seq<nat>, v: nat, k: nat): (after: seq<nat>)
    requires g.WellFormed() && g.RankedBy(rank) && v < |g.adj| && k <= |g.adj[v]|
    decreases Bound(rank) - rank[v], 0, k
  {
    if k == 0 then before
    else
      var e := g.adj[v][k - 1];
      assert g.HasEdge(v, e.t, e.lag);
      Postorder(g, rank, PostorderOfTargets(g, rank, before, v, k - 1), e.t)
  }

  /** The searches from the vertices below `n` without incoming edges, one after the other. */
  ghost function PostorderOfRoots(g: LagGraph, rank: seq<nat>, n: nat): (after: seq<nat>)
    requires g.WellFormed() && g.RankedBy(rank) && n <= |g.adj|
  {
    if n == 0 then []
    else if g.radj[n - 1] == [] then Postorder(g, rank, PostorderOfRoots(g, rank, n - 1), n - 1)
    else PostorderOfRoots(g, rank, n - 1)
  }

  /** The order in which plain depth-first searches from all roots leave the vertices. */
  ghost function Numbering(g: LagGraph): (order: seq<nat>)
    requires g.WellFormed() && g.Acyclic()
  {
    PostorderOfRoots(g, SomeRank(g), |g.adj|)
  }

  /** A search from `v` only adds what comes behind `v`. */
  lemma {:induction false} PostorderIsBelow(g: LagGraph, rank: seq<nat>, before: seq<nat>, v: nat, x: nat)
    requires g.WellFormed() && g.RankedBy(rank) && v < |g.adj| && x in Postorder(g, rank, before, v)
    ensures x in before || x == v || (x < |rank| && rank[v] < rank[x] && g.radj[x] != [])
    decreases Bound(rank) - rank[v], 1, 0
  {
    if v in before || x == v {
    } else {
      TargetsAreBelow(g, rank, before, v, |g.adj[v]|, x);
    }
  }

  lemma {:induction false} TargetsAreBelow(g: LagGraph, rank: seq<nat>, before: seq<nat>, v: nat, k: nat, x: nat)
    requires g.WellFormed() && g.RankedBy(rank) && v < |g.adj| && k <= |g.adj[v]|
    requires x in PostorderOfTargets(g, rank, before, v, k)
    ensures x in before || (x < |rank| && rank[v] < rank[x] && g.radj[x] != [])
    decreases Bound(rank) - rank[v], 0, k
  {
    if k > 0 {
      var e := g.adj[v][k - 1];
      assert g.HasEdge(v, e.t, e.lag) && g.HasReverseEdge(e.t, v, e.lag);
      var others := PostorderOfTargets(g, rank, before, v, k - 1);
      PostorderIsBelow(g, rank, others, e.t, x);
      if x in others {
        TargetsAreBelow(g, rank, before, v, k - 1, x);
      }
    }
  }

  /** Where all targets are listed already, nothing is added. */
  lemma {:induction false} KnownTargets(g: LagGraph, rank: seq<nat>, before: seq<nat>, v: nat, k: nat)
    requires g.WellFormed() && g.RankedBy(rank) && v < |g.adj| && k <= |g.adj[v]|
    requires forall j :: 0 <= j < k ==> g.adj[v][j].t in before
    ensures PostorderOfTargets(g, rank, before, v, k) == before
    decreases k
  {
    if k > 0 {
      KnownTargets(g, rank, before, v, k - 1);
    }
  }

  /** Roots are listed in ascending order, each behind all that hangs below it: the last vertex is the last root. */
  lemma {:induction false} LastIsLastRoot(g: LagGraph, rank: seq<nat>, n: nat)
    requires g.WellFormed() && g.RankedBy(rank) && n <= |g.adj|
    ensures var order := PostorderOfRoots(g, rank, n);
      && (forall r: nat :: r < |g.adj| && g.radj[r] == [] ==> (r in order <==> r < n))
      && (order == [] || (order[|order| - 1] < n && g.radj[order[|order| - 1]] == [] &&
            forall r: nat :: r < n && g.radj[r] == [] ==> r <= order[|order| - 1]))
  {
    if n > 0 {
      LastIsLastRoot(g, rank, n - 1);
      if g.radj[n - 1] == [] {
        var before := PostorderOfRoots(g, rank, n - 1);
        forall r: nat | r < |g.adj| && g.radj[r] == [] && r in Postorder(g, rank, before, n - 1)
          ensures r in before || r == n - 1
        {
          PostorderIsBelow(g, rank, before, n - 1, r);
        }
        forall r: nat | r in before
          ensures r in Postorder(g, rank, before, n - 1)
        {
          TargetsAreAdded(g, rank, before, n - 1, |g.adj[n - 1]|);
        }
      }
    }
  }

  lemma {:induction false} TargetsAreAdded(g: LagGraph, rank: seq<nat>, before: seq<nat>, v: nat, k: nat)
    requires g.WellFormed() && g.RankedBy(rank) && v < |g.adj| && k <= |g.adj[v]|
    ensures before <= PostorderOfTargets(g, rank, before, v, k)
    decreases Bound(rank) - rank[v], 0, k
  {
    if k > 0 {
      var e := g.adj[v][k - 1];
      assert g.HasEdge(v, e.t, e.lag);
      var others := PostorderOfTargets(g, rank, before, v, k - 1);
      TargetsAreAdded(g, rank, before, v, k - 1);
      if e.t !in others {
        TargetsAreAdded(g, rank, others, e.t, |g.adj[e.t]|);
      }
    }
  }
}
