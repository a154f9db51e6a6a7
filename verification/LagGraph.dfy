/** The lag graph: for every vertex the outgoing edges, and mirrored lists of the incoming ones. */
module LagGraphs {
  import opened Seqs

  /** An entry of an adjacency list: the vertex at the other end, and the lag. */
  datatype Edge = Edge(t: nat, lag: int)

  datatype LagGraph = LagGraph(adj: seq<seq<Edge>>, radj: seq<seq<Edge>>) {

    ghost predicate HasEdge(u: nat, v: nat, lag: int) {
      u < |adj| && Edge(v, lag) in adj[u]
    }

    ghost predicate HasReverseEdge(v: nat, u: nat, lag: int) {
      v < |radj| && Edge(u, lag) in radj[v]
    }

    ghost predicate WellFormed() {
      && |radj| == |adj|
      && (forall u: nat, v: nat, lag: int :: HasEdge(u, v, lag) ==> v < |adj|)
      && (forall u: nat, v: nat, lag: int :: HasEdge(u, v, lag) ==> HasReverseEdge(v, u, lag))
      && (forall u: nat, v: nat, lag: int :: HasReverseEdge(v, u, lag) ==> HasEdge(u, v, lag))
    }

    /** `rank` grows along every edge: the witness of acyclicity. */
    ghost predicate RankedBy(rank: seq<nat>) {
      && |rank| == |adj|
      && forall u: nat, v: nat, lag: int :: HasEdge(u, v, lag) && v < |adj| ==> rank[u] < rank[v]
    }

    ghost predicate Acyclic() {
      exists rank :: RankedBy(rank)
    }

    /** All edges lead from earlier to later entries of the order. */
    ghost predicate TopologicalOrder(order: seq<nat>) {
      && Permutation(order, |adj|)
      && forall i, j, lag :: 0 <= i < |order| && 0 <= j < |order| && HasEdge(order[i], order[j], lag) ==> i < j
    }

    /** `p` leads from `a` to `b`. */
    ghost predicate IsPath(a: nat, p: Path, b: nat)
      decreases p
    {
      match p
      case Empty => a == b && a < |adj|
      case Snoc(prefix, u, lag) => HasEdge(u, b, lag) && IsPath(a, prefix, u)
    }

    ghost predicate Reaches(a: nat, b: nat) {
      exists p :: IsPath(a, p, b)
    }

    /** There is a path with at least one edge. */
    ghost predicate Precedes(a: nat, b: nat) {
      exists p :: p != Empty && IsPath(a, p, b)
    }

    /** No vertex has two edges to the same target. */
    ghost predicate Simple() {
      forall u, i, j :: 0 <= u < |adj| && 0 <= i < j < |adj[u]| ==> adj[u][i].t != adj[u][j].t
    }

    ghost predicate Adjacent(u: nat, v: nat) {
      exists lag: int :: HasEdge(u, v, lag)
    }

    ghost predicate NonNegativeLags() {
      forall u: nat, v: nat, lag: int :: HasEdge(u, v, lag) ==> lag >= 0
    }
  }

  /** A walk, growing at its far end: `Snoc(p, u, lag)` ends with an edge of weight `lag` leaving `u`. */
  datatype Path = Empty | Snoc(prefix: Path, via: nat, lag: int) {
    function Length(): (length: int) {
      match this
      case Empty => 0
      case Snoc(prefix, _, lag) => prefix.Length() + lag
    }
  }

  /** A non-empty path ends with an edge. */
  lemma PrecedesByEdge(g: LagGraph, a: nat, b: nat)
    requires g.WellFormed()
    ensures g.Precedes(a, b) <==> exists u: nat :: g.Adjacent(u, b) && (a == u || g.Precedes(a, u))
  {
    if g.Precedes(a, b) {
      var p :| p != Empty && g.IsPath(a, p, b);
      assert g.HasEdge(p.via, b, p.lag) && g.IsPath(a, p.prefix, p.via);
      assert g.Adjacent(p.via, b) && (a == p.via || g.Precedes(a, p.via));
    }
    if u: nat :| g.Adjacent(u, b) && (a == u || g.Precedes(a, u)) {
      var lag: int :| g.HasEdge(u, b, lag);
      var p := if a == u then Empty else var q :| q != Empty && g.IsPath(a, q, u); q;
      assert g.IsPath(a, Snoc(p, u, lag), b);
    }
  }

  /** Paths stay inside the graph. */
  lemma {:induction false} PathEnds(g: LagGraph, a: nat, p: Path, b: nat)
    requires g.WellFormed() && g.IsPath(a, p, b)
    ensures a < |g.adj| && b < |g.adj|
    decreases p
  {
    match p
    case Empty =>
    case Snoc(prefix, u, lag) => PathEnds(g, a, prefix, u);
  }

  /** The place of a vertex in an order. */
  ghost function Position(g: LagGraph, order: seq<nat>, v: nat): (i: nat)
    requires g.TopologicalOrder(order) && v < |g.adj|
    ensures i < |order| && order[i] == v
  {
    Surjective(order, |g.adj|, v);
    var i: nat :| i < |order| && order[i] == v;
    i
  }

  /** Along a path the positions grow. */
  lemma {:induction false} PathGoesForward(g: LagGraph, order: seq<nat>, a: nat, p: Path, b: nat)
    requires g.WellFormed() && g.TopologicalOrder(order) && g.IsPath(a, p, b)
    ensures a < |g.adj| && b < |g.adj|
    ensures Position(g, order, a) <= Position(g, order, b)
    ensures p != Empty ==> Position(g, order, a) < Position(g, order, b)
    decreases p
  {
    PathEnds(g, a, p, b);
    match p
    case Empty =>
    case Snoc(prefix, u, lag) =>
      PathEnds(g, a, prefix, u);
      PathGoesForward(g, order, a, prefix, u);
  }

  /** Positions in a topological order are a rank. */
  lemma OrderedIsAcyclic(g: LagGraph, order: seq<nat>)
    requires g.WellFormed() && g.TopologicalOrder(order)
    ensures g.Acyclic()
  {
    var rank := seq(|g.adj|, v requires 0 <= v < |g.adj| => Position(g, order, v));
    forall u: nat, v: nat, lag | g.HasEdge(u, v, lag)
      ensures rank[u] < rank[v]
    {
      var i, j := Position(g, order, u), Position(g, order, v);
      assert g.HasEdge(order[i], order[j], lag);
    }
    assert g.RankedBy(rank);
  }

  lemma {:induction false} SortedByRank(rank: seq<nat>, n: nat) returns (order: seq<nat>)
    requires n <= |rank|
    ensures Permutation(order, n)
    ensures forall i, j :: 0 <= i < j < n ==> rank[order[i]] <= rank[order[j]]
  {
    if n == 0 {
      order := [];
    } else {
      var rest := SortedByRank(rank, n - 1);
      var k := 0;
      while k < n - 1 && rank[rest[k]] <= rank[n - 1]
        invariant 0 <= k <= n - 1
        invariant forall i :: 0 <= i < k ==> rank[rest[i]] <= rank[n - 1]
      {
        k := k + 1;
      }
      order := rest[..k] + [n - 1] + rest[k..];
    }
  }

  /** A graph can be ordered topologically if and only if it is acyclic. */
  lemma AcyclicExactlyIfOrdered(g: LagGraph)
    requires g.WellFormed()
    ensures g.Acyclic() <==> exists order :: g.TopologicalOrder(order)
  {
    if g.Acyclic() {
      var rank :| g.RankedBy(rank);
      var order := SortedByRank(rank, |g.adj|);
      assert g.TopologicalOrder(order);
    }
    if order :| g.TopologicalOrder(order) {
      OrderedIsAcyclic(g, order);
    }
  }
}
