/** Reverse-postorder numbering by repeated depth-first searches. */
module TopologicalSorting {
  import opened Machine
  import opened Seqs
  import opened LagGraphs
  import opened Postorders

  class TopologicalSort {
    const graph: LagGraph
    var indices: seq<nat>
    var index: nat
    var visited: seq<bool>
    var finished: bool

    // The vertices in the order in which `indices` was written for them, and the set of these vertices.
    ghost var numbered: seq<nat>
    ghost var done: set<nat>

    constructor (graph: LagGraph)
      ensures this.graph == graph
    {
      this.graph := graph;
    }

    /** `numbered` records every write: the i-th vertex got the i-th largest index, all others still have 0, and
        whatever hangs below a numbered vertex was numbered before it. */
    ghost predicate Consistent()
      reads this`indices, this`index, this`numbered, this`done
    {
      && graph.WellFormed()
      && |graph.adj| <= UINT_MAX
      && |indices| == |graph.adj|
      && |numbered| <= |graph.adj|
      && index == Unsigned(|graph.adj| - 1 - |numbered|)
      && (forall i :: 0 <= i < |numbered| ==>
            numbered[i] < |graph.adj| && numbered[i] in done && indices[numbered[i]] == |graph.adj| - 1 - i)
      && (forall v :: v in done ==>
            v < |graph.adj| && 0 <= Place(indices[v]) < |numbered| && numbered[Place(indices[v])] == v)
      && (forall v :: 0 <= v < |indices| && v !in done ==> indices[v] == 0)
      && (forall u: nat, v: nat, lag: int :: graph.HasEdge(u, v, lag) && u in done ==>
            v in done && indices[u] < indices[v])
    }

    /** The entry of `numbered` that stands for an index. */
    ghost function Place(i: nat): (place: int) {
      |graph.adj| - 1 - i
    }

    ghost predicate IsRoot(v: nat) {
      v < |graph.radj| && graph.radj[v] == []
    }

    /** The backtrack callback: the test against the running index recognises vertices numbered by an earlier
        search, as long as the index has not wrapped around. */
    method Backtrack(v: nat)
      requires Consistent() && v < |graph.adj|
      requires |numbered| < |graph.adj|
      requires forall t: nat, lag: int :: graph.HasEdge(v, t, lag) ==> t != v && t in done
      modifies this`indices, this`index, this`numbered, this`done
      ensures Consistent()
      ensures done == old(done) + {v}
      ensures numbered == if v in old(done) then old(numbered) else old(numbered) + [v]
    {
      if indices[v] <= index {
        indices := indices[v := index];
        index := Unsigned(index - 1);
        numbered, done := numbered + [v], done + {v};
      }
    }

    ghost predicate Marked(v: nat)
      reads this`visited
    {
      v < |visited| && visited[v]
    }

    /** Visited vertices are numbered unless their call is still open, that is, unless they are on the stack. */
    ghost predicate Searching(stack: set<nat>)
      reads this
    {
      && Consistent()
      && |visited| == |graph.adj|
      && forall w: nat :: Marked(w) && w !in stack ==> w in done
    }

    /** Since the last state, vertices have been marked and numbered, but no root except possibly `v`. */
    twostate predicate Progress(v: nat)
      reads this
    {
      && (forall w: nat :: old(Marked(w)) ==> Marked(w))
      && old(done) <= done
      && (forall r :: r in done ==> r in old(done) || r == v || !IsRoot(r))
    }

    /** One step of the depth-first search. `stack` holds the vertices whose calls are still open. */
    method DfsRec(v: nat, ghost rank: seq<nat>, ghost top: nat, ghost stack: set<nat>, ghost root: nat)
      requires Searching(stack) && graph.RankedBy(rank) && Below(rank, top)
      requires v < |graph.adj| && !Marked(v)
      requires IsRoot(root) && root !in done && (v == root || root in stack)
      requires forall s :: s in stack ==> s < |rank| && rank[s] < rank[v]
      modifies this`visited, this`indices, this`index, this`numbered, this`done
      decreases top - rank[v], 2
      ensures Searching(stack) && Progress(v)
      ensures Marked(v) && v in done
      ensures numbered == Postorder(graph, rank, old(numbered), v)
    {
      visited := visited[v := true];
      ghost var before := numbered;
      NumberedBefore(v, rank);
      FollowAll(v, rank, top, stack + {v}, root);
      Finish(v, rank, stack, root, before);
    }

    /** A vertex that is numbered has had all its targets numbered: following its edges adds nothing. */
    lemma NumberedBefore(v: nat, rank: seq<nat>)
      requires Consistent() && graph.RankedBy(rank) && v < |graph.adj|
      ensures v in numbered <==> v in done
      ensures v in numbered ==> PostorderOfTargets(graph, rank, numbered, v, |graph.adj[v]|) == numbered
    {
      IsNumbered(v);
      if v in done {
        forall j | 0 <= j < |graph.adj[v]|
          ensures graph.adj[v][j].t in numbered
        {
          assert graph.HasEdge(v, graph.adj[v][j].t, graph.adj[v][j].lag);
          IsNumbered(graph.adj[v][j].t);
        }
        KnownTargets(graph, rank, numbered, v, |graph.adj[v]|);
      }
    }

    lemma IsNumbered(v: nat)
      requires Consistent()
      ensures v in numbered <==> v in done
    {
      if v in done {
        assert numbered[Place(indices[v])] == v;
      }
    }

    /** Following the edges of a vertex does not number the vertex itself. */
    lemma NumberedAfter(before: seq<nat>, v: nat, rank: seq<nat>)
      requires Consistent() && graph.RankedBy(rank) && v < |graph.adj|
      requires numbered == PostorderOfTargets(graph, rank, before, v, |graph.adj[v]|)
      requires v in before ==> numbered == before
      ensures Postorder(graph, rank, before, v) == if v in done then numbered else numbered + [v]
    {
      IsNumbered(v);
      if v in numbered {
        TargetsAreBelow(graph, rank, before, v, |graph.adj[v]|, v);
      }
    }

    /** The call of `v` ends with its backtrack callback. */
    method Finish(v: nat, ghost rank: seq<nat>, ghost stack: set<nat>, ghost root: nat, ghost before: seq<nat>)
      requires Searching(stack + {v}) && graph.RankedBy(rank)
      requires v < |graph.adj|
      requires root < |graph.adj| && root !in done
      requires forall s :: s in stack ==> s < |rank| && rank[s] < rank[v]
      requires forall j :: 0 <= j < |graph.adj[v]| ==> Marked(graph.adj[v][j].t)
      requires numbered == PostorderOfTargets(graph, rank, before, v, |graph.adj[v]|)
      requires v in before ==> numbered == before
      modifies this`indices, this`index, this`numbered, this`done
      ensures Searching(stack) && done == old(done) + {v}
      ensures numbered == Postorder(graph, rank, before, v)
    {
      NumberedAfter(before, v, rank);
      RoomLeft(root);
      SuccessorsNumbered(v, rank, stack);
      Backtrack(v);
    }

    /** The loop over the edges leaving `v`. */
    method FollowAll(v: nat, ghost rank: seq<nat>, ghost top: nat, ghost stack: set<nat>, ghost root: nat)
      requires Searching(stack) && graph.RankedBy(rank) && Below(rank, top)
      requires v < |graph.adj| && v in stack && Marked(v)
      requires IsRoot(root) && root !in done && root in stack
      requires forall s :: s in stack ==> s < |rank| && rank[s] <= rank[v]
      modifies this`visited, this`indices, this`index, this`numbered, this`done
      decreases top - rank[v], 1
      ensures Searching(stack) && Progress(|graph.adj|)
      ensures forall j :: 0 <= j < |graph.adj[v]| ==> Marked(graph.adj[v][j].t)
      ensures numbered == PostorderOfTargets(graph, rank, old(numbered), v, |graph.adj[v]|)
    {
      var k := 0;
      while k < |graph.adj[v]|
        invariant 0 <= k <= |graph.adj[v]|
        invariant Searching(stack) && Progress(|graph.adj|)
        invariant forall j :: 0 <= j < k ==> Marked(graph.adj[v][j].t)
        invariant numbered == PostorderOfTargets(graph, rank, old(numbered), v, k)
      {
        assert graph.HasEdge(v, graph.adj[v][k].t, graph.adj[v][k].lag);
        Follow(graph.adj[v][k].t, rank, top, stack, root);
        k := k + 1;
      }
    }

    /** The loop body: an edge into an unmarked vertex continues the search there. */
    method Follow(t: nat, ghost rank: seq<nat>, ghost top: nat, ghost stack: set<nat>, ghost root: nat)
      requires Searching(stack) && graph.RankedBy(rank) && Below(rank, top)
      requires t < |graph.adj| && !IsRoot(t)
      requires IsRoot(root) && root !in done && root in stack
      requires forall s :: s in stack ==> s < |rank| && rank[s] < rank[t]
      modifies this`visited, this`indices, this`index, this`numbered, this`done
      decreases top - rank[t], 3
      ensures Searching(stack) && Progress(|graph.adj|) && Marked(t)
      ensures numbered == Postorder(graph, rank, old(numbered), t)
    {
      if !visited[t] {
        DfsRec(t, rank, top, stack, root);
      } else {
        IsNumbered(t);
      }
    }

    /** As long as some vertex is not numbered, the running index has not wrapped around. */
    lemma RoomLeft(v: nat)
      requires Consistent() && v < |graph.adj| && v !in done
      ensures |numbered| < |graph.adj|
    {
      MissingOne(numbered, |graph.adj|, v);
    }

    /** When all successors are marked they are numbered: none of them can be on the stack of a ranked graph. */
    lemma SuccessorsNumbered(v: nat, rank: seq<nat>, stack: set<nat>)
      requires Searching(stack + {v}) && graph.RankedBy(rank) && v < |graph.adj|
      requires forall s :: s in stack ==> s < |rank| && rank[s] < rank[v]
      requires forall j :: 0 <= j < |graph.adj[v]| ==> Marked(graph.adj[v][j].t)
      ensures forall t: nat, lag: int :: graph.HasEdge(v, t, lag) ==> t != v && t in done
    {
      forall t: nat, lag: int | graph.HasEdge(v, t, lag)
        ensures t != v && t in done
      {
        assert rank[v] < rank[t];
        assert Marked(t);
      }
    }

    /** A depth-first search from `root`, starting with a fresh `visited`. */
    method Search(root: nat, ghost rank: seq<nat>, ghost top: nat)
      requires Consistent() && graph.RankedBy(rank) && Below(rank, top)
      requires IsRoot(root) && root !in done
      modifies this`visited, this`indices, this`index, this`numbered, this`done
      ensures Consistent() && |numbered| > 0
      ensures numbered == Postorder(graph, rank, old(numbered), root)
      ensures forall r: nat :: IsRoot(r) ==> (r in done <==> r == root || r in old(done))
    {
      visited := seq(|graph.adj|, _ => false);
      DfsRec(root, rank, top, {}, root);
    }

    method Start()
      requires graph.WellFormed() && |graph.adj| <= UINT_MAX
      modifies this
      ensures Consistent() && numbered == [] && done == {} && !finished
    {
      indices := seq(|graph.adj|, _ => 0);
      index := Unsigned(|graph.adj| - 1);
      finished := false;
      numbered, done := [], {};
    }

    /** The roots below `v` are numbered, and no others. */
    ghost predicate RootsBelow(v: nat)
      reads this`done
    {
      forall r: nat :: IsRoot(r) ==> (r in done <==> r < v)
    }

    /** The body of the loop over the vertices. */
    method TryRoot(v: nat, ghost rank: seq<nat>, ghost top: nat)
      requires Consistent() && graph.RankedBy(rank) && Below(rank, top)
      requires v < |graph.adj| && RootsBelow(v) && numbered == PostorderOfRoots(graph, rank, v)
      requires finished == (v > 0 && |numbered| == |graph.adj|)
      modifies this
      ensures Consistent() && RootsBelow(v + 1) && numbered == PostorderOfRoots(graph, rank, v + 1)
      ensures finished == (|numbered| == |graph.adj|)
    {
      if |graph.radj[v]| == 0 {
        RoomLeft(v);
        Search(v, rank, top);
        if index == Unsigned(0 - 1) {
          finished := true;
        }
      }
    }

    /** Numbers all vertices, searching from every root with a fresh `visited`. */
    method NumberAll()
      requires graph.WellFormed() && graph.Acyclic() && |graph.adj| <= UINT_MAX
      modifies this
      ensures Consistent() && Permutation(numbered, |graph.adj|) && numbered == Numbering(graph)
      ensures finished == (graph.adj != [])
    {
      ghost var rank := SomeRank(graph);
      ghost var top := Bound(rank);
      Start();

      var v := 0;
      while v < |graph.adj|
        invariant 0 <= v <= |graph.adj|
        invariant Consistent()
        invariant RootsBelow(v) && numbered == PostorderOfRoots(graph, rank, v)
        invariant finished == (v > 0 && |numbered| == |graph.adj|)
      {
        TryRoot(v, rank, top);
        v := v + 1;
      }
      AllNumbered(rank);
    }

    /** The vertices in the order of their indices. */
    method Get() returns (ordered: seq<nat>)
      requires graph.WellFormed() && graph.Acyclic() && |graph.adj| <= UINT_MAX
      modifies this
      ensures graph.TopologicalOrder(ordered)
      // `numbered` lists the writes to `indices`: one for each vertex, and the result is their reverse. It is the
      // postorder of plain searches, although the program searches numbered vertices again.
      ensures Permutation(numbered, |graph.adj|) && numbered == Numbering(graph)
      ensures forall i :: 0 <= i < |ordered| ==> ordered[i] == numbered[|ordered| - 1 - i]
      // After all these writes the running index has wrapped around, which happens with the last of them.
      ensures index == UINT_MAX && finished == (graph.adj != [])
    {
      NumberAll();
      ordered := Invert();
    }

    /** Puts every vertex at its index. */
    method Invert() returns (ordered: seq<nat>)
      requires Consistent() && Permutation(numbered, |graph.adj|)
      ensures graph.TopologicalOrder(ordered)
      ensures forall i :: 0 <= i < |ordered| ==> ordered[i] == numbered[|ordered| - 1 - i]
    {
      IndicesInvert();
      ordered := seq(|graph.adj|, _ => 0);
      var v := 0;
      while v < |graph.adj|
        invariant 0 <= v <= |graph.adj| && |ordered| == |graph.adj|
        invariant forall w :: 0 <= w < v ==> ordered[indices[w]] == w
      {
        ordered := ordered[indices[v] := v];
        v := v + 1;
      }
      ReverseOfNumbering(ordered);
    }

    lemma IndicesInvert()
      requires Consistent() && Permutation(numbered, |graph.adj|)
      ensures Distinct(indices) && Below(indices, |indices|)
    {
      forall u: nat | u < |indices|
        ensures indices[u] < |indices| && numbered[|indices| - 1 - indices[u]] == u
      {
        Surjective(numbered, |graph.adj|, u);
      }
    }

    lemma ReverseOfNumbering(ordered: seq<nat>)
      requires Consistent() && Permutation(numbered, |graph.adj|)
      requires |ordered| == |graph.adj|
      requires Below(indices, |indices|)
      requires forall w :: 0 <= w < |indices| ==> ordered[indices[w]] == w
      ensures forall i :: 0 <= i < |ordered| ==> ordered[i] == numbered[|ordered| - 1 - i]
      ensures graph.TopologicalOrder(ordered)
    {
      forall i | 0 <= i < |ordered|
        ensures ordered[i] == numbered[|ordered| - 1 - i] && indices[ordered[i]] == i
      {
        assert indices[numbered[|ordered| - 1 - i]] == i;
      }
    }

    /** Every vertex hangs below a root, so once the roots are numbered, all vertices are. */
    lemma AllNumbered(rank: seq<nat>)
      requires Consistent() && graph.RankedBy(rank)
      requires forall r: nat :: IsRoot(r) ==> r in done
      ensures Permutation(numbered, |graph.adj|)
    {
      forall v: nat | v < |graph.adj|
        ensures v in done
      {
        BelowRoot(rank, v);
      }
      forall v: nat | v < |graph.adj|
        ensures v in numbered
      {
        assert v == numbered[Place(indices[v])];
      }
      FullList(numbered, |graph.adj|);
    }

    lemma {:induction false} BelowRoot(rank: seq<nat>, v: nat)
      requires Consistent() && graph.RankedBy(rank) && v < |graph.adj|
      requires forall r: nat :: IsRoot(r) ==> r in done
      ensures v in done
      decreases rank[v]
    {
      if graph.radj[v] == [] {
      } else {
        var e := graph.radj[v][0];
        assert graph.HasReverseEdge(v, e.t, e.lag);
        BelowRoot(rank, e.t);
      }
    }
  }
}
