/** Which jobs can be active together in a schedule, and whether the generator of overlapping pairs misses any. */
module ActiveTogether {
  import opened LagGraphs
  import opened Instances
  import opened CriticalPaths
  import opened LongestPaths
  import opened OverlappingPairs

  ghost predicate TogetherAt(inst: Instance, s: seq<int>, x: nat, y: nat, t: int)
    requires inst.Valid()
  {
    inst.Feasible(s) && x < |s| && y < |s| && Active(inst, s, x, t) && Active(inst, s, y, t)
  }

  /** Some schedule has both jobs active at some time. */
  ghost predicate CanBeTogether(inst: Instance, x: nat, y: nat)
    requires inst.Valid()
  {
    exists s: seq<int>, t: int :: TogetherAt(inst, s, x, y, t)
  }

  // ---------- one pair ----------

  /** Of two jobs that are active together, the generator misses the pair exactly if one depends on the other, and is
      no direct successor of the first job of the order. */
  lemma TogetherIsYieldedExactlyIf(gen: Generator, s: seq<int>, x: nat, y: nat, t: int)
    requires TogetherAt(gen.instance, s, x, y, t) && gen.dfsIndex[y] < gen.dfsIndex[x]
    ensures (x, y) in PairsFrom(gen, 0) <==> !gen.instance.graph.Precedes(y, x) || Seeded(gen, y)
  {
    EnumeratedPairs(gen);
    assert gen.instance.jobs[x].release <= s[x] && gen.instance.jobs[y].release <= s[y];
    assert Crossing(gen, x, y);
  }

  // ---------- dependent jobs ----------

  /** What can be read off the analyses: with these earliest starts and latest finishes, and with the longest paths from
      `y`, the dependent job `x` can begin before `y` is over. */
  ghost predicate MayMeet(inst: Instance, es: seq<int>, lf: seq<int>, row: seq<int>, x: nat, y: nat)
    requires |es| == |lf| == |row| == |inst.jobs| && x < |es| && y < |es|
  {
    inst.InTime(es) && inst.jobs[x].duration > 0 && es[x] < lf[y] && row[x] < inst.jobs[y].duration
  }

  /** Every start respects the longest paths from `y`. */
  lemma RowBoundsStarts(inst: Instance, s: seq<int>, row: seq<int>, y: nat, x: nat)
    requires inst.Valid() && inst.KeepsLags(s) && ExactRow(inst.graph, y, row)
    requires y < |s| && x < |s| && row[x] != NO_PATH
    ensures s[y] + row[x] <= s[x]
  {
    assert Exact(inst.graph, y, row[x], x);
    var p :| inst.graph.IsPath(y, p, x) && p.Length() == row[x];
    PathBoundsStarts(inst, s, y, p, x);
  }

  lemma {:induction false} PathBoundsStarts(inst: Instance, s: seq<int>, y: nat, p: Path, x: nat)
    requires inst.Valid() && inst.KeepsLags(s) && inst.graph.IsPath(y, p, x)
    ensures y < |s| && x < |s| && s[y] + p.Length() <= s[x]
    decreases p
  {
    PathEnds(inst.graph, y, p, x);
    match p
    case Empty =>
    case Snoc(prefix, u, lag) =>
      PathBoundsStarts(inst, s, y, prefix, u);
      assert inst.KeepsLagsOf(s, u);
  }

  /** Everything as early as possible, except that `y` is as late as possible and pushes its dependents. */
  ghost function Delayed(inst: Instance, es: seq<int>, lf: seq<int>, row: seq<int>, y: nat): (s: seq<int>)
    requires |es| == |lf| == |row| == |inst.jobs| && y < |es|
    ensures |s| == |es|
    ensures forall v :: 0 <= v < |s| ==>
      s[v] == if row[v] != NO_PATH && es[v] < lf[y] - inst.jobs[y].duration + row[v]
              then lf[y] - inst.jobs[y].duration + row[v] else es[v]
  {
    seq(|es|, v requires 0 <= v < |es| =>
      if row[v] != NO_PATH && es[v] < lf[y] - inst.jobs[y].duration + row[v]
      then lf[y] - inst.jobs[y].duration + row[v] else es[v])
  }

  /** One more edge cannot lead further than the longest path. */
  lemma RowGrows(g: LagGraph, row: seq<int>, y: nat, u: nat, v: nat, lag: int)
    requires g.WellFormed() && g.NonNegativeLags() && ExactRow(g, y, row)
    requires g.HasEdge(u, v, lag) && u < |row| && row[u] != NO_PATH
    ensures v < |row| && row[v] != NO_PATH && row[u] + lag <= row[v]
  {
    assert Exact(g, y, row[u], u);
    var p :| g.IsPath(y, p, u) && p.Length() == row[u];
    assert g.IsPath(y, Snoc(p, u, lag), v);
    assert Exact(g, y, row[v], v);
    assert g.Reaches(y, v);
  }

  lemma DelayedIsFeasible(inst: Instance, es: seq<int>, lf: seq<int>, row: seq<int>, y: nat)
    requires inst.Valid() && inst.graph.NonNegativeLags() && LeastStart(inst, es) && GreatestFinish(inst, lf)
    requires ExactRow(inst.graph, y, row) && y < |es| && inst.InTime(es)
    ensures inst.Feasible(Delayed(inst, es, lf, row, y))
  {
    var s := Delayed(inst, es, lf, row, y);
    forall u: nat | u < |s|
      ensures inst.KeepsLagsOf(s, u)
    {
      assert inst.KeepsLagsOf(es, u);
      forall v: nat, lag: int | inst.graph.HasEdge(u, v, lag)
        ensures s[u] + lag <= s[v]
      {
        if row[u] != NO_PATH {
          RowGrows(inst.graph, row, y, u, v, lag);
        }
      }
    }
    forall v: nat | v < |s|
      ensures s[v] + inst.jobs[v].duration <= inst.jobs[v].deadline
    {
      if row[v] != NO_PATH {
        RowBoundsStarts(inst, StartsOf(inst, lf), row, y, v);
      }
    }
  }

  /** A job and one that depends on it can be active together exactly if the analyses say so. */
  lemma TogetherExactlyIf(inst: Instance, es: seq<int>, lf: seq<int>, row: seq<int>, x: nat, y: nat)
    requires inst.Valid() && inst.graph.NonNegativeLags() && LeastStart(inst, es) && GreatestFinish(inst, lf)
    requires ExactRow(inst.graph, y, row) && x < |es| && y < |es| && row[x] != NO_PATH
    ensures CanBeTogether(inst, x, y) <==> MayMeet(inst, es, lf, row, x, y)
  {
    forall s: seq<int>, t: int | TogetherAt(inst, s, x, y, t)
      ensures MayMeet(inst, es, lf, row, x, y)
    {
      ExactFeasibility(inst, es);
      ScheduleFinishes(inst, s);
      assert Pointwise(es, s) && Pointwise(FinishesOf(inst, s), lf);
      RowBoundsStarts(inst, s, row, y, x);
    }
    if MayMeet(inst, es, lf, row, x, y) {
      DelayedIsTogether(inst, es, lf, row, x, y);
    }
  }

  lemma DelayedIsTogether(inst: Instance, es: seq<int>, lf: seq<int>, row: seq<int>, x: nat, y: nat)
    requires inst.Valid() && inst.graph.NonNegativeLags() && LeastStart(inst, es) && GreatestFinish(inst, lf)
    requires ExactRow(inst.graph, y, row) && x < |es| && y < |es| && row[x] != NO_PATH
    requires MayMeet(inst, es, lf, row, x, y)
    ensures CanBeTogether(inst, x, y)
  {
    var s := Delayed(inst, es, lf, row, y);
    DelayedIsFeasible(inst, es, lf, row, y);
    assert inst.Feasible(es);
    ScheduleFinishes(inst, es);
    assert Pointwise(FinishesOf(inst, es), lf);
    OwnEntry(inst.graph, row, y);
    assert TogetherAt(inst, s, x, y, s[x]);
  }

  /** The longest path from a job to itself is empty. */
  lemma OwnEntry(g: LagGraph, row: seq<int>, y: nat)
    requires g.WellFormed() && g.Acyclic() && ExactRow(g, y, row) && y < |row|
    ensures row[y] == 0
  {
    assert Exact(g, y, row[y], y);
    assert g.IsPath(y, Empty, y);
    var p :| g.IsPath(y, p, y) && p.Length() == row[y];
    AcyclicExactlyIfOrdered(g);
    var order :| g.TopologicalOrder(order);
    PathGoesForward(g, order, y, p, y);
  }

  // ---------- all pairs ----------

  /** Whatever can be active together is enumerated. */
  ghost predicate MissesNothing(gen: Generator) {
    forall x: nat, y: nat :: x < gen.N() && y < gen.N() && x != y && CanBeTogether(gen.instance, x, y) ==>
      (x, y) in PairsFrom(gen, 0) || (y, x) in PairsFrom(gen, 0)
  }

  /** The job `x` depends on `y`, both can be active together, and `y` is no direct successor of the first job. */
  ghost predicate Hidden(gen: Generator, es: seq<int>, lf: seq<int>, table: seq<seq<int>>, x: nat, y: nat)
    requires |es| == |lf| == gen.N() && ExactTable(gen.instance.graph, table)
  {
    && x < gen.N() && y < gen.N() && x != y && !Seeded(gen, y)
    && ExactRow(gen.instance.graph, y, table[y])
    && table[y][x] != NO_PATH && MayMeet(gen.instance, es, lf, table[y], x, y)
  }

  lemma PrecedesExactlyIf(g: LagGraph, row: seq<int>, x: nat, y: nat)
    requires g.WellFormed() && ExactRow(g, y, row) && x < |row| && x != y
    ensures g.Precedes(y, x) <==> row[x] != NO_PATH
  {
    assert Exact(g, y, row[x], x);
    if p :| g.IsPath(y, p, x) {
      assert p != Empty;
    }
  }

  lemma PairOfHidden(gen: Generator, es: seq<int>, lf: seq<int>, table: seq<seq<int>>, x: nat, y: nat)
    requires gen.instance.graph.NonNegativeLags() && ExactTable(gen.instance.graph, table)
    requires LeastStart(gen.instance, es) && GreatestFinish(gen.instance, lf) && Hidden(gen, es, lf, table, x, y)
    ensures CanBeTogether(gen.instance, x, y)
    ensures (x, y) !in PairsFrom(gen, 0) && (y, x) !in PairsFrom(gen, 0)
  {
    TogetherExactlyIf(gen.instance, es, lf, table[y], x, y);
    PrecedesExactlyIf(gen.instance.graph, table[y], x, y);
    AncestorsAreEarlier(gen, y, x);
    EnumeratedPairs(gen);
  }

  lemma PairNotHidden(gen: Generator, es: seq<int>, lf: seq<int>, table: seq<seq<int>>, x: nat, y: nat)
    requires gen.instance.graph.NonNegativeLags() && ExactTable(gen.instance.graph, table)
    requires LeastStart(gen.instance, es) && GreatestFinish(gen.instance, lf)
    requires x < gen.N() && y < gen.N() && x != y && CanBeTogether(gen.instance, x, y)
    requires gen.dfsIndex[y] < gen.dfsIndex[x] && !Hidden(gen, es, lf, table, x, y)
    ensures (x, y) in PairsFrom(gen, 0)
  {
    var s: seq<int>, t: int :| TogetherAt(gen.instance, s, x, y, t);
    TogetherIsYieldedExactlyIf(gen, s, x, y, t);
    assert ExactRow(gen.instance.graph, y, table[y]);
    PrecedesExactlyIf(gen.instance.graph, table[y], x, y);
    if table[y][x] != NO_PATH {
      TogetherExactlyIf(gen.instance, es, lf, table[y], x, y);
    }
  }

  /** The generator misses nothing exactly if no pair is hidden. */
  lemma MissesNothingExactlyIf(gen: Generator, es: seq<int>, lf: seq<int>, table: seq<seq<int>>)
    requires gen.instance.graph.NonNegativeLags() && ExactTable(gen.instance.graph, table)
    requires LeastStart(gen.instance, es) && GreatestFinish(gen.instance, lf)
    ensures MissesNothing(gen) <==> forall x: nat, y: nat :: !Hidden(gen, es, lf, table, x, y)
  {
    forall x: nat, y: nat | Hidden(gen, es, lf, table, x, y)
      ensures !MissesNothing(gen)
    {
      PairOfHidden(gen, es, lf, table, x, y);
    }
    if forall x: nat, y: nat :: !Hidden(gen, es, lf, table, x, y) {
      forall x: nat, y: nat | x < gen.N() && y < gen.N() && x != y && CanBeTogether(gen.instance, x, y)
        ensures (x, y) in PairsFrom(gen, 0) || (y, x) in PairsFrom(gen, 0)
      {
        assert gen.dfs[gen.dfsIndex[x]] == x && gen.dfs[gen.dfsIndex[y]] == y;
        if gen.dfsIndex[y] < gen.dfsIndex[x] {
          PairNotHidden(gen, es, lf, table, x, y);
        } else {
          TogetherIsSymmetric(gen.instance, x, y);
          PairNotHidden(gen, es, lf, table, y, x);
        }
      }
    }
  }

  lemma TogetherIsSymmetric(inst: Instance, x: nat, y: nat)
    requires inst.Valid() && CanBeTogether(inst, x, y)
    ensures CanBeTogether(inst, y, x)
  {
    var s: seq<int>, t: int :| TogetherAt(inst, s, x, y, t);
    assert TogetherAt(inst, s, y, x, t);
  }
}
