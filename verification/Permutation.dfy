/** In-place application of a permutation by following its cycles. */
module Permutations {
  import opened Seqs

  /** The cycle through `i` as far as it has been followed. */
  ghost predicate Trail(indices: seq<nat>, settled: set<nat>, path: seq<nat>, i: nat) {
    && path != [] && path[0] == i
    && Distinct(path) && Below(path, |indices|)
    && (forall j :: 0 <= j < |path| - 1 ==> indices[path[j]] == path[j + 1])
    && (forall j :: 0 <= j < |path| ==> path[j] !in settled)
  }

  /** The trail without its end. */
  ghost function Front(path: seq<nat>): (r: seq<nat>)
    requires path != []
  {
    path[..|path| - 1]
  }

  /** The trail without either end. */
  ghost function Inner(path: seq<nat>): (r: seq<nat>)
    requires path != []
  {
    if |path| == 1 then [] else Front(path)[1..]
  }

  /** The settled positions are made up of whole cycles. */
  ghost predicate Closed(indices: seq<nat>, settled: set<nat>) {
    forall x: nat :: x < |indices| ==> (x in settled <==> indices[x] in settled)
  }

  /** The next position on the cycle is new unless it is the start: nothing else leads to the positions followed. */
  lemma TrailGrows(indices: seq<nat>, settled: set<nat>, path: seq<nat>, i: nat)
    requires Permutation(indices, |indices|) && Closed(indices, settled)
    requires Trail(indices, settled, path, i) && indices[path[|path| - 1]] != i
    ensures Trail(indices, settled, path + [indices[path[|path| - 1]]], i)
  {
    var next := indices[path[|path| - 1]];
    forall j | 0 <= j < |path|
      ensures path[j] != next
    {
      if j > 0 {
        assert indices[path[j - 1]] == path[j];
      }
    }
  }

  /** Only positions of a full cycle lead to positions of the cycle. */
  lemma LeadsIntoCycle(indices: seq<nat>, settled: set<nat>, path: seq<nat>, i: nat, x: nat)
    requires Permutation(indices, |indices|) && Trail(indices, settled, path, i) && indices[path[|path| - 1]] == i
    requires x < |indices| && indices[x] in path
    ensures x in path
  {
    var j :| 0 <= j < |path| && path[j] == indices[x];
    var before := if j == 0 then path[|path| - 1] else path[j - 1];
    assert indices[before] == indices[x];
    assert before in path;
  }

  /** A cycle that has been followed back to its start can be settled. */
  lemma CycleIsClosed(indices: seq<nat>, settled: set<nat>, path: seq<nat>, i: nat, after: set<nat>)
    requires Permutation(indices, |indices|) && Closed(indices, settled)
    requires Trail(indices, settled, path, i) && indices[path[|path| - 1]] == i
    requires forall x: nat :: x in after <==> x in settled || x in path
    ensures Closed(indices, after)
  {
    forall x: nat | x < |indices|
      ensures x in after <==> indices[x] in after
    {
      if x in path {
        var j :| 0 <= j < |path| && path[j] == x;
        assert j < |path| - 1 ==> indices[path[j]] == path[j + 1];
      } else if indices[x] !in settled && indices[x] in path {
        LeadsIntoCycle(indices, settled, path, i, x);
      }
    }
  }

  /** The settled positions and the trail but for its end have their new values. */
  ghost predicate Rotated<T>(now: seq<T>, start: seq<T>, indices: seq<nat>, settled: set<nat>, path: seq<nat>)
    requires |now| == |start| == |indices| && Below(indices, |indices|) && path != []
  {
    forall x: nat :: x < |now| ==>
      now[x] == if x in settled || x in Front(path) then start[indices[x]] else start[x]
  }

  /** From the start of the cycle on, the flags are set for the settled positions and the trail but for both ends. */
  ghost predicate Flagged(done: seq<bool>, settled: set<nat>, path: seq<nat>, i: nat)
    requires path != []
  {
    forall x: nat :: i <= x < |done| ==> (done[x] <==> x in settled || x in Inner(path))
  }

  /** The settled positions have their new values, all others their old ones. */
  ghost predicate Applied<T>(now: seq<T>, start: seq<T>, indices: seq<nat>, settled: set<nat>)
    requires |now| == |start| == |indices| && Below(indices, |indices|)
  {
    forall x: nat :: x < |now| ==> now[x] == if x in settled then start[indices[x]] else start[x]
  }

  ghost predicate Marked(done: seq<bool>, settled: set<nat>, from: nat) {
    forall x: nat :: from <= x < |done| ==> (done[x] <==> x in settled)
  }

  lemma RotationEnds<T>(now: seq<T>, start: seq<T>, indices: seq<nat>, settled: set<nat>, path: seq<nat>, i: nat,
                        done: seq<bool>, after: set<nat>)
    requires Permutation(indices, |indices|) && Closed(indices, settled) && Trail(indices, settled, path, i)
    requires |now| == |start| == |indices| == |done| && indices[path[|path| - 1]] == i
    requires Rotated(now, start, indices, settled, path) && Flagged(done, settled, path, i)
    requires forall x: nat :: x in after <==> x in settled || x in path
    ensures Applied(now[path[|path| - 1] := start[i]], start, indices, after)
    ensures Marked(done[path[|path| - 1] := true], after, i + 1)
    ensures Closed(indices, after) && settled <= after && i in after
  {
    CycleIsClosed(indices, settled, path, i, after);
    InnerAndEnds(path);
    assert path[0] in path;
    AppliedAtEnd(now, start, indices, settled, path, i, after);
  }

  lemma AppliedAtEnd<T>(now: seq<T>, start: seq<T>, indices: seq<nat>, settled: set<nat>, path: seq<nat>, i: nat,
                        after: set<nat>)
    requires |now| == |start| == |indices| && Below(indices, |indices|) && Below(path, |indices|) && i < |indices|
    requires path != [] && indices[path[|path| - 1]] == i && Rotated(now, start, indices, settled, path)
    requires forall x: nat :: x in after <==> x in settled || x in path
    ensures Applied(now[path[|path| - 1] := start[i]], start, indices, after)
  {
    InnerAndEnds(path);
  }

  /** A trail consists of its inner positions and its two ends. */
  lemma InnerAndEnds(path: seq<nat>)
    requires path != []
    ensures forall x :: x in path <==> x in Front(path) || x == path[|path| - 1]
    ensures |path| > 1 ==> forall x :: x in Front(path) <==> x in Inner(path) || x == path[0]
  {
    assert path == Front(path) + [path[|path| - 1]];
    if |path| > 1 {
      assert Front(path) == [path[0]] + Inner(path);
    }
  }

  lemma RotatedOneMore<T>(now: seq<T>, start: seq<T>, indices: seq<nat>, settled: set<nat>, path: seq<nat>, i: nat,
                          done: seq<bool>, after: seq<T>, flags: seq<bool>)
    requires Permutation(indices, |indices|) && Closed(indices, settled) && Trail(indices, settled, path, i)
    requires |now| == |start| == |indices| == |done| && Rotated(now, start, indices, settled, path)
    requires Flagged(done, settled, path, i) && |path| > 1
    requires var index := path[|path| - 1];
      indices[index] != i && after == now[index := now[indices[index]]] && flags == done[index := true]
    ensures Rotated(after, start, indices, settled, path + [indices[path[|path| - 1]]])
    ensures Flagged(flags, settled, path + [indices[path[|path| - 1]]], i)
  {
    var index := path[|path| - 1];
    var next := indices[index];
    TrailGrows(indices, settled, path, i);
    var longer := path + [next];
    assert Front(longer) == path;
    assert forall j :: 0 <= j < |path| ==> longer[j] == path[j];
    assert next !in path by {
      assert longer[|path|] == next;
    }
    assert next !in settled;
    InnerAndEnds(path);
    assert Inner(longer) == path[1..] == Inner(path) + [index];
  }

  /** Afterwards position i holds what `indices[i]` held before. */
  method ApplyPermutation<T>(container: array<T>, indices: seq<nat>)
    requires Permutation(indices, container.Length)
    modifies container
    ensures forall i :: 0 <= i < container.Length ==> container[i] == old(container[indices[i]])
  {
    ghost var start := container[..];
    var done := new bool[container.Length](_ => false);
    ghost var settled: set<nat> := {};
    var i := 0;
    while i < container.Length
      invariant 0 <= i <= container.Length && fresh(done) && done.Length == container.Length
      invariant Closed(indices, settled) && SettledBelow(settled, i)
      invariant Marked(done[..], settled, i) && Applied(container[..], start, indices, settled)
    {
      ghost var before := settled;
      if !done[i] {
        settled := Rotate(container, indices, done, i, settled, start);
      } else {
        assert done[..][i];
      }
      SettledOneMore(before, settled, i);
      i := i + 1;
    }
    AllApplied(container[..], start, indices, settled);
  }

  ghost predicate SettledBelow(settled: set<nat>, i: nat) {
    forall x: nat :: x < i ==> x in settled
  }

  lemma SettledOneMore(before: set<nat>, settled: set<nat>, i: nat)
    requires before <= settled && i in settled && SettledBelow(before, i)
    ensures SettledBelow(settled, i + 1)
  {
  }

  lemma AllApplied<T>(now: seq<T>, start: seq<T>, indices: seq<nat>, settled: set<nat>)
    requires |now| == |start| == |indices| && Below(indices, |indices|)
    requires Applied(now, start, indices, settled) && SettledBelow(settled, |now|)
    ensures forall i :: 0 <= i < |now| ==> now[i] == start[indices[i]]
  {
  }

  /** Rotates the cycle through `i`. `done[i]` itself is not set unless the cycle is trivial. */
  method Rotate<T>(container: array<T>, indices: seq<nat>, done: array<bool>, i: nat, ghost settled: set<nat>,
                   ghost start: seq<T>)
    returns (ghost after: set<nat>)
    requires Permutation(indices, container.Length) && done.Length == |start| == container.Length
    requires done as object != container
    requires i < container.Length && i !in settled && Closed(indices, settled)
    requires Marked(done[..], settled, i) && Applied(container[..], start, indices, settled)
    modifies container, done
    ensures settled <= after && i in after && Closed(indices, after)
    ensures Marked(done[..], after, i + 1) && Applied(container[..], start, indices, after)
  {
    var cpy := container[i];
    var index := indices[i];
    container[i] := container[index];
    ghost var path := if index == i then [i] else [i, index];
    while indices[index] != i
      invariant Trail(indices, settled, path, i) && index == path[|path| - 1]
      invariant |path| == 1 ==> indices[index] == i
      invariant Rotated(container[..], start, indices, settled, path)
      invariant Flagged(done[..], settled, path, i)
      decreases |indices| - |path|
    {
      ghost var now, flags := container[..], done[..];
      container[index] := container[indices[index]];
      done[index] := true;
      RotatedOneMore(now, start, indices, settled, path, i, flags, container[..], done[..]);
      TrailGrows(indices, settled, path, i);
      DistinctIsShort(path + [indices[index]], |indices|);
      path := path + [indices[index]];
      index := indices[index];
    }
    after := settled + (set x | x in path);
    RotationEnds(container[..], start, indices, settled, path, i, done[..], after);
    container[index] := cpy;
    done[index] := true;
  }
}
