/** Jobs placed on a time line, and the load they put on the resources. */
module Loads {
  import opened Maybes

  datatype Job = Job(deadline: nat, duration: nat, usage: seq<real>)

  /** For every job where it starts, if it is present. */
  type Placement = seq<Maybe<nat>>

  ghost predicate Uses(jobs: seq<Job>, resources: nat) {
    forall j :: 0 <= j < |jobs| ==> |jobs[j].usage| == resources
  }

  /** What one job contributes to a resource at time `t`. */
  ghost function Share(job: Job, at: Maybe<nat>, r: nat, t: int): (share: real)
    requires r < |job.usage|
  {
    if at.Valid() && at.value <= t < at.value + job.duration then job.usage[r] else 0.0
  }

  /** What starts minus what ends at time `t`. */
  ghost function Turn(job: Job, at: Maybe<nat>, r: nat, t: int): (result: real)
    requires r < |job.usage|
  {
    (if at == Just(t) then job.usage[r] else 0.0) -
    if at.Valid() && at.value + job.duration == t then job.usage[r] else 0.0
  }

  /** The load of a resource at time `t`: the usages of all present jobs that cover `t`. */
  ghost function Load(jobs: seq<Job>, placement: Placement, r: nat, t: int): (load: real)
    requires |placement| == |jobs| && forall j :: 0 <= j < |jobs| ==> r < |jobs[j].usage|
  {
    if jobs == [] then 0.0
    else
      var n := |jobs| - 1;
      Load(jobs[..n], placement[..n], r, t) + Share(jobs[n], placement[n], r, t)
  }

  ghost function Turns(jobs: seq<Job>, placement: Placement, r: nat, t: int): (result: real)
    requires |placement| == |jobs| && forall j :: 0 <= j < |jobs| ==> r < |jobs[j].usage|
  {
    if jobs == [] then 0.0
    else
      var n := |jobs| - 1;
      Turns(jobs[..n], placement[..n], r, t) + Turn(jobs[n], placement[n], r, t)
  }

  /** Moving one job changes the load by its own contribution. */
  lemma {:induction false} LoadAfterMove(jobs: seq<Job>, placement: Placement, j: nat, at: Maybe<nat>, r: nat, t: int)
    requires |placement| == |jobs| && (forall i :: 0 <= i < |jobs| ==> r < |jobs[i].usage|) && j < |jobs|
    ensures Load(jobs, placement[j := at], r, t) ==
      Load(jobs, placement, r, t) - Share(jobs[j], placement[j], r, t) + Share(jobs[j], at, r, t)
    ensures Turns(jobs, placement[j := at], r, t) ==
      Turns(jobs, placement, r, t) - Turn(jobs[j], placement[j], r, t) + Turn(jobs[j], at, r, t)
    decreases |jobs|
  {
    var n := |jobs| - 1;
    if j == n {
      assert placement[j := at][..n] == placement[..n];
    } else {
      assert placement[j := at][..n] == placement[..n][j := at];
      LoadAfterMove(jobs[..n], placement[..n], j, at, r, t);
    }
  }

  /** From one time to the next the load changes by what starts and ends. */
  lemma {:induction false} LoadStep(jobs: seq<Job>, placement: Placement, r: nat, t: nat)
    requires |placement| == |jobs| && forall i :: 0 <= i < |jobs| ==> r < |jobs[i].usage|
    ensures Load(jobs, placement, r, t) == Load(jobs, placement, r, t - 1) + Turns(jobs, placement, r, t)
    decreases |jobs|
  {
    if jobs == [] {
    } else {
      LoadStep(jobs[..|jobs| - 1], placement[..|jobs| - 1], r, t);
    }
  }

  /** Nothing is active before time 0. */
  lemma {:induction false} NoLoadBefore(jobs: seq<Job>, placement: Placement, r: nat)
    requires |placement| == |jobs| && forall i :: 0 <= i < |jobs| ==> r < |jobs[i].usage|
    ensures Load(jobs, placement, r, -1) == 0.0
    decreases |jobs|
  {
    if jobs == [] {
    } else {
      NoLoadBefore(jobs[..|jobs| - 1], placement[..|jobs| - 1], r);
    }
  }

  lemma {:induction false} NothingPlaced(jobs: seq<Job>, placement: Placement, r: nat, t: int)
    requires |placement| == |jobs| && forall i :: 0 <= i < |jobs| ==> r < |jobs[i].usage|
    requires forall j :: 0 <= j < |placement| ==> placement[j] == Nothing
    ensures Load(jobs, placement, r, t) == Turns(jobs, placement, r, t) == 0.0
    decreases |jobs|
  {
    if jobs == [] {
    } else {
      NothingPlaced(jobs[..|jobs| - 1], placement[..|jobs| - 1], r, t);
    }
  }
}
