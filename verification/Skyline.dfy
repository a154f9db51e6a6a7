/** The array skyline: per resource and time the usage, and for iteration an index of starts and ends. */
module Skylines {
  import opened Maybes
  import opened Numbers
  import opened Loads
  import opened EventIndex

  /** The rows hold the load of every resource at every time. */
  ghost predicate Agrees(jobs: seq<Job>, resources: nat, horizon: nat, placement: Placement, usage: seq<seq<real>>)
    requires |placement| == |jobs| && Uses(jobs, resources)
  {
    && |usage| == resources
    && forall r: nat :: r < resources ==> RowAgrees(jobs, horizon, placement, usage[r], r)
  }

  ghost predicate RowAgrees(jobs: seq<Job>, horizon: nat, placement: Placement, row: seq<real>, r: nat)
    requires |placement| == |jobs| && forall j :: 0 <= j < |jobs| ==> r < |jobs[j].usage|
  {
    |row| == horizon && forall t: nat :: t < horizon ==> row[t] == Load(jobs, placement, r, t)
  }

  /** The usage is determined by the placement. */
  lemma UsageIsDetermined(jobs: seq<Job>, resources: nat, horizon: nat, placement: Placement,
                          a: seq<seq<real>>, b: seq<seq<real>>)
    requires |placement| == |jobs| && Uses(jobs, resources)
    requires Agrees(jobs, resources, horizon, placement, a) && Agrees(jobs, resources, horizon, placement, b)
    ensures a == b
  {
    forall r: nat | r < resources
      ensures a[r] == b[r]
    {
      assert RowAgrees(jobs, horizon, placement, a[r], r) && RowAgrees(jobs, horizon, placement, b[r], r);
    }
  }

  /** Adds `u` to the entries from `from` up to `to`. */
  method AddStrip(row: seq<real>, from: nat, to: nat, u: real) returns (after: seq<real>)
    requires from < to ==> to <= |row|
    ensures |after| == |row|
    ensures forall t :: 0 <= t < |row| ==> after[t] == row[t] + if from <= t < to then u else 0.0
  {
    after := row;
    var s := from;
    while s < to
      invariant from <= s && |after| == |row|
      invariant forall t :: 0 <= t < |row| ==> after[t] == row[t] + if from <= t < to && t < s then u else 0.0
    {
      after := after[s := after[s] + u];
      s := s + 1;
    }
  }

  class ArraySkyline {
    const jobs: seq<Job>
    const resources: nat
    const supportIt: bool
    const horizon: nat
    var usage: seq<seq<real>>
    var events: seq<seq<Event>>
    var startTimes: seq<nat>

    // Where the jobs are that are present.
    ghost var placement: Placement

    /** The starts are recorded, and the events of all present jobs indexed. */
    ghost predicate Valid()
      reads this`startTimes, this`placement, this`events
    {
      && Uses(jobs, resources)
      && |placement| == |startTimes| == |jobs|
      && (forall j :: 0 <= j < |jobs| && placement[j].Valid() ==> startTimes[j] == placement[j].value)
      && (forall j :: 0 <= j < |jobs| && placement[j].Valid() ==> Fits(j, placement[j].value))
      && (supportIt ==> |events| == horizon && Matches(jobs, resources, placement, events))
    }

    /** A job fits in before the end of the arrays; its end event needs a slot of its own. */
    ghost predicate Fits(jid: nat, pos: nat)
      requires jid < |jobs|
    {
      if supportIt then pos + jobs[jid].duration < horizon else pos + jobs[jid].duration <= horizon
    }

    /** The job never uses anything. */
    ghost predicate Weightless(jid: nat)
      requires jid < |jobs| && Uses(jobs, resources)
    {
      jobs[jid].duration == 0 || forall r :: 0 <= r < resources ==> jobs[jid].usage[r] == 0.0
    }

    /** The usage array agrees with the loads of the present jobs. */
    ghost predicate Exact()
      requires Valid()
      reads this`startTimes, this`placement, this`events, this`usage
    {
      Agrees(jobs, resources, horizon, placement, usage)
    }

    constructor (jobs: seq<Job>, resources: nat, supportIt: bool)
      requires Uses(jobs, resources)
      ensures Valid() && Exact()
      ensures this.jobs == jobs && this.resources == resources && this.supportIt == supportIt
      ensures startTimes == seq(|jobs|, _ => 0)
      ensures forall j :: 0 <= j < |jobs| ==> jobs[j].deadline <= horizon && placement[j] == Nothing
      ensures horizon == 0 || exists j :: 0 <= j < |jobs| && horizon == jobs[j].deadline
    {
      this.jobs := jobs;
      this.resources := resources;
      this.supportIt := supportIt;
      var maxDeadline: nat := 0;
      var jid := 0;
      while jid < |jobs|
        invariant 0 <= jid <= |jobs|
        invariant forall j :: 0 <= j < jid ==> jobs[j].deadline <= maxDeadline
        invariant maxDeadline == 0 || exists j :: 0 <= j < jid && maxDeadline == jobs[j].deadline
      {
        if jobs[jid].deadline > maxDeadline {
          maxDeadline := jobs[jid].deadline;
        }
        jid := jid + 1;
      }
      horizon := maxDeadline;
      usage := seq(resources, _ => seq(maxDeadline, _ => 0.0));
      events := if supportIt then seq(maxDeadline, _ => []) else [];
      startTimes := seq(|jobs|, _ => 0);
      placement := seq(|jobs|, _ => Nothing);
      new;
      forall r: nat, t: nat | r < this.resources
        ensures Load(this.jobs, placement, r, t) == Turns(this.jobs, placement, r, t) == 0.0
      {
        NothingPlaced(this.jobs, placement, r, t);
      }
    }

    /** A job that is absent enters at `pos`. */
    method InsertJob(jid: nat, pos: nat)
      requires Valid() && Exact()
      requires jid < |jobs| && placement[jid] == Nothing && Fits(jid, pos)
      modifies this
      ensures Valid() && Exact() && placement == old(placement)[jid := Just(pos)]
      ensures startTimes == old(startTimes)[jid := pos]
    {
      var job := jobs[jid];
      startTimes := startTimes[jid := pos];
      var rid := 0;
      while rid < resources
        invariant 0 <= rid <= resources && |usage| == resources
        invariant forall r: nat :: r < rid ==> RowAgrees(jobs, horizon, placement[jid := Just(pos)], usage[r], r)
        invariant forall r: nat :: rid <= r < resources ==> RowAgrees(jobs, horizon, placement, usage[r], r)
        modifies this`usage
      {
        var row := AddStrip(usage[rid], pos, pos + job.duration, job.usage[rid]);
        RowAfterMove(jobs, horizon, placement, jid, Just(pos), usage[rid], row, rid);
        usage := usage[rid := row];
        rid := rid + 1;
      }
      if supportIt {
        var after := Enter(events, jid, pos, job.duration, jobs, resources, placement);
        events := after;
      }
      placement := placement[jid := Just(pos)];
    }

    /** Where the end of a job is looked for when it is removed: at the start time of the job whose number is larger by
        the duration. There need not be such a job. */
    predicate EndInRange(jid: nat)
      requires jid < |jobs|
      reads this`startTimes
    {
      var other := jid + jobs[jid].duration;
      other < |startTimes| && startTimes[other] < horizon
    }

    /** A job that is present leaves. With iteration, `inRange` says whether the place of its end is within the arrays;
        outside them the program's behaviour is undefined. The index is right afterwards only if the place is, too. */
    method RemoveJob(jid: nat) returns (inRange: bool)
      requires Valid() && Exact()
      requires jid < |jobs| && placement[jid].Valid()
      modifies this`usage, this`events, this`placement
      ensures placement == old(placement)[jid := Nothing] && Agrees(jobs, resources, horizon, placement, usage)
      ensures inRange <==>
        (supportIt ==> jid + jobs[jid].duration < |jobs| && startTimes[jid + jobs[jid].duration] < horizon)
      ensures supportIt && inRange ==>
        Removed(jid, startTimes[jid], startTimes[jid + jobs[jid].duration], old(events), events)
      ensures inRange ==>
        (Valid() <==> !supportIt || startTimes[jid + jobs[jid].duration] == startTimes[jid] + jobs[jid].duration)
    {
      var job := jobs[jid];
      var rid := 0;
      while rid < resources
        invariant 0 <= rid <= resources && |usage| == resources
        invariant forall r: nat :: r < rid ==> RowAgrees(jobs, horizon, placement[jid := Nothing], usage[r], r)
        invariant forall r: nat :: rid <= r < resources ==> RowAgrees(jobs, horizon, placement, usage[r], r)
        modifies this`usage
      {
        var row := AddStrip(usage[rid], startTimes[jid], startTimes[jid] + job.duration, 0.0 - job.usage[rid]);
        RowAfterMove(jobs, horizon, placement, jid, Nothing, usage[rid], row, rid);
        usage := usage[rid := row];
        rid := rid + 1;
      }
      inRange := !supportIt || EndInRange(jid);
      if supportIt && inRange {
        var after := Leave(events, jid, startTimes[jid], startTimes[jid + job.duration], jobs, resources, placement);
        events := after;
      }
      placement := placement[jid := Nothing];
    }

    /** A job that is present moves to `pos`. Only a move to the left updates the usage: it adds the strip that is
        new on the left and takes away the strip that is left behind on the right. After a move to the right the usage
        is wrong unless there is nothing to move. */
    method SetPos(jid: nat, pos: nat)
      requires Valid() && Exact()
      requires jid < |jobs| && placement[jid].Valid() && Fits(jid, pos)
      modifies this
      ensures Valid() && placement == old(placement)[jid := Just(pos)]
      ensures startTimes == old(startTimes)[jid := pos]
      ensures Exact() <==> pos <= old(placement)[jid].value || Weightless(jid)
      ensures pos >= old(placement)[jid].value ==> usage == old(usage)
    {
      var job := jobs[jid];
      var start := startTimes[jid];
      if pos < start {
        var rid := 0;
        while rid < resources
          invariant 0 <= rid <= resources && |usage| == resources
          invariant forall r: nat :: r < rid ==> RowAgrees(jobs, horizon, placement[jid := Just(pos)], usage[r], r)
          invariant forall r: nat :: rid <= r < resources ==> RowAgrees(jobs, horizon, placement, usage[r], r)
          modifies this`usage
        {
          var u := job.usage[rid];
          var added := AddStrip(usage[rid], pos, Min(pos + job.duration, start), u);
          var row := AddStrip(added, Max(start, pos + job.duration), start + job.duration, 0.0 - u);
          RowAfterMove(jobs, horizon, placement, jid, Just(pos), usage[rid], row, rid);
          usage := usage[rid := row];
          rid := rid + 1;
        }
      }
      if supportIt {
        var without := Leave(events, jid, start, start + job.duration, jobs, resources, placement);
        var after := Enter(without, jid, pos, job.duration, jobs, resources, placement[jid := Nothing]);
        assert placement[jid := Nothing][jid := Just(pos)] == placement[jid := Just(pos)];
        events := after;
      }
      if pos >= start {
        RightwardMoveExactlyIf(jobs, resources, horizon, placement, jid, pos, usage);
      }
      startTimes := startTimes[jid := pos];
      placement := placement[jid := Just(pos)];
    }

    /** The largest usage of every resource between `l` and `r`, and at least 0. */
    method GetMaximum(l: nat, r: nat) returns (maxUsage: seq<real>)
      requires Valid() && Exact() && r <= horizon
      ensures |maxUsage| == resources
      ensures forall rid: nat :: rid < resources ==> IsPeak(jobs, placement, rid, l, r, maxUsage[rid])
    {
      maxUsage := seq(resources, _ => 0.0);
      var rid := 0;
      while rid < resources
        invariant 0 <= rid <= resources && |maxUsage| == resources
        invariant forall q: nat :: q < rid ==> IsMaximum(usage[q], l, r, maxUsage[q])
        invariant forall q: nat :: rid <= q < resources ==> maxUsage[q] == 0.0
      {
        assert RowAgrees(jobs, horizon, placement, usage[rid], rid);
        var m := RowMaximum(usage[rid], l, r);
        maxUsage := maxUsage[rid := m];
        rid := rid + 1;
      }
      forall q: nat | q < resources
        ensures IsPeak(jobs, placement, q, l, r, maxUsage[q])
      {
        assert RowAgrees(jobs, horizon, placement, usage[q], q);
        assert IsMaximum(usage[q], l, r, maxUsage[q]);
        PeakOfRow(jobs, horizon, placement, usage[q], q, l, r, maxUsage[q]);
      }
    }
  }

  /** The largest load between two times, and at least 0. */
  ghost predicate IsPeak(jobs: seq<Job>, placement: Placement, rid: nat, l: nat, r: nat, m: real)
    requires |placement| == |jobs| && forall j :: 0 <= j < |jobs| ==> rid < |jobs[j].usage|
  {
    && (forall t: nat :: l <= t < r ==> Load(jobs, placement, rid, t) <= m)
    && (m == 0.0 || (m > 0.0 && exists t: nat :: l <= t < r && m == Load(jobs, placement, rid, t)))
  }

  lemma PeakOfRow(jobs: seq<Job>, horizon: nat, placement: Placement, row: seq<real>, rid: nat, l: nat, r: nat, m: real)
    requires |placement| == |jobs| && forall j :: 0 <= j < |jobs| ==> rid < |jobs[j].usage|
    requires RowAgrees(jobs, horizon, placement, row, rid) && IsMaximum(row, l, r, m)
    ensures IsPeak(jobs, placement, rid, l, r, m)
  {
    if m != 0.0 {
      var t: nat :| l <= t < r && m == row[t];
      assert m == Load(jobs, placement, rid, t);
    }
  }

  ghost predicate IsMaximum(row: seq<real>, l: nat, r: nat, m: real)
  {
    && r <= |row|
    && (forall t: nat :: l <= t < r ==> row[t] <= m)
    && (m == 0.0 || (m > 0.0 && exists t: nat :: l <= t < r && m == row[t]))
  }

  method RowMaximum(row: seq<real>, l: nat, r: nat) returns (m: real)
    requires r <= |row|
    ensures IsMaximum(row, l, r, m)
  {
    m := 0.0;
    var s := l;
    while s < r
      invariant l <= s && (s <= r || s == l)
      invariant l <= r ==> IsMaximum(row, l, s, m)
      invariant l > r ==> m == 0.0
    {
      if row[s] > m {
        m := row[s];
      }
      s := s + 1;
    }
  }

  lemma RowAfterMove(jobs: seq<Job>, horizon: nat, placement: Placement, jid: nat, at: Maybe<nat>,
                     row: seq<real>, after: seq<real>, r: nat)
    requires |placement| == |jobs| && (forall j :: 0 <= j < |jobs| ==> r < |jobs[j].usage|) && jid < |jobs|
    requires RowAgrees(jobs, horizon, placement, row, r) && |after| == horizon
    requires forall t :: 0 <= t < horizon ==>
      after[t] == row[t] - Share(jobs[jid], placement[jid], r, t) + Share(jobs[jid], at, r, t)
    ensures RowAgrees(jobs, horizon, placement[jid := at], after, r)
  {
    forall t: nat | t < horizon
      ensures after[t] == Load(jobs, placement[jid := at], r, t)
    {
      LoadAfterMove(jobs, placement, jid, at, r, t);
    }
  }

  /** The tree skyline: an interval tree over those nodes whose jobs are present. Of the tree, only the contract is
      modelled: at every time it combines the usages of its nodes. */
  class TreeSkyline {
    const jobs: seq<Job>
    const resources: nat
    var starts: seq<nat>
    var tree: set<nat>

    ghost predicate Valid()
      reads this
    {
      Uses(jobs, resources) && |starts| == |jobs| && forall jid :: jid in tree ==> jid < |jobs|
    }

    ghost function Placed(): (placement: Placement)
      requires Valid()
      reads this
    {
      seq(|jobs|, jid requires 0 <= jid < |starts| reads this => if jid in tree then Just(starts[jid]) else Nothing)
    }

    constructor (jobs: seq<Job>, resources: nat)
      requires Uses(jobs, resources)
      ensures Valid() && tree == {} && this.jobs == jobs && this.resources == resources
    {
      this.jobs := jobs;
      this.resources := resources;
      starts := seq(|jobs|, _ => 0);
      tree := {};
    }

    method RemoveJob(jid: nat)
      requires Valid() && jid < |jobs| && Placed()[jid].Valid()
      modifies this`tree
      ensures Valid() && Placed() == old(Placed())[jid := Nothing]
    {
      tree := tree - {jid};
    }

    method InsertJob(jid: nat, pos: nat)
      requires Valid() && jid < |jobs| && Placed()[jid] == Nothing
      modifies this
      ensures Valid() && Placed() == old(Placed())[jid := Just(pos)]
    {
      starts := starts[jid := pos];
      tree := tree + {jid};
    }

    /** The reference: a move is a removal and an insertion. */
    method SetPos(jid: nat, pos: nat)
      requires Valid() && jid < |jobs| && Placed()[jid].Valid()
      modifies this
      ensures Valid() && Placed() == old(Placed())[jid := Just(pos)]
    {
      RemoveJob(jid);
      InsertJob(jid, pos);
    }
  }

  /** The array skyline that patches two strips agrees with the tree skyline that removes and inserts, whether or not
      the old and the new place of the job overlap. */
  method MoveAgrees(moved: ArraySkyline, reference: TreeSkyline, jid: nat, pos: nat)
    requires moved.Valid() && moved.Exact() && reference.Valid() && moved.placement == reference.Placed()
    requires moved.jobs == reference.jobs && moved.resources == reference.resources
    requires jid < |moved.jobs| && moved.placement[jid].Valid() && moved.Fits(jid, pos)
    requires pos <= moved.placement[jid].value
    modifies moved, reference
    ensures moved.Valid() && reference.Valid() && moved.placement == reference.Placed()
    ensures reference.Placed() == old(reference.Placed())[jid := Just(pos)]
    ensures Agrees(reference.jobs, reference.resources, moved.horizon, reference.Placed(), moved.usage)
  {
    moved.SetPos(jid, pos);
    reference.SetPos(jid, pos);
  }

  /** The same reference on the array skyline. */
  method MoveByReinsertion(sl: ArraySkyline, jid: nat, pos: nat)
    requires sl.Valid() && sl.Exact() && !sl.supportIt
    requires jid < |sl.jobs| && sl.placement[jid].Valid() && sl.Fits(jid, pos)
    modifies sl
    ensures sl.Valid() && sl.Exact() && sl.placement == old(sl.placement)[jid := Just(pos)]
  {
    var _ := sl.RemoveJob(jid);
    sl.InsertJob(jid, pos);
  }

  /** On the array skyline as well, patching two strips leaves the usage that removal and insertion leave. */
  method MoveEqualsReinsertion(moved: ArraySkyline, reference: ArraySkyline, jid: nat, pos: nat)
    requires moved != reference && moved.Valid() && moved.Exact() && reference.Valid() && reference.Exact()
    requires !reference.supportIt && moved.placement == reference.placement
    requires moved.jobs == reference.jobs && moved.resources == reference.resources
    requires moved.horizon == reference.horizon
    requires jid < |moved.jobs| && moved.placement[jid].Valid() && moved.Fits(jid, pos)
    requires pos <= moved.placement[jid].value
    modifies moved, reference
    ensures moved.usage == reference.usage && moved.placement == reference.placement
  {
    moved.SetPos(jid, pos);
    MoveByReinsertion(reference, jid, pos);
    UsageIsDetermined(moved.jobs, moved.resources, moved.horizon, moved.placement, moved.usage, reference.usage);
  }

  /** When the usage does not change, a move is right exactly if the job goes nowhere, or never had any usage:
      that is what happens to a move to the right. */
  lemma RightwardMoveExactlyIf(jobs: seq<Job>, resources: nat, horizon: nat, placement: Placement, jid: nat, pos: nat,
                               usage: seq<seq<real>>)
    requires |placement| == |jobs| && Uses(jobs, resources) && jid < |jobs| && placement[jid].Valid()
    requires placement[jid].value <= pos && pos + jobs[jid].duration <= horizon
    requires Agrees(jobs, resources, horizon, placement, usage)
    ensures Agrees(jobs, resources, horizon, placement[jid := Just(pos)], usage) <==>
      pos == placement[jid].value || jobs[jid].duration == 0 ||
      forall r :: 0 <= r < resources ==> jobs[jid].usage[r] == 0.0
  {
    var start := placement[jid].value;
    if pos == start || jobs[jid].duration == 0 || forall r :: 0 <= r < resources ==> jobs[jid].usage[r] == 0.0 {
      forall r: nat | r < resources
        ensures RowAgrees(jobs, horizon, placement[jid := Just(pos)], usage[r], r)
      {
        assert RowAgrees(jobs, horizon, placement, usage[r], r);
        RowAfterMove(jobs, horizon, placement, jid, Just(pos), usage[r], usage[r], r);
      }
    } else {
      var r: nat :| r < resources && jobs[jid].usage[r] != 0.0;
      assert RowAgrees(jobs, horizon, placement, usage[r], r);
      LoadAfterMove(jobs, placement, jid, Just(pos), r, start);
      assert usage[r][start] != Load(jobs, placement[jid := Just(pos)], r, start);
      assert !RowAgrees(jobs, horizon, placement[jid := Just(pos)], usage[r], r);
    }
  }

  /** A job of length 1 that moves from time 0 to time 1 and leaves its usage behind. */
  lemma RightwardMoveFails(jobs: seq<Job>, placement: Placement, usage: seq<seq<real>>)
    requires jobs == [Job(3, 1, [1.0])] && placement == [Just(0)] && usage == [[1.0, 0.0, 0.0]]
    ensures Agrees(jobs, 1, 3, placement, usage) && !Agrees(jobs, 1, 3, placement[0 := Just(1)], usage)
  {
    assert forall t: nat :: t < 3 ==> Load(jobs, placement, 0, t) == Share(jobs[0], placement[0], 0, t);
    assert RowAgrees(jobs, 3, placement, usage[0], 0);
    RightwardMoveExactlyIf(jobs, 1, 3, placement, 0, 1, usage);
    assert jobs[0].usage[0] != 0.0;
  }

  /** Two jobs of length 1 that start together; when the first is removed, its end stays in the index. */
  method RemovalFails() returns (sl: ArraySkyline)
    ensures sl.supportIt && |sl.placement| == 2 && sl.placement[0] == Nothing && !sl.Valid()
  {
    var job := Job(3, 1, [1.0]);
    sl := new ArraySkyline([job, job], 1, true);
    assert sl.jobs[0] == sl.jobs[1] == job;
    sl.InsertJob(0, 0);
    sl.InsertJob(1, 0);
    var _ := sl.RemoveJob(0);
  }

  /** A single job; its end is looked for at the start time of a job that does not exist. */
  method RemovalLeavesRange() returns (sl: ArraySkyline, inRange: bool)
    ensures |sl.jobs| == 1 && sl.supportIt && !inRange
  {
    sl := new ArraySkyline([Job(3, 1, [1.0])], 1, true);
    sl.InsertJob(0, 0);
    inRange := sl.RemoveJob(0);
  }

  // ---------- whole runs ----------

  datatype Change = Inserting(jid: nat, pos: nat) | Removing(jid: nat) | Moving(jid: nat, pos: nat)

  /** Absent jobs are inserted, present ones removed or moved to the left; with iteration none is removed. */
  ghost predicate Allowed(sl: ArraySkyline, placement: Placement, c: Change) {
    && c.jid < |placement| == |sl.jobs|
    && match c
       case Inserting(jid, pos) => placement[jid] == Nothing && sl.Fits(jid, pos)
       case Removing(jid) => placement[jid].Valid() && !sl.supportIt
       case Moving(jid, pos) => placement[jid].Valid() && pos <= placement[jid].value && sl.Fits(jid, pos)
  }

  ghost function After(placement: Placement, c: Change): (after: Placement)
    requires c.jid < |placement|
    ensures |after| == |placement|
  {
    placement[c.jid := if c.Removing? then Nothing else Just(c.pos)]
  }

  ghost predicate AllAllowed(sl: ArraySkyline, placement: Placement, changes: seq<Change>)
    decreases |changes|
  {
    changes == [] ||
    (Allowed(sl, placement, changes[0]) && AllAllowed(sl, After(placement, changes[0]), changes[1..]))
  }

  /** Where a history leaves the jobs. */
  ghost function AfterAll(sl: ArraySkyline, placement: Placement, changes: seq<Change>): (after: Placement)
    requires |placement| == |sl.jobs| && AllAllowed(sl, placement, changes)
    ensures |after| == |placement|
    decreases |changes|
  {
    if changes == [] then placement else AfterAll(sl, After(placement, changes[0]), changes[1..])
  }

  method Perform(sl: ArraySkyline, c: Change)
    requires sl.Valid() && sl.Exact() && Allowed(sl, sl.placement, c)
    modifies sl
    ensures sl.Valid() && sl.Exact() && sl.placement == After(old(sl.placement), c)
  {
    match c
    case Inserting(jid, pos) => sl.InsertJob(jid, pos);
    case Removing(jid) => var _ := sl.RemoveJob(jid);
    case Moving(jid, pos) => sl.SetPos(jid, pos);
  }

  /** After any history the usage is the load of the jobs where the history left them, and with iteration the event
      index lists exactly their starts and ends. */
  method Run(sl: ArraySkyline, changes: seq<Change>)
    requires sl.Valid() && sl.Exact() && AllAllowed(sl, sl.placement, changes)
    modifies sl
    ensures sl.Valid() && sl.placement == AfterAll(sl, old(sl.placement), changes)
    ensures Agrees(sl.jobs, sl.resources, sl.horizon, AfterAll(sl, old(sl.placement), changes), sl.usage)
    ensures sl.supportIt ==>
      Matches(sl.jobs, sl.resources, AfterAll(sl, old(sl.placement), changes), sl.events)
  {
    var i := 0;
    assert changes[0..] == changes;
    while i < |changes|
      invariant 0 <= i <= |changes| && sl.Valid() && sl.Exact()
      invariant AllAllowed(sl, sl.placement, changes[i..])
      invariant AfterAll(sl, sl.placement, changes[i..]) == AfterAll(sl, old(sl.placement), changes)
    {
      assert changes[i..][1..] == changes[i + 1..];
      Perform(sl, changes[i]);
      i := i + 1;
    }
  }
}
