/** A stack of level sets that is kept in step with the jobs stored over time. */
module LevelTrees {
  import opened Maybes
  import opened Numbers
  import opened IntervalRunner
  import opened Intervals
  import opened IntervalMaps

  /** A change of the level over an interval: before and after. */
  type Shift = (nat, nat)

  /** A profile holds for every piece its level and its amount. */
  type Profile = seq<Piece<(nat, real)>>

  ghost function LevelIn(profile: Profile, t: nat): (level: nat) {
    var m := ValueAt(profile, t);
    if m.Valid() then m.value.0 else 0
  }

  /** The change at time `t` between two profiles. */
  ghost function ShiftAt(oldp: Profile, newp: Profile, t: nat): (r: Maybe<Shift>) {
    var before, after := LevelIn(oldp, t), LevelIn(newp, t);
    if before != after then Just((before, after)) else Nothing
  }

  /** What a change does to the membership in the k-th level set. */
  ghost predicate Shifted(shift: Maybe<Shift>, k: nat, was: bool) {
    if !shift.Valid() then was
    else
      var (before, after) := shift.value;
      if after < k <= before then false else if before < k <= after then true else was
  }

  class LevelTree {
    const getLevel: real -> nat
    const getAmount: JobSet -> real
    const levelCount: nat
    const horizon: Interval
    var content: Content
    var levels: seq<set<int>>

    constructor (getLevel: real -> nat, getAmount: JobSet -> real, levelCount: nat, horizon: Interval)
      requires levelCount > 0 && forall amount: real :: getLevel(amount) < levelCount
      ensures Valid() && content == []
      ensures this.getLevel == getLevel && this.getAmount == getAmount
      ensures this.levelCount == levelCount && this.horizon == horizon
    {
      this.getLevel := getLevel;
      this.getAmount := getAmount;
      this.levelCount := levelCount;
      this.horizon := horizon;
      content := [];
      levels := seq(levelCount, k => if k == 0 then Range(horizon.lower, horizon.upper) else {});
    }

    /** The level of a job set; where no jobs are stored, the level is 0. */
    ghost function Level(jobs: JobSet): (level: nat) {
      if jobs == {} then 0 else getLevel(getAmount(jobs))
    }

    ghost predicate Shaped()
      reads this
    {
      && Stored(content)
      && |levels| == levelCount > 0
      && forall amount: real :: getLevel(amount) < levelCount
    }

    /** The k-th level set holds the times at which the stored jobs reach level k. */
    ghost predicate Valid()
      reads this
    {
      && Shaped()
      && levels[0] == Range(horizon.lower, horizon.upper)
      && LevelsMatch(levels, content)
    }

    ghost predicate LevelsMatch(sets: seq<set<int>>, c: Content)
      requires |sets| == levelCount
    {
      forall k: nat, t: nat :: 0 < k < levelCount ==> (t in sets[k] <==> Level(JobsAt(c, t)) >= k)
    }

    /** The first piece that is not over when the query begins. */
    method FirstPiece(query: Interval) returns (it: nat)
      ensures it <= |content| && (it < |content| ==> query.lower < content[it].upper)
      ensures Profiled(query, content, it, [])
    {
      it := 0;
      while it < |content| && content[it].upper <= query.lower
        invariant 0 <= it <= |content|
        invariant forall i :: 0 <= i < it ==> content[i].upper <= query.lower
      {
        it := it + 1;
      }
      NothingBefore(query, content, it);
    }

    /** The levels and amounts over the query, piece by piece. */
    method GetProfile(query: Interval) returns (profile: Profile)
      requires Shaped() && query.lower < query.upper
      ensures Ordered(profile) && FromPieces(query, content, |content|, profile)
      ensures forall t: nat :: ValueAt(profile, t) == ProfileAt(query, content, t)
    {
      profile := [];
      var it := FirstPiece(query);
      while it != |content| && !(content[it].lower >= query.upper)
        invariant 0 <= it <= |content|
        invariant it < |content| ==> query.lower < content[it].upper
        invariant Profiled(query, content, it, profile)
      {
        var piece := ProfilePiece(query, content[it]);
        ProfileOneMore(query, content, it, profile, piece);
        profile := profile + [piece];
        it := it + 1;
      }
      NothingBehind(query, content, it, profile);
    }

    /** The level and the amount at `t`, if it lies within the query and any jobs are stored there. */
    ghost function ProfileAt(query: Interval, c: Content, t: nat): (m: Maybe<(nat, real)>) {
      var jobs := ValueAt(c, t);
      if query.lower <= t < query.upper && jobs.Valid() then
        Just((getLevel(getAmount(jobs.value)), getAmount(jobs.value)))
      else Nothing
    }

    /** The level at `t` if it lies within the query, and 0 otherwise. */
    ghost function LevelWithin(query: Interval, c: Content, t: nat): (level: nat) {
      if query.lower <= t < query.upper then Level(JobsAt(c, t)) else 0
    }

    /** The levels of a profile are those of the content. */
    lemma ProfileLevels(query: Interval, c: Content, profile: Profile)
      requires Stored(c) && forall t: nat :: ValueAt(profile, t) == ProfileAt(query, c, t)
      requires levelCount > 0 && forall amount: real :: getLevel(amount) < levelCount
      ensures forall t: nat :: LevelIn(profile, t) == LevelWithin(query, c, t) && LevelIn(profile, t) < levelCount
    {
      forall t: nat
        ensures LevelIn(profile, t) == LevelWithin(query, c, t) && LevelIn(profile, t) < levelCount
      {
        assert ValueAt(profile, t) == ProfileAt(query, c, t);
        var amount: real := getAmount(JobsAt(c, t));
        assert getLevel(amount) < levelCount;
        if Covers(c, t) {
          var i :| 0 <= i < |c| && c[i].lower <= t < c[i].upper;
          ValueOf(c, i, t);
        }
      }
    }

    /** A piece of the content, cut down to the query, with its level and amount. */
    function ProfilePiece(query: Interval, p: Piece<JobSet>): (piece: Piece<(nat, real)>) {
      var amount := getAmount(p.data);
      if query.lower <= p.lower && query.upper >= p.upper then Piece(p.lower, p.upper, (getLevel(amount), amount))
      else Piece(Max(p.lower, query.lower), Min(p.upper, query.upper), (getLevel(amount), amount))
    }

    /** Every piece of the profile is one of the first `it` pieces of the content, as far as it lies in the query. */
    ghost predicate FromPieces(query: Interval, c: Content, it: nat, profile: Profile)
      requires it <= |c|
    {
      forall j :: 0 <= j < |profile| ==> exists i :: 0 <= i < it && Cut(query, c[i], profile[j])
    }

    ghost predicate Cut(query: Interval, p: Piece<JobSet>, piece: Piece<(nat, real)>) {
      piece.lower == Max(p.lower, query.lower) && piece.upper == Min(p.upper, query.upper)
    }

    /** The profile of the first `it` pieces. */
    ghost predicate Profiled(query: Interval, c: Content, it: nat, profile: Profile)
      requires it <= |c|
    {
      && Ordered(profile) && FromPieces(query, c, it, profile)
      && (profile != [] ==> it > 0 && profile[|profile| - 1].upper <= c[it - 1].upper)
      && forall t: nat :: ValueAt(profile, t) == ProfileAt(query, c[..it], t)
    }

    lemma NothingBefore(query: Interval, c: Content, it: nat)
      requires it <= |c| && forall i :: 0 <= i < it ==> c[i].upper <= query.lower
      ensures Profiled(query, c, it, [])
    {
    }

    lemma ProfileOneMore(query: Interval, c: Content, it: nat, profile: Profile, piece: Piece<(nat, real)>)
      requires Ordered(c) && it < |c| && piece == ProfilePiece(query, c[it])
      requires query.lower < c[it].upper && c[it].lower < query.upper && query.lower < query.upper
      requires Profiled(query, c, it, profile)
      ensures Profiled(query, c, it + 1, profile + [piece])
    {
      OrderedOneMore(profile, piece);
      assert Cut(query, c[it], piece);
      assert c[..it + 1] == c[..it] + [c[it]];
      forall t: nat
        ensures ValueAt(profile + [piece], t) == ProfileAt(query, c[..it + 1], t)
      {
        ValueOneMore(profile, piece, t);
        ValueOneMore(c[..it], c[it], t);
        assert ValueAt(profile, t) == ProfileAt(query, c[..it], t);
      }
    }

    /** The pieces from `it` on start too late to matter. */
    lemma NothingBehind(query: Interval, c: Content, it: nat, profile: Profile)
      requires Ordered(c) && it <= |c| && (it < |c| ==> query.upper <= c[it].lower)
      requires Profiled(query, c, it, profile)
      ensures Ordered(profile) && FromPieces(query, c, |c|, profile)
      ensures forall t: nat :: ValueAt(profile, t) == ProfileAt(query, c, t)
    {
      forall t: nat
        ensures ValueAt(profile, t) == ProfileAt(query, c, t)
      {
        assert ValueAt(profile, t) == ProfileAt(query, c[..it], t);
        if t < query.upper {
          PrefixValue(c, it, query.upper, t);
        }
      }
    }

    /** Adds the times at which the level rises to the sets it rises to, and takes those at which it falls out of
        the sets it falls from. */
    method UpdateLevels(oldp: Profile, newp: Profile)
      requires Ordered(oldp) && Ordered(newp)
      requires forall t: nat :: LevelIn(oldp, t) < |levels| && LevelIn(newp, t) < |levels|
      modifies this`levels
      ensures |levels| == |old(levels)|
      ensures forall k: nat, t: nat :: k < |levels| ==>
        (t in levels[k] <==> Shifted(ShiftAt(oldp, newp, t), k, t in old(levels[k])))
      ensures |levels| > 0 ==> levels[0] == old(levels[0])
    {
      var changes := Changes(oldp, newp);
      var j := 0;
      while j < |changes|
        invariant 0 <= j <= |changes|
        invariant |levels| == |old(levels)|
        invariant |levels| > 0 ==> levels[0] == old(levels[0])
        invariant forall k: nat, t: nat :: k < |levels| ==>
          (t in levels[k] <==> Shifted(ValueAt(changes[..j], t), k, t in old(levels[k])))
      {
        ghost var before := levels;
        ChangeIsBounded(oldp, newp, changes, j);
        Apply(changes[j]);
        AppliedOneMore(changes, j, old(levels), before, levels);
        j := j + 1;
      }
      assert changes[..j] == changes;
    }

    /** One change, applied to one level set after the other. */
    method Apply(change: Piece<Shift>)
      requires change.data.0 < |levels| && change.data.1 < |levels|
      modifies this`levels
      ensures |levels| == |old(levels)|
      ensures |levels| > 0 ==> levels[0] == old(levels[0])
      ensures forall k: nat, t: nat :: k < |levels| ==>
        (t in levels[k] <==> Applied(change, k, t, t in old(levels[k])))
    {
      var levelBefore, levelAfter := change.data.0, change.data.1;
      var times := Range(change.lower, change.upper);
      if levelBefore > levelAfter {
        var level := levelBefore;
        while level > levelAfter
          invariant levelAfter <= level <= levelBefore
          invariant |levels| == |old(levels)|
          invariant forall k :: 0 <= k < |levels| ==>
            levels[k] == if level < k <= levelBefore then old(levels[k]) - times else old(levels[k])
        {
          levels := levels[level := levels[level] - times];
          level := level - 1;
        }
      } else if levelAfter > levelBefore {
        var level := levelBefore + 1;
        while level <= levelAfter
          invariant levelBefore + 1 <= level <= levelAfter + 1
          invariant |levels| == |old(levels)|
          invariant forall k :: 0 <= k < |levels| ==>
            levels[k] == if levelBefore < k < level then old(levels[k]) + times else old(levels[k])
        {
          levels := levels[level := levels[level] + times];
          level := level + 1;
        }
      }
    }

    /** When the old level sets match the old content and are updated by the difference of the profiles, the new
        ones match the new content. */
    lemma LevelsFollow(interval: Interval, before: Content, was: seq<set<int>>,
                       oldp: Profile, newp: Profile)
      requires |levels| == |was| == levelCount > 0
      requires LevelsMatch(was, before)
      requires forall t: nat :: LevelIn(oldp, t) == LevelWithin(interval, before, t)
      requires forall t: nat :: LevelIn(newp, t) == LevelWithin(interval, content, t)
      requires forall t: nat :: !(interval.lower <= t < interval.upper) ==> JobsAt(content, t) == JobsAt(before, t)
      requires forall k: nat, t: nat :: k < |levels| ==>
        (t in levels[k] <==> Shifted(ShiftAt(oldp, newp, t), k, t in was[k]))
      ensures LevelsMatch(levels, content)
    {
      forall k: nat, t: nat | 0 < k < levelCount
        ensures t in levels[k] <==> Level(JobsAt(content, t)) >= k
      {
        assert t in levels[k] <==> Shifted(ShiftAt(oldp, newp, t), k, t in was[k]);
        assert t in was[k] <==> Level(JobsAt(before, t)) >= k;
        assert LevelIn(oldp, t) == LevelWithin(interval, before, t);
        assert LevelIn(newp, t) == LevelWithin(interval, content, t);
      }
    }

    /** Brings the level sets in step after the content has changed within the interval. */
    method Follow(interval: Interval, oldLevels: Profile, ghost before: Content)
      requires Shaped() && Stored(before) && LevelsMatch(levels, before) && interval.lower < interval.upper
      requires Ordered(oldLevels) && forall t: nat :: ValueAt(oldLevels, t) == ProfileAt(interval, before, t)
      requires forall t: nat :: !(interval.lower <= t < interval.upper) ==> JobsAt(content, t) == JobsAt(before, t)
      modifies this`levels
      ensures |levels| == levelCount && LevelsMatch(levels, content) && levels[0] == old(levels[0])
    {
      var newLevels := GetProfile(interval);
      ProfileLevels(interval, before, oldLevels);
      ProfileLevels(interval, content, newLevels);
      UpdateLevels(oldLevels, newLevels);
      LevelsFollow(interval, before, old(levels), oldLevels, newLevels);
    }

    /** Stores additional jobs over the interval. */
    method Insert(interval: Interval, payload: JobSet)
      requires Valid() && interval.lower < interval.upper
      modifies this`content, this`levels
      ensures Valid()
      ensures forall t: nat :: interval.lower <= t < interval.upper ==>
        JobsAt(content, t) == old(JobsAt(content, t)) + payload
      ensures forall t: nat :: !(interval.lower <= t < interval.upper) ==> JobsAt(content, t) == old(JobsAt(content, t))
    {
      var oldLevels := GetProfile(interval);
      ghost var before := content;
      ChangedJobs(content, interval.lower, interval.upper, jobs => jobs + payload);
      content := Add(content, interval.lower, interval.upper, payload);
      Follow(interval, oldLevels, before);
    }

    /** Takes jobs out over the interval. */
    method Remove(interval: Interval, payload: JobSet)
      requires Valid() && interval.lower < interval.upper
      modifies this`content, this`levels
      ensures Valid()
      ensures forall t: nat :: interval.lower <= t < interval.upper ==>
        JobsAt(content, t) == old(JobsAt(content, t)) - payload
      ensures forall t: nat :: !(interval.lower <= t < interval.upper) ==> JobsAt(content, t) == old(JobsAt(content, t))
    {
      var oldLevels := GetProfile(interval);
      ghost var before := content;
      ChangedJobs(content, interval.lower, interval.upper, jobs => jobs - payload);
      content := Subtract(content, interval.lower, interval.upper, payload);
      Follow(interval, oldLevels, before);
    }
  }

  lemma OrderedOneMore<D>(xs: seq<Piece<D>>, p: Piece<D>)
    requires Ordered(xs) && p.lower < p.upper && (xs != [] ==> xs[|xs| - 1].upper <= p.lower)
    ensures Ordered(xs + [p])
  {
    assert forall i :: 0 <= i < |xs| - 1 ==> xs[i].upper <= xs[|xs| - 1].lower;
  }

  lemma PrefixValue<D>(xs: seq<Piece<D>>, it: nat, upper: nat, t: nat)
    requires Ordered(xs) && it <= |xs| && (it < |xs| ==> upper <= xs[it].lower) && t < upper
    ensures ValueAt(xs, t) == ValueAt(xs[..it], t)
  {
    if Covers(xs, t) {
      var i :| 0 <= i < |xs| && xs[i].lower <= t < xs[i].upper;
      ValueOf(xs, i, t);
      ValueOf(xs[..it], i, t);
    }
  }

  /** The effect of one change on the membership of `t` in the k-th level set. */
  ghost predicate Applied(change: Piece<Shift>, k: nat, t: nat, was: bool) {
    Shifted(if change.lower <= t < change.upper then Just(change.data) else Nothing, k, was)
  }

  lemma AppliedOneMore(changes: seq<Piece<Shift>>, j: nat, start: seq<set<int>>, before: seq<set<int>>,
                       after: seq<set<int>>)
    requires Ordered(changes) && j < |changes| && |start| == |before| == |after|
    requires forall k: nat, t: nat :: k < |start| ==>
      (t in before[k] <==> Shifted(ValueAt(changes[..j], t), k, t in start[k]))
    requires forall k: nat, t: nat :: k < |start| ==> (t in after[k] <==> Applied(changes[j], k, t, t in before[k]))
    ensures forall k: nat, t: nat :: k < |start| ==>
      (t in after[k] <==> Shifted(ValueAt(changes[..j + 1], t), k, t in start[k]))
  {
    assert changes[..j + 1] == changes[..j] + [changes[j]];
    forall k: nat, t: nat | k < |start|
      ensures t in after[k] <==> Shifted(ValueAt(changes[..j + 1], t), k, t in start[k])
    {
      ValueOneMore(changes[..j], changes[j], t);
      assert t in before[k] <==> Shifted(ValueAt(changes[..j], t), k, t in start[k]);
      assert t in after[k] <==> Applied(changes[j], k, t, t in before[k]);
      assert forall i :: 0 <= i < j ==> changes[..j][i].upper <= changes[j].lower;
    }
  }

  /** The variables of the comparison: the levels of both profiles since the last point, and the changes so far. */
  datatype Comparison = Comparison(oldLevel: nat, newLevel: nat, lastPoint: nat, changes: seq<Piece<Shift>>)

  /** Their values before the k-th call of the handler, with the old profile on one side and the new one on the
      other. */
  ghost predicate Recorded(m: Merge<(nat, real)>, k: nat, c: Comparison)
    requires k <= |m.calls|
  {
    && c.lastPoint == Reached(m, k)
    && c.oldLevel == LevelBefore(m, m.a, k) && c.newLevel == LevelBefore(m, m.b, k)
    && Ordered(c.changes) && (forall i :: 0 <= i < |c.changes| ==> c.changes[i].upper <= c.lastPoint)
    && (forall t: nat :: t < c.lastPoint ==> ValueAt(c.changes, t) == ShiftAt(m.a, m.b, t))
  }

  /** The intervals over which two profiles differ, with the levels of both. */
  method Changes(oldp: Profile, newp: Profile) returns (changes: seq<Piece<Shift>>)
    requires Ordered(oldp) && Ordered(newp)
    ensures Ordered(changes)
    ensures forall t: nat :: ValueAt(changes, t) == ShiftAt(oldp, newp, t)
  {
    var c := Comparison(0, 0, 0, []);
    var m := ProcessIntervals(oldp, newp);
    NothingRecorded(m, c);
    var k: nat := 0;
    while k < |m.calls|
      invariant k <= |m.calls| && Recorded(m, k, c)
    {
      c := Record(m, k, c);
      k := k + 1;
    }
    RecordIsComplete(m, c);
    changes := c.changes;
  }

  lemma NothingRecorded(m: Merge<(nat, real)>, c: Comparison)
    requires c == Comparison(0, 0, 0, [])
    ensures Recorded(m, 0, c)
  {
  }

  lemma RecordIsComplete(m: Merge<(nat, real)>, c: Comparison)
    requires Recorded(m, |m.calls|, c)
    ensures forall t: nat :: ValueAt(c.changes, t) == ShiftAt(m.a, m.b, t)
  {
    forall t: nat
      ensures ValueAt(c.changes, t) == ShiftAt(m.a, m.b, t)
    {
      if c.lastPoint <= t {
        ConstantBetween(m, m.a, |m.calls|, t);
        ConstantBetween(m, m.b, |m.calls|, t);
      }
    }
  }

  /** The handler of the comparison. */
  method Record(m: Merge<(nat, real)>, k: nat, c0: Comparison) returns (c: Comparison)
    requires k < |m.calls| && Recorded(m, k, c0)
    ensures Recorded(m, k + 1, c)
  {
    var Comparison(oldLevel, newLevel, lastPoint, changes) := c0;
    var call := m.calls[k];
    if oldLevel != newLevel {
      changes := changes + [Piece(lastPoint, call.point, (oldLevel, newLevel))];
    }
    ChangesMoveOn(m, k, c0, changes);
    FlagsAndValue(m, m.a, k, call.aStart, call.aEnd);
    FlagsAndValue(m, m.b, k, call.bStart, call.bEnd);
    if call.aEnd.Valid() {
      oldLevel := 0;
    }
    if call.aStart.Valid() {
      oldLevel := call.aStart.value.0;
    }
    if call.bEnd.Valid() {
      newLevel := 0;
    }
    if call.bStart.Valid() {
      newLevel := call.bStart.value.0;
    }
    c := Comparison(oldLevel, newLevel, call.point, changes);
  }

  ghost function LevelBefore(m: Merge<(nat, real)>, profile: Profile, k: nat): (level: nat)
    requires k <= |m.calls|
  {
    if k == 0 then 0 else LevelIn(profile, m.calls[k - 1].point)
  }

  /** Up to the next call the difference of the profiles stays as it is, and is recorded as one change. */
  lemma ChangesMoveOn(m: Merge<(nat, real)>, k: nat, c: Comparison, after: seq<Piece<Shift>>)
    requires k < |m.calls| && Recorded(m, k, c)
    requires after == if c.oldLevel == c.newLevel then c.changes
      else c.changes + [Piece(c.lastPoint, m.calls[k].point, (c.oldLevel, c.newLevel))]
    ensures Ordered(after) && forall i :: 0 <= i < |after| ==> after[i].upper <= m.calls[k].point
    ensures forall t: nat :: t < m.calls[k].point ==> ValueAt(after, t) == ShiftAt(m.a, m.b, t)
  {
    forall t: nat | Reached(m, k) <= t < m.calls[k].point
      ensures ShiftAt(m.a, m.b, t) ==
        if c.oldLevel != c.newLevel then Just((c.oldLevel, c.newLevel)) else Nothing
    {
      ConstantBetween(m, m.a, k, t);
      ConstantBetween(m, m.b, k, t);
    }
    RecordedUntil(c.changes, c.lastPoint, m.calls[k].point, c.oldLevel, c.newLevel, after);
  }

  lemma RecordedUntil(before: seq<Piece<Shift>>, p: nat, q: nat, o: nat, n: nat, after: seq<Piece<Shift>>)
    requires Ordered(before) && forall i :: 0 <= i < |before| ==> before[i].upper <= p
    requires p < q || (p == q && o == n)
    requires after == if o != n then before + [Piece(p, q, (o, n))] else before
    ensures Ordered(after) && forall i :: 0 <= i < |after| ==> after[i].upper <= q
    ensures forall t: nat :: t < q ==>
      ValueAt(after, t) == if t < p then ValueAt(before, t) else if o != n then Just((o, n)) else Nothing
  {
    if o != n {
      forall t: nat
        ensures ValueAt(after, t) == if p <= t < q then Just((o, n)) else ValueAt(before, t)
      {
        ValueOneMore(before, Piece(p, q, (o, n)), t);
      }
    }
  }

  lemma ChangeIsBounded(oldp: Profile, newp: Profile, changes: seq<Piece<Shift>>, j: nat)
    requires Ordered(changes) && j < |changes|
    requires forall t: nat :: ValueAt(changes, t) == ShiftAt(oldp, newp, t)
    ensures exists t: nat :: changes[j].data == (LevelIn(oldp, t), LevelIn(newp, t))
  {
    var t := changes[j].lower;
    ValueOf(changes, j, t);
  }

  // ---------- whole runs ----------

  datatype Operation = Inserting(interval: Interval, payload: JobSet) | Removing(interval: Interval, payload: JobSet)

  ghost predicate WellFormed(ops: seq<Operation>) {
    forall i :: 0 <= i < |ops| ==> ops[i].interval.lower < ops[i].interval.upper
  }

  /** What a history of operations leaves at time `t`, independent of any pieces. */
  ghost function JobsAfter(ops: seq<Operation>, t: nat): (jobs: JobSet) {
    if ops == [] then {}
    else
      var jobs, op := JobsAfter(ops[..|ops| - 1], t), ops[|ops| - 1];
      match op
      case Inserting(interval, payload) => if interval.lower <= t < interval.upper then jobs + payload else jobs
      case Removing(interval, payload) => if interval.lower <= t < interval.upper then jobs - payload else jobs
  }

  /** Everything a history touches lies within the horizon. */
  ghost predicate Within(ops: seq<Operation>, horizon: Interval) {
    forall i :: 0 <= i < |ops| ==> horizon.lower <= ops[i].interval.lower && ops[i].interval.upper <= horizon.upper
  }

  lemma {:induction false} NothingOutside(ops: seq<Operation>, horizon: Interval, t: nat)
    requires Within(ops, horizon) && !(horizon.lower <= t < horizon.upper)
    ensures JobsAfter(ops, t) == {}
    decreases |ops|
  {
    if ops == [] {
    } else {
      NothingOutside(ops[..|ops| - 1], horizon, t);
      assert horizon.lower <= ops[|ops| - 1].interval.lower && ops[|ops| - 1].interval.upper <= horizon.upper;
    }
  }

  ghost predicate Nested(sets: seq<set<int>>) {
    forall i, j, t :: 0 <= i < j < |sets| && t in sets[j] && t >= 0 ==> t in sets[i]
  }

  /** After any history, the k-th level set of a fresh tree holds exactly the times at which what the history left
      reaches level k; if the history stays within the horizon, the sets are nested. */
  method Run(tree: LevelTree, ops: seq<Operation>)
    requires tree.Valid() && tree.content == [] && WellFormed(ops)
    modifies tree
    ensures tree.Valid()
    ensures forall t: nat :: JobsAt(tree.content, t) == JobsAfter(ops, t)
    ensures forall k: nat, t: nat :: 0 < k < tree.levelCount ==>
      (t in tree.levels[k] <==> tree.Level(JobsAfter(ops, t)) >= k)
    ensures tree.levels[0] == Range(tree.horizon.lower, tree.horizon.upper)
    ensures Within(ops, tree.horizon) ==> Nested(tree.levels)
  {
    var i := 0;
    while i < |ops|
      invariant 0 <= i <= |ops| && tree.Valid()
      invariant forall t: nat :: JobsAt(tree.content, t) == JobsAfter(ops[..i], t)
    {
      match ops[i] {
        case Inserting(interval, payload) => tree.Insert(interval, payload);
        case Removing(interval, payload) => tree.Remove(interval, payload);
      }
      assert ops[..i + 1][..i] == ops[..i];
      i := i + 1;
    }
    assert ops[..i] == ops;
    if Within(ops, tree.horizon) {
      forall t: nat | !(tree.horizon.lower <= t < tree.horizon.upper)
        ensures JobsAt(tree.content, t) == {}
      {
        NothingOutside(ops, tree.horizon, t);
      }
      LevelsAreNested(tree);
    }
  }

  /** The level sets of a tree are nested, the lowest one included as long as all jobs are stored in the horizon. */
  lemma LevelsAreNested(tree: LevelTree)
    requires tree.Valid()
    requires forall t: nat :: !(tree.horizon.lower <= t < tree.horizon.upper) ==> JobsAt(tree.content, t) == {}
    ensures Nested(tree.levels)
  {
    forall i: nat, j: nat, t: nat | i < j < |tree.levels| && t in tree.levels[j]
      ensures t in tree.levels[i]
    {
      assert tree.Level(JobsAt(tree.content, t)) >= j;
    }
  }

  // ---------- consistency checks ----------

  /** How a check ends. For the last one it reads behind the last level set, which is undefined. */
  datatype Verdict = Passed | Failed | OutOfRange

  /** All times are unsigned. */
  function Keys(times: set<int>): (keys: set<int>)
    ensures forall t :: t in keys <==> t in times && t >= 0
  {
    set t | t in times && t >= 0
  }

  /** The check of the containment of the level sets. Its loop runs one level too far, so it never passes. */
  method VerifyLevelContainment(tree: LevelTree) returns (v: Verdict)
    requires tree.Shaped()
    ensures v == if Nested(tree.levels) then OutOfRange else Failed
  {
    var level := 1;
    while level <= tree.levelCount
      invariant 1 <= level <= tree.levelCount && Nested(tree.levels[..level])
    {
      if level >= |tree.levels| {
        assert tree.levels[..level] == tree.levels;
        return OutOfRange;
      }
      var diff := Keys(tree.levels[level] - tree.levels[level - 1]);
      if diff != {} {
        NotContained(tree.levels, level, diff);
        return Failed;
      }
      NestedOneMore(tree.levels, level, diff);
      level := level + 1;
    }
    assert false;
  }

  lemma NotContained(sets: seq<set<int>>, level: nat, diff: set<int>)
    requires 0 < level < |sets| && diff == Keys(sets[level] - sets[level - 1]) && diff != {}
    ensures !Nested(sets)
  {
    var t :| t in diff;
  }

  lemma NestedOneMore(sets: seq<set<int>>, level: nat, diff: set<int>)
    requires 0 < level < |sets| && Nested(sets[..level])
    requires diff == Keys(sets[level] - sets[level - 1]) && diff == {}
    ensures Nested(sets[..level + 1])
  {
    var longer := sets[..level + 1];
    forall i, j, t | 0 <= i < j < |longer| && t in longer[j] && t >= 0
      ensures t in longer[i]
    {
      assert sets[..level][level - 1] == longer[level - 1] && sets[..level][i] == longer[i];
      if j < level {
        assert sets[..level][j] == longer[j];
      } else {
        assert t !in diff;
      }
    }
  }

  /** Jobs of the highest level are stored at time `t` of the horizon. */
  ghost predicate TopAt(tree: LevelTree, t: nat)
    reads tree
  {
    && tree.horizon.lower <= t < tree.horizon.upper && Covers(tree.content, t)
    && tree.Level(JobsAt(tree.content, t)) == tree.levelCount - 1
  }

  /** The check that every piece of the profile lies in the set of its level, and outside of the next one. On a tree in
      order it never fails, but it reads behind the last set as soon as the highest level is reached. */
  method VerifyLevelAssignment(tree: LevelTree) returns (v: Verdict)
    requires tree.Valid() && tree.horizon.lower < tree.horizon.upper
    ensures v != Failed && (v == OutOfRange <==> exists t: nat :: TopAt(tree, t))
  {
    var profile := tree.GetProfile(tree.horizon);
    var i := 0;
    while i < |profile|
      invariant 0 <= i <= |profile|
      invariant forall j :: 0 <= j < i ==> profile[j].data.0 < tree.levelCount - 1
    {
      var level := profile[i].data.0;
      var times := Range(profile[i].lower, profile[i].upper);
      PieceInPlace(tree, profile, i);
      if !(times <= tree.levels[level]) {
        return Failed;
      }
      if level < tree.levelCount {
        if level + 1 >= |tree.levels| {
          return OutOfRange;
        }
        if times * tree.levels[level + 1] != {} {
          return Failed;
        }
      }
      i := i + 1;
    }
    NoTop(tree, profile);
    v := Passed;
  }

  /** What the content holds at a time of a piece of the profile. */
  lemma PieceAt(tree: LevelTree, profile: Profile, i: nat, t: nat)
    requires tree.Valid() && Ordered(profile) && i < |profile| && profile[i].lower <= t < profile[i].upper
    requires forall q: nat :: ValueAt(profile, q) == tree.ProfileAt(tree.horizon, tree.content, q)
    ensures tree.horizon.lower <= t < tree.horizon.upper && Covers(tree.content, t)
    ensures tree.Level(JobsAt(tree.content, t)) == profile[i].data.0 < tree.levelCount
  {
    ValueOf(profile, i, t);
    assert ValueAt(profile, t) == tree.ProfileAt(tree.horizon, tree.content, t);
    var k :| 0 <= k < |tree.content| && tree.content[k].lower <= t < tree.content[k].upper;
    ValueOf(tree.content, k, t);
    var amount: real := tree.getAmount(JobsAt(tree.content, t));
    assert tree.getLevel(amount) < tree.levelCount;
  }

  lemma PieceInPlace(tree: LevelTree, profile: Profile, i: nat)
    requires tree.Valid() && Ordered(profile) && i < |profile|
    requires forall q: nat :: ValueAt(profile, q) == tree.ProfileAt(tree.horizon, tree.content, q)
    ensures var level, times := profile[i].data.0, Range(profile[i].lower, profile[i].upper);
      && level < tree.levelCount && times <= tree.levels[level]
      && (level + 1 < tree.levelCount ==> times * tree.levels[level + 1] == {})
      && (level + 1 == tree.levelCount ==> TopAt(tree, profile[i].lower))
  {
    PieceAt(tree, profile, i, profile[i].lower);
    forall t | t in Range(profile[i].lower, profile[i].upper)
      ensures t in tree.levels[profile[i].data.0]
      ensures profile[i].data.0 + 1 < tree.levelCount ==> t !in tree.levels[profile[i].data.0 + 1]
    {
      PieceAt(tree, profile, i, t);
    }
  }

  lemma NoTop(tree: LevelTree, profile: Profile)
    requires tree.Valid() && Ordered(profile)
    requires forall q: nat :: ValueAt(profile, q) == tree.ProfileAt(tree.horizon, tree.content, q)
    requires forall j :: 0 <= j < |profile| ==> profile[j].data.0 < tree.levelCount - 1
    ensures !exists t: nat :: TopAt(tree, t)
  {
    forall t: nat | tree.horizon.lower <= t < tree.horizon.upper && Covers(tree.content, t)
      ensures !TopAt(tree, t)
    {
      assert ValueAt(profile, t) == tree.ProfileAt(tree.horizon, tree.content, t);
      var i :| 0 <= i < |profile| && profile[i].lower <= t < profile[i].upper;
      PieceAt(tree, profile, i, t);
    }
  }
}
