/** The interval map that holds the content of a level tree: ordered pieces with non-empty job sets. A piece whose
    job set becomes empty disappears. */
module IntervalMaps {
  import opened Numbers
  import opened IntervalRunner

  type Entry = (nat, real)  // job and amount
  type JobSet = set<Entry>
  type Content = seq<Piece<JobSet>>

  ghost predicate Stored(c: Content) {
    Ordered(c) && forall i :: 0 <= i < |c| ==> c[i].data != {}
  }

  /** The jobs at time `t`. */
  ghost function JobsAt(c: Content, t: nat): (jobs: JobSet) {
    var m := ValueAt(c, t);
    if m.Valid() then m.value else {}
  }

  ghost predicate Inside(c: Content, lower: nat, upper: nat) {
    forall i :: 0 <= i < |c| ==> lower <= c[i].lower && c[i].upper <= upper
  }

  function Put(lower: nat, upper: nat, jobs: JobSet): (c: Content)
    ensures Stored(c) && Inside(c, lower, upper)
  {
    if lower < upper && jobs != {} then [Piece(lower, upper, jobs)] else []
  }

  lemma PutJobs(lower: nat, upper: nat, jobs: JobSet, t: nat)
    ensures JobsAt(Put(lower, upper, jobs), t) == if lower <= t < upper then jobs else {}
  {
    if lower <= t < upper && jobs != {} {
      ValueOf(Put(lower, upper, jobs), 0, t);
    }
  }

  /** Two maps, one after the other. */
  lemma Joined(a: Content, b: Content, lower: nat, middle: nat, upper: nat)
    requires Stored(a) && Inside(a, lower, middle) && Stored(b) && Inside(b, middle, upper) && lower <= middle <= upper
    ensures Stored(a + b) && Inside(a + b, lower, upper)
    ensures forall t: nat :: JobsAt(a + b, t) == if t < middle then JobsAt(a, t) else JobsAt(b, t)
  {
    assert forall i :: 0 <= i < |a| ==> (a + b)[i] == a[i];
    assert forall i :: |a| <= i < |a + b| ==> (a + b)[i] == b[i - |a|];
    forall t: nat
      ensures JobsAt(a + b, t) == if t < middle then JobsAt(a, t) else JobsAt(b, t)
    {
      JoinedJobs(a, b, lower, middle, upper, t);
    }
  }

  lemma JoinedJobs(a: Content, b: Content, lower: nat, middle: nat, upper: nat, t: nat)
    requires Stored(a) && Inside(a, lower, middle) && Stored(b) && Inside(b, middle, upper) && Ordered(a + b)
    ensures JobsAt(a + b, t) == if t < middle then JobsAt(a, t) else JobsAt(b, t)
  {
    var c := a + b;
    if Covers(a, t) {
      var i :| 0 <= i < |a| && a[i].lower <= t < a[i].upper;
      ValueOf(a, i, t);
      ValueOf(c, i, t);
    } else if Covers(b, t) {
      var i :| 0 <= i < |b| && b[i].lower <= t < b[i].upper;
      ValueOf(b, i, t);
      assert c[|a| + i] == b[i];
      ValueOf(c, |a| + i, t);
    }
  }

  /** The part of the map between `lower` and `upper`. */
  function Clip(c: Content, lower: nat, upper: nat): (clipped: Content) {
    if c == [] then []
    else Put(Max(lower, c[0].lower), Min(c[0].upper, upper), c[0].data) + Clip(c[1..], lower, upper)
  }

  lemma TailStored(c: Content)
    requires Stored(c) && c != []
    ensures Stored(c[1..]) && forall i :: 0 <= i < |c| - 1 ==> c[0].upper <= c[1..][i].lower
  {
    assert forall i :: 0 <= i < |c| - 1 ==> c[1..][i] == c[i + 1];
  }

  lemma TailOf(c: Content, t: nat)
    requires Stored(c) && c != []
    ensures JobsAt(c, t) == if c[0].lower <= t < c[0].upper then c[0].data else JobsAt(c[1..], t)
    ensures t < c[0].upper ==> JobsAt(c[1..], t) == {}
  {
    TailStored(c);
    var tail := c[1..];
    if c[0].lower <= t < c[0].upper {
      ValueOf(c, 0, t);
    } else if Covers(tail, t) {
      var i :| 0 <= i < |tail| && tail[i].lower <= t < tail[i].upper;
      ValueOf(tail, i, t);
      ValueOf(c, i + 1, t);
    }
    assert forall i :: 0 < i < |c| ==> c[i] == tail[i - 1];
  }

  lemma {:induction false} ClipJobs(c: Content, lower: nat, upper: nat)
    requires Stored(c) && lower <= upper
    ensures Stored(Clip(c, lower, upper)) && Inside(Clip(c, lower, upper), lower, upper)
    ensures c != [] ==> Inside(Clip(c, lower, upper), c[0].lower, upper)
    ensures forall t: nat :: JobsAt(Clip(c, lower, upper), t) == if lower <= t < upper then JobsAt(c, t) else {}
  {
    if c == [] {
    } else {
      TailStored(c);
      ClipJobs(c[1..], lower, upper);
      var head := Put(Max(lower, c[0].lower), Min(c[0].upper, upper), c[0].data);
      var middle := Max(lower, Min(c[0].upper, upper));
      var tail := Clip(c[1..], lower, upper);
      assert Inside(tail, middle, upper);
      Joined(head, tail, lower, middle, upper);
      assert Inside(head + tail, c[0].lower, upper);
      forall t: nat
        ensures JobsAt(head + tail, t) == if lower <= t < upper then JobsAt(c, t) else {}
      {
        TailOf(c, t);
        PutJobs(Max(lower, c[0].lower), Min(c[0].upper, upper), c[0].data, t);
      }
    }
  }

  type Change = JobSet -> JobSet

  /** Applies a change to every time between `lower` and `upper`; the gaps between the pieces hold no jobs. */
  function Fill(c: Content, lower: nat, upper: nat, f: Change): (filled: Content) {
    if c == [] then Put(lower, upper, f({}))
    else
      Put(lower, c[0].lower, f({})) + Put(c[0].lower, c[0].upper, f(c[0].data)) + Fill(c[1..], c[0].upper, upper, f)
  }

  lemma {:induction false} FillJobs(c: Content, lower: nat, upper: nat, f: Change)
    requires Stored(c) && Inside(c, lower, upper) && lower <= upper
    ensures Stored(Fill(c, lower, upper, f)) && Inside(Fill(c, lower, upper, f), lower, upper)
    ensures forall t: nat :: lower <= t < upper ==> JobsAt(Fill(c, lower, upper, f), t) == f(JobsAt(c, t))
    decreases |c|
  {
    if c == [] {
      forall t: nat | lower <= t < upper
        ensures JobsAt(Put(lower, upper, f({})), t) == f(JobsAt(c, t))
      {
        PutJobs(lower, upper, f({}), t);
      }
    } else {
      TailStored(c);
      FillJobs(c[1..], c[0].upper, upper, f);
      var gap, head := Put(lower, c[0].lower, f({})), Put(c[0].lower, c[0].upper, f(c[0].data));
      var tail := Fill(c[1..], c[0].upper, upper, f);
      Joined(gap, head, lower, c[0].lower, c[0].upper);
      Joined(gap + head, tail, lower, c[0].upper, upper);
      forall t: nat | lower <= t < upper
        ensures JobsAt(gap + head + tail, t) == f(JobsAt(c, t))
      {
        TailOf(c, t);
        PutJobs(lower, c[0].lower, f({}), t);
        PutJobs(c[0].lower, c[0].upper, f(c[0].data), t);
      }
    }
  }

  function End(c: Content): (r: nat) {
    if c == [] then 0 else c[|c| - 1].upper
  }

  /** The map with a change applied between `lower` and `upper`. */
  function Changed(c: Content, lower: nat, upper: nat, f: Change): (changed: Content) {
    Clip(c, 0, lower) + Fill(Clip(c, lower, upper), lower, upper, f) + Clip(c, upper, Max(upper, End(c)))
  }

  lemma ChangedJobs(c: Content, lower: nat, upper: nat, f: Change)
    requires Stored(c) && lower <= upper
    ensures Stored(Changed(c, lower, upper, f))
    ensures forall t: nat ::
      JobsAt(Changed(c, lower, upper, f), t) == if lower <= t < upper then f(JobsAt(c, t)) else JobsAt(c, t)
  {
    var end := Max(upper, End(c));
    ClipJobs(c, 0, lower);
    ClipJobs(c, lower, upper);
    ClipJobs(c, upper, end);
    FillJobs(Clip(c, lower, upper), lower, upper, f);
    var filled := Fill(Clip(c, lower, upper), lower, upper, f);
    Joined(Clip(c, 0, lower), filled, 0, lower, upper);
    Joined(Clip(c, 0, lower) + filled, Clip(c, upper, end), 0, upper, end);
    forall t: nat | end <= t
      ensures JobsAt(c, t) == {}
    {
      assert forall i :: 0 <= i < |c| ==> c[i].upper <= End(c);
    }
  }

  function Add(c: Content, lower: nat, upper: nat, payload: JobSet): (r: Content) {
    Changed(c, lower, upper, jobs => jobs + payload)
  }

  function Subtract(c: Content, lower: nat, upper: nat, payload: JobSet): (r: Content) {
    Changed(c, lower, upper, jobs => jobs - payload)
  }
}
