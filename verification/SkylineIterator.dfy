/** Iteration over the events of an array skyline, keeping the usage of every resource up to date. */
module SkylineIterators {
  import opened Maybes
  import opened Loads
  import opened EventIndex
  import opened Skylines

  /** An event and the time at which it is visited. */
  datatype Visit = Visit(where: nat, event: Event)

  ghost function Tag(es: seq<Event>, t: nat): (vs: seq<Visit>)
    ensures |vs| == |es| && forall i :: 0 <= i < |es| ==> vs[i] == Visit(t, es[i])
  {
    seq(|es|, i requires 0 <= i < |es| => Visit(t, es[i]))
  }

  /** All events from time `from` up to but not including time `to`, in the order of the index. */
  ghost function Visits(events: seq<seq<Event>>, from: nat, until: nat): (vs: seq<Visit>) {
    if until <= from then []
    else Visits(events, from, until - 1) + if until - 1 < |events| then Tag(events[until - 1], until - 1) else []
  }

  ghost predicate AllKnown(jobs: seq<Job>, resources: nat, vs: seq<Visit>) {
    Uses(jobs, resources) && forall i :: 0 <= i < |vs| ==> vs[i].event.jid < |jobs|
  }

  /** What the visited events add up to. */
  ghost function Sum(jobs: seq<Job>, resources: nat, vs: seq<Visit>, r: nat): (sum: real)
    requires AllKnown(jobs, resources, vs) && r < resources
  {
    if vs == [] then 0.0
    else Sum(jobs, resources, vs[..|vs| - 1], r) + Delta(jobs, vs[|vs| - 1].event, r)
  }

  /** The usage is what the visited events add up to. */
  ghost predicate Accounts(jobs: seq<Job>, resources: nat, vs: seq<Visit>, usage: seq<real>) {
    && |usage| == resources && AllKnown(jobs, resources, vs)
    && forall r: nat :: r < resources ==> usage[r] == Sum(jobs, resources, vs, r)
  }

  /** The usage after one more event. */
  method Account(jobs: seq<Job>, resources: nat, usage: seq<real>, event: Event, ghost vs: seq<Visit>, ghost t: nat)
    returns (after: seq<real>)
    requires Accounts(jobs, resources, vs, usage) && event.jid < |jobs|
    ensures Accounts(jobs, resources, vs + [Visit(t, event)], after)
  {
    var job := jobs[event.jid];
    after := usage;
    var rid := 0;
    while rid < resources
      invariant 0 <= rid <= resources && |after| == resources
      invariant forall r: nat :: r < rid ==> after[r] == usage[r] + Delta(jobs, event, r)
      invariant forall r: nat :: rid <= r < resources ==> after[r] == usage[r]
    {
      if event.start {
        after := after[rid := after[rid] + job.usage[rid]];
      } else {
        after := after[rid := after[rid] - job.usage[rid]];
      }
      rid := rid + 1;
    }
    assert (vs + [Visit(t, event)])[..|vs|] == vs;
  }

  /** All events from time `from` up to and including number `k` of time `t`. */
  ghost function VisitedAt(events: seq<seq<Event>>, from: nat, t: nat, k: nat): (vs: seq<Visit>) {
    Visits(events, from, t) + if t < |events| && k < |events[t]| then Tag(events[t][..k + 1], t) else []
  }

  lemma VisitedWithin(events: seq<seq<Event>>, from: nat, t: nat, k: nat)
    requires t < |events| && k < |events[t]|
    ensures k > 0 ==> VisitedAt(events, from, t, k) == VisitedAt(events, from, t, k - 1) + [Visit(t, events[t][k])]
    ensures k == 0 ==> VisitedAt(events, from, t, k) == Visits(events, from, t) + [Visit(t, events[t][k])]
  {
    if k > 0 {
      assert Tag(events[t][..k + 1], t) == Tag(events[t][..k], t) + [Visit(t, events[t][k])];
    } else {
      assert Tag(events[t][..k + 1], t) == [Visit(t, events[t][k])];
    }
  }

  /** After the last event of one time comes the first of the next time that has any. */
  lemma VisitedAcross(events: seq<seq<Event>>, from: nat, t: nat, next: nat)
    requires from <= t < next && t < |events| && events[t] != []
    requires forall s :: t < s < next && s < |events| ==> events[s] == []
    ensures Visits(events, from, next) == VisitedAt(events, from, t, |events[t]| - 1)
  {
    NothingBetween(events, from, t + 1, next);
    assert events[t][..|events[t]|] == events[t];
  }

  lemma {:induction false} VisitsAreKnown(jobs: seq<Job>, resources: nat, placement: Placement, events: seq<seq<Event>>,
                                          from: nat, until: nat)
    requires |placement| == |jobs| && Uses(jobs, resources) && Matches(jobs, resources, placement, events)
    ensures AllKnown(jobs, resources, Visits(events, from, until))
    decreases until
  {
    if until <= from {
    } else {
      VisitsAreKnown(jobs, resources, placement, events, from, until - 1);
      assert until - 1 < |events| ==> MatchesAt(jobs, resources, placement, events[until - 1], until - 1);
    }
  }

  lemma {:induction false} SumOfTag(jobs: seq<Job>, resources: nat, vs: seq<Visit>, es: seq<Event>, t: nat, r: nat)
    requires AllKnown(jobs, resources, vs) && r < resources && Listed(jobs, es)
    ensures AllKnown(jobs, resources, vs + Tag(es, t))
    ensures Sum(jobs, resources, vs + Tag(es, t), r) == Sum(jobs, resources, vs, r) + Total(jobs, es, r)
    decreases |es|
  {
    var all := vs + Tag(es, t);
    if es == [] {
      assert all == vs;
    } else {
      SumOfTag(jobs, resources, vs, es[..|es| - 1], t, r);
      assert all[..|all| - 1] == vs + Tag(es[..|es| - 1], t);
    }
  }

  lemma SumOneTime(jobs: seq<Job>, resources: nat, placement: Placement, vs: seq<Visit>, es: seq<Event>, t: nat, r: nat)
    requires |placement| == |jobs| && AllKnown(jobs, resources, vs) && r < resources
    requires MatchesAt(jobs, resources, placement, es, t)
    ensures AllKnown(jobs, resources, vs + Tag(es, t))
    ensures Sum(jobs, resources, vs + Tag(es, t), r) - Sum(jobs, resources, vs, r) ==
      Load(jobs, placement, r, t) - Load(jobs, placement, r, t - 1)
  {
    SumOfTag(jobs, resources, vs, es, t, r);
    LoadStep(jobs, placement, r, t);
  }

  /** The visited events add up to the difference of the loads at the two ends. */
  lemma {:induction false} SumIsLoad(jobs: seq<Job>, resources: nat, placement: Placement, events: seq<seq<Event>>,
                                     from: nat, until: nat, r: nat)
    requires |placement| == |jobs| && Uses(jobs, resources) && Matches(jobs, resources, placement, events)
    requires r < resources && from <= until <= |events|
    ensures AllKnown(jobs, resources, Visits(events, from, until))
    ensures Sum(jobs, resources, Visits(events, from, until), r) ==
      Load(jobs, placement, r, until - 1) - Load(jobs, placement, r, from - 1)
    decreases until
  {
    if until <= from {
    } else {
      var t := until - 1;
      assert Visits(events, from, until) == Visits(events, from, t) + Tag(events[t], t);
      SumIsLoad(jobs, resources, placement, events, from, t, r);
      SumOneTime(jobs, resources, placement, Visits(events, from, t), events[t], t, r);
    }
  }

  /** Times without events are skipped without loss. */
  lemma {:induction false} NothingBetween(events: seq<seq<Event>>, from: nat, a: nat, b: nat)
    requires from <= a <= b && forall t :: a <= t < b && t < |events| ==> events[t] == []
    ensures Visits(events, from, b) == Visits(events, from, a)
    decreases b
  {
    if a == b {
    } else {
      NothingBetween(events, from, a, b - 1);
    }
  }

  class Iterator {
    const sl: ArraySkyline
    var timeIndex: nat
    var eventIt: nat
    var usage: seq<real>
    var start: bool
    var where: nat
    // The time the iterator was made for.
    ghost const from: nat

    /** The iterator is on an event, or at the end. */
    ghost predicate Placed()
      reads this, sl
    {
      && sl.Valid() && sl.supportIt && from <= timeIndex
      && (timeIndex < |sl.events| ==> eventIt < |sl.events[timeIndex]|)
    }

    /** The running usage accounts for all events visited so far. */
    ghost predicate Valid()
      reads this, sl
    {
      && Placed()
      && (timeIndex < |sl.events| ==> where == timeIndex && start == sl.events[timeIndex][eventIt].start)
      && Accounts(sl.jobs, sl.resources, Visited(), usage)
    }

    /** All events up to and including the current one. */
    ghost function Visited(): (vs: seq<Visit>)
      reads this, sl
    {
      VisitedAt(sl.events, from, timeIndex, eventIt)
    }

    predicate AtEnd()
      reads this, sl
    {
      timeIndex >= |sl.events|
    }

    ghost function TimesLeft(): (r: nat)
      reads this, sl
    {
      if AtEnd() then 0 else |sl.events| - timeIndex
    }

    ghost function EventsLeft(): (r: nat)
      reads this, sl
    {
      if AtEnd() || eventIt >= |sl.events[timeIndex]| then 0 else |sl.events[timeIndex]| - eventIt
    }

    /** What the iterator shows: where it is, and whether a job starts or ends there, and which. */
    function Current(): (current: Visit)
      requires Valid() && !AtEnd()
      reads this, sl
    {
      Visit(where, Event(start, sl.events[timeIndex][eventIt].jid))
    }

    /** An iterator on the first event at or after time `t`. */
    constructor (sl: ArraySkyline, t: nat)
      requires sl.Valid() && sl.supportIt
      ensures Valid() && this.sl == sl && from == t
      ensures Visited() == if AtEnd() then [] else [Current()]
      ensures Visits(sl.events, t, timeIndex) == []
    {
      this.sl := sl;
      from := t;
      usage := seq(sl.resources, _ => 0.0);
      var first := SkipEmpty(sl.events, t);
      timeIndex, eventIt, start, where := first, 0, false, 0;
      new;
      NothingBetween(sl.events, t, t, timeIndex);
      if timeIndex < |sl.events| {
        VisitedWithin(sl.events, t, timeIndex, 0);
        Arrive([]);
      }
    }

    /** The current event changes the usage. */
    method Arrive(ghost before: seq<Visit>)
      requires Placed() && timeIndex < |sl.events|
      requires Accounts(sl.jobs, sl.resources, before, usage)
      requires Visited() == before + [Visit(timeIndex, sl.events[timeIndex][eventIt])]
      modifies this`usage, this`start, this`where
      ensures Valid()
    {
      var event := sl.events[timeIndex][eventIt];
      assert MatchesAt(sl.jobs, sl.resources, sl.placement, sl.events[timeIndex], timeIndex);
      var after := Account(sl.jobs, sl.resources, usage, event, before, timeIndex);
      usage, start, where := after, event.start, timeIndex;
    }

    /** The position of the next event, or one behind the last time. */
    method Successor() returns (t: nat, k: nat)
      requires timeIndex < |sl.events| && eventIt < |sl.events[timeIndex]| && from <= timeIndex
      ensures t < |sl.events| ==> k < |sl.events[t]|
      ensures t > timeIndex || (t == timeIndex && k > eventIt)
      ensures VisitedAt(sl.events, from, t, k) ==
        Visited() + if t < |sl.events| then [Visit(t, sl.events[t][k])] else []
    {
      t, k := timeIndex, eventIt + 1;
      if k == |sl.events[t]| {
        t := SkipEmpty(sl.events, timeIndex + 1);
        k := if t < |sl.events| then 0 else k;
        VisitedAcross(sl.events, from, timeIndex, t);
      }
      if t < |sl.events| {
        VisitedWithin(sl.events, from, t, k);
      }
    }

    /** The next event of the index becomes the current one, or the end is reached and nothing else changes. */
    method Next()
      requires Valid() && !AtEnd()
      modifies this
      ensures Valid()
      ensures AtEnd() ==> Visited() == old(Visited())
      ensures !AtEnd() ==> Visited() == old(Visited()) + [Current()]
      ensures timeIndex > old(timeIndex) || (timeIndex == old(timeIndex) && eventIt > old(eventIt))
    {
      ghost var before := Visited();
      var t, k := Successor();
      timeIndex, eventIt := t, k;
      if timeIndex < |sl.events| {
        Arrive(before);
      } else {
        assert Visited() == before;
      }
    }
  }

  /** The first time at or after `t` with an event, or a time after the end. */
  method SkipEmpty(events: seq<seq<Event>>, t: nat) returns (next: nat)
    ensures t <= next && forall s :: t <= s < next && s < |events| ==> events[s] == []
    ensures next < |events| ==> events[next] != []
  {
    next := t;
    while next < |events| && events[next] == []
      invariant t <= next && forall s :: t <= s < next && s < |events| ==> events[s] == []
    {
      next := next + 1;
    }
  }

  // ---------- whole walks ----------

  /** For every visit the usage right after it. */
  ghost predicate Recorded(jobs: seq<Job>, resources: nat, visited: seq<Visit>, usages: seq<seq<real>>) {
    && |usages| == |visited|
    && forall i :: 0 <= i < |visited| ==> Accounts(jobs, resources, visited[..i + 1], usages[i])
  }

  /** Notes down the current event of the iterator. */
  method Record(it: Iterator, visited: seq<Visit>, usages: seq<seq<real>>)
    returns (visited': seq<Visit>, usages': seq<seq<real>>)
    requires it.Valid() && !it.AtEnd() && Recorded(it.sl.jobs, it.sl.resources, visited, usages)
    requires it.Visited() == visited + [it.Current()]
    ensures visited' == it.Visited() && Recorded(it.sl.jobs, it.sl.resources, visited', usages')
  {
    visited' := visited + [it.Current()];
    usages' := usages + [it.usage];
    assert visited'[..|visited'|] == visited';
    forall i | 0 <= i < |visited'|
      ensures Accounts(it.sl.jobs, it.sl.resources, visited'[..i + 1], usages'[i])
    {
      if i < |visited| {
        assert visited'[..i + 1] == visited[..i + 1];
      }
    }
  }

  /** All events before the current one are noted down. */
  ghost predicate Underway(it: Iterator, visited: seq<Visit>, usages: seq<seq<real>>)
    reads it, it.sl
  {
    && it.Valid() && Recorded(it.sl.jobs, it.sl.resources, visited, usages)
    && it.Visited() == visited + if it.AtEnd() then [] else [it.Current()]
  }

  method Step(it: Iterator, visited: seq<Visit>, usages: seq<seq<real>>)
    returns (visited': seq<Visit>, usages': seq<seq<real>>)
    requires Underway(it, visited, usages) && !it.AtEnd()
    modifies it
    ensures Underway(it, visited', usages')
    ensures it.TimesLeft() < old(it.TimesLeft()) ||
      (it.TimesLeft() == old(it.TimesLeft()) && it.EventsLeft() < old(it.EventsLeft()))
  {
    visited', usages' := Record(it, visited, usages);
    it.Next();
  }

  /** From the first event at or after `from` to the end: what is visited, and the usage at every visit. */
  method Walk(sl: ArraySkyline, from: nat) returns (visited: seq<Visit>, usages: seq<seq<real>>)
    requires sl.Valid() && sl.supportIt
    ensures visited == Visits(sl.events, from, |sl.events|) && Recorded(sl.jobs, sl.resources, visited, usages)
  {
    visited, usages := [], [];
    var it := new Iterator(sl, from);
    while !it.AtEnd()
      invariant fresh(it) && it.sl == sl && it.from == from && Underway(it, visited, usages)
      decreases it.TimesLeft(), it.EventsLeft()
    {
      visited, usages := Step(it, visited, usages);
    }
    Finished(it, visited, usages);
  }

  lemma Finished(it: Iterator, visited: seq<Visit>, usages: seq<seq<real>>)
    requires Underway(it, visited, usages) && it.AtEnd()
    ensures visited == Visits(it.sl.events, it.from, |it.sl.events|)
  {
    VisitsPastEnd(it.sl.events, it.from, it.timeIndex);
    assert visited == it.Visited() == Visits(it.sl.events, it.from, it.timeIndex);
  }

  lemma VisitsPastEnd(events: seq<seq<Event>>, from: nat, t: nat)
    requires |events| <= t
    ensures Visits(events, from, t) == Visits(events, from, |events|)
  {
    if from <= |events| {
      NothingBetween(events, from, |events|, t);
    } else if from <= t {
      NothingBetween(events, from, from, t);
    }
  }

  /** A walk visits exactly the events that happen: every start and end of a present job. */
  lemma {:induction false} VisitsAreComplete(jobs: seq<Job>, resources: nat, placement: Placement,
                                             events: seq<seq<Event>>, from: nat, until: nat, v: Visit)
    requires |placement| == |jobs| && Uses(jobs, resources) && Matches(jobs, resources, placement, events)
    requires until <= |events|
    ensures v in Visits(events, from, until) <==> from <= v.where < until && Happens(jobs, placement, v.event, v.where)
    decreases until
  {
    if until <= from {
    } else {
      var t := until - 1;
      VisitsAreComplete(jobs, resources, placement, events, from, t, v);
      assert MatchesAt(jobs, resources, placement, events[t], t);
      var tagged := Tag(events[t], t);
      if v.where == t && v.event in events[t] {
        var i :| 0 <= i < |events[t]| && events[t][i] == v.event;
        assert tagged[i] == v;
      }
      assert v in tagged <==> v.where == t && v.event in events[t];
    }
  }

  /** A walk goes forward in time, and at one time visits ends before starts: nothing is visited twice. */
  lemma {:induction false} VisitsAreOrdered(jobs: seq<Job>, resources: nat, placement: Placement,
                                            events: seq<seq<Event>>, from: nat, until: nat, i: nat, j: nat)
    requires |placement| == |jobs| && Uses(jobs, resources) && Matches(jobs, resources, placement, events)
    requires until <= |events| && i < j < |Visits(events, from, until)|
    ensures var v, w := Visits(events, from, until)[i], Visits(events, from, until)[j];
      v.where < w.where || (v.where == w.where &&
        ((!v.event.start && w.event.start) || (v.event.start == w.event.start && v.event.jid < w.event.jid)))
    decreases until
  {
    var t := until - 1;
    var before := Visits(events, from, t);
    if j < |before| {
      VisitsAreOrdered(jobs, resources, placement, events, from, t, i, j);
    } else if i < |before| {
      VisitsAreComplete(jobs, resources, placement, events, from, t, before[i]);
    } else {
      assert MatchesAt(jobs, resources, placement, events[t], t);
    }
  }

  lemma {:induction false} EarlierVisits(events: seq<seq<Event>>, from: nat, t: nat, until: nat)
    requires t <= until
    ensures Visits(events, from, t) <= Visits(events, from, until)
    decreases until
  {
    if t == until || until <= from {
    } else {
      EarlierVisits(events, from, t, until - 1);
    }
  }

  /** The first `k` visits are the ones made up to time `t`. */
  ghost predicate SplitsAt(vs: seq<Visit>, k: nat, t: nat) {
    && k <= |vs|
    && (forall i :: 0 <= i < k ==> vs[i].where <= t)
    && forall i :: k <= i < |vs| ==> vs[i].where > t
  }

  lemma {:induction false} VisitsLieBetween(events: seq<seq<Event>>, from: nat, t: nat, until: nat, i: nat)
    requires t <= until && |Visits(events, from, t)| <= i < |Visits(events, from, until)|
    ensures t <= Visits(events, from, until)[i].where < until
    decreases until
  {
    if i >= |Visits(events, from, until - 1)| {
    } else {
      VisitsLieBetween(events, from, t, until - 1, i);
    }
  }

  /** Where exactly the visits up to time `t` have been made, they are the visits up to time `t`. */
  lemma VisitsUpTo(events: seq<seq<Event>>, from: nat, t: nat, k: nat)
    requires from <= t < |events| && SplitsAt(Visits(events, from, |events|), k, t)
    ensures Visits(events, from, |events|)[..k] == Visits(events, from, t + 1)
  {
    var vs, first := Visits(events, from, |events|), Visits(events, from, t + 1);
    EarlierVisits(events, from, t + 1, |events|);
    forall i | 0 <= i < |vs|
      ensures if i < |first| then vs[i].where <= t else vs[i].where > t
    {
      if i < |first| {
        VisitsLieBetween(events, from, from, t + 1, i);
        assert vs[i] == first[i];
      } else {
        VisitsLieBetween(events, from, t + 1, |events|, i);
      }
    }
    OneSplit(vs, k, |first|, t);
  }

  lemma OneSplit(vs: seq<Visit>, k: nat, l: nat, t: nat)
    requires SplitsAt(vs, k, t) && SplitsAt(vs, l, t)
    ensures k == l
  {
    assert k < |vs| ==> vs[k].where > t;
    assert l < |vs| ==> vs[l].where > t;
  }

  /** Once all events up to time `t` have been visited, the running usage of a walk from time 0 is the load at `t`.
      A walk from a later time misses what was active before, and is right exactly if nothing was. */
  lemma RunningUsage(jobs: seq<Job>, resources: nat, placement: Placement, events: seq<seq<Event>>,
                     from: nat, t: nat, k: nat, usage: seq<real>, r: nat)
    requires |placement| == |jobs| && Uses(jobs, resources) && Matches(jobs, resources, placement, events)
    requires from <= t < |events| && r < resources
    requires var vs := Visits(events, from, |events|);
      SplitsAt(vs, k, t) && Accounts(jobs, resources, vs[..k], usage)
    ensures usage[r] == Load(jobs, placement, r, t) - Load(jobs, placement, r, from - 1)
    ensures from == 0 ==> usage[r] == Load(jobs, placement, r, t)
    ensures usage[r] == Load(jobs, placement, r, t) <==> Load(jobs, placement, r, from - 1) == 0.0
  {
    VisitsUpTo(events, from, t, k);
    AccountIsLoad(jobs, resources, placement, events, from, t + 1, usage, r);
    if from == 0 {
      NoLoadBefore(jobs, placement, r);
    }
  }

  lemma AccountIsLoad(jobs: seq<Job>, resources: nat, placement: Placement, events: seq<seq<Event>>,
                      from: nat, until: nat, usage: seq<real>, r: nat)
    requires |placement| == |jobs| && Uses(jobs, resources) && Matches(jobs, resources, placement, events)
    requires from <= until <= |events| && r < resources && Accounts(jobs, resources, Visits(events, from, until), usage)
    ensures usage[r] == Load(jobs, placement, r, until - 1) - Load(jobs, placement, r, from - 1)
  {
    SumIsLoad(jobs, resources, placement, events, from, until, r);
  }

  /** The event index agrees with the usage array. */
  method WalkAgreesWithUsage(sl: ArraySkyline) returns (visited: seq<Visit>, usages: seq<seq<real>>)
    requires sl.Valid() && sl.Exact() && sl.supportIt
    ensures |usages| == |visited|
    ensures forall v :: v in visited <==> v.where < sl.horizon && Happens(sl.jobs, sl.placement, v.event, v.where)
    ensures forall i, j :: 0 <= i < j < |visited| ==>
      visited[i].where < visited[j].where || (visited[i].where == visited[j].where &&
        ((!visited[i].event.start && visited[j].event.start) ||
         (visited[i].event.start == visited[j].event.start && visited[i].event.jid < visited[j].event.jid)))
    ensures forall k: nat, t: nat, r: nat ::
      k < |visited| && r < sl.resources && SplitsAt(visited, k + 1, t) && t < sl.horizon ==>
      |sl.usage[r]| == sl.horizon && |usages[k]| == sl.resources && usages[k][r] == sl.usage[r][t]
  {
    visited, usages := Walk(sl, 0);
    forall v
      ensures v in visited <==> v.where < sl.horizon && Happens(sl.jobs, sl.placement, v.event, v.where)
    {
      VisitsAreComplete(sl.jobs, sl.resources, sl.placement, sl.events, 0, sl.horizon, v);
    }
    forall i, j | 0 <= i < j < |visited|
      ensures visited[i].where < visited[j].where || (visited[i].where == visited[j].where &&
        ((!visited[i].event.start && visited[j].event.start) ||
         (visited[i].event.start == visited[j].event.start && visited[i].event.jid < visited[j].event.jid)))
    {
      VisitsAreOrdered(sl.jobs, sl.resources, sl.placement, sl.events, 0, sl.horizon, i, j);
    }
    forall k: nat, t: nat, r: nat | k < |visited| && r < sl.resources && SplitsAt(visited, k + 1, t) && t < sl.horizon
      ensures |sl.usage[r]| == sl.horizon && |usages[k]| == sl.resources && usages[k][r] == sl.usage[r][t]
    {
      assert RowAgrees(sl.jobs, sl.horizon, sl.placement, sl.usage[r], r);
      RunningUsage(sl.jobs, sl.resources, sl.placement, sl.events, 0, t, k + 1, usages[k], r);
    }
  }

  /** A job is active from 0 to 2; an iterator that starts at 1 meets only its end, and shows a negative usage. */
  method LateWalkFails() returns (sl: ArraySkyline, visited: seq<Visit>, usages: seq<seq<real>>)
    ensures sl.Valid() && sl.Exact() && sl.supportIt && sl.resources == 1 && sl.horizon == 3
    ensures visited == Visits(sl.events, 1, 3) && |usages| == |visited| && visited != []
    ensures SplitsAt(visited, |visited|, 2)
    ensures |usages[|visited| - 1]| == 1 && usages[|visited| - 1][0] == -1.0
    ensures Load(sl.jobs, sl.placement, 0, 2) == 0.0
  {
    var job := Job(3, 2, [1.0]);
    sl := new ArraySkyline([job], 1, true);
    sl.InsertJob(0, 0);
    visited, usages := Walk(sl, 1);
    OnlyTheEnd(sl.jobs, sl.placement, sl.events, visited, usages);
  }

  lemma OnlyTheEnd(jobs: seq<Job>, placement: Placement, events: seq<seq<Event>>, visited: seq<Visit>,
                   usages: seq<seq<real>>)
    requires jobs == [Job(3, 2, [1.0])] && placement == [Just(0)] && |events| == 3
    requires Matches(jobs, 1, placement, events)
    requires visited == Visits(events, 1, 3) && Recorded(jobs, 1, visited, usages)
    ensures visited != [] && SplitsAt(visited, |visited|, 2)
    ensures |usages[|visited| - 1]| == 1 && usages[|visited| - 1][0] == -1.0
    ensures Load(jobs, placement, 0, 2) == 0.0
  {
    VisitsAreComplete(jobs, 1, placement, events, 1, 3, Visit(2, Event(false, 0)));
    forall i | 0 <= i < |visited|
      ensures visited[i].where <= 2
    {
      VisitsLieBetween(events, 1, 1, 3, i);
    }
    assert visited[..|visited|] == visited;
    RunningUsage(jobs, 1, placement, events, 1, 2, |visited|, usages[|visited| - 1], 0);
    LoadOfOne(jobs, placement, 0, 0);
    LoadOfOne(jobs, placement, 0, 2);
  }

  lemma LoadOfOne(jobs: seq<Job>, placement: Placement, r: nat, t: int)
    requires |jobs| == |placement| == 1 && r < |jobs[0].usage|
    ensures Load(jobs, placement, r, t) == Share(jobs[0], placement[0], r, t)
  {
    assert jobs[..0] == [];
  }
}
