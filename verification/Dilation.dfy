/** Extending every interval on both sides and merging what then touches or overlaps. */
module Dilation {
  import opened Machine
  import opened IntervalRunner
  import opened Intervals

  // ---------- events ----------

  datatype Event = Event(at: nat, start: bool)

  /** By time, and starts before ends at the same time. */
  predicate Before(e: Event, f: Event) {
    e.at < f.at || (e.at == f.at && (e.start || !f.start))
  }

  ghost predicate Sorted(es: seq<Event>) {
    forall i, j :: 0 <= i < j < |es| ==> Before(es[i], es[j])
  }

  function Inserted(r: seq<Event>, k: nat, e: Event): (result: seq<Event>)
    requires k <= |r|
  {
    r[..k] + [e] + r[k..]
  }

  lemma MultisetInserted(r: seq<Event>, k: nat, e: Event)
    requires k <= |r|
    ensures multiset(Inserted(r, k, e)) == multiset(r) + multiset{e}
  {
    assert r == r[..k] + r[k..];
  }

  method Sort(es: seq<Event>) returns (r: seq<Event>)
    ensures Sorted(r) && multiset(r) == multiset(es)
  {
    r := [];
    var n := 0;
    while n < |es|
      invariant 0 <= n <= |es| && Sorted(r) && multiset(r) == multiset(es[..n])
    {
      var k := |r|;
      while k > 0 && !Before(r[k - 1], es[n])
        invariant 0 <= k <= |r|
        invariant forall i :: k <= i < |r| ==> Before(es[n], r[i])
      {
        k := k - 1;
      }
      assert es[..n + 1] == es[..n] + [es[n]];
      MultisetInserted(r, k, es[n]);
      r := Inserted(r, k, es[n]);
      n := n + 1;
    }
    assert es[..n] == es;
  }

  /** The number of starts (or ends) up to time `t`. */
  ghost function Num(es: seq<Event>, start: bool, t: nat): (n: nat) {
    if es == [] then 0
    else
      var e := es[|es| - 1];
      Num(es[..|es| - 1], start, t) + if e.start == start && e.at <= t then 1 else 0
  }

  lemma {:induction false} NumConcat(a: seq<Event>, b: seq<Event>, start: bool, t: nat)
    ensures Num(a + b, start, t) == Num(a, start, t) + Num(b, start, t)
    decreases |b|
  {
    if b == [] {
      assert a + b == a;
    } else {
      assert (a + b)[..|a + b| - 1] == a + b[..|b| - 1];
      NumConcat(a, b[..|b| - 1], start, t);
    }
  }

  lemma NumInserted(r: seq<Event>, k: nat, e: Event, start: bool, t: nat)
    requires k <= |r|
    ensures Num(Inserted(r, k, e), start, t) == Num(r, start, t) + if e.start == start && e.at <= t then 1 else 0
  {
    assert r == r[..k] + r[k..];
    NumConcat(r[..k], r[k..], start, t);
    NumConcat(r[..k], [e], start, t);
    NumConcat(r[..k] + [e], r[k..], start, t);
  }

  /** Counting does not depend on the order of the events. */
  lemma {:induction false} NumOfPermutation(a: seq<Event>, b: seq<Event>, start: bool, t: nat)
    requires multiset(a) == multiset(b)
    ensures Num(a, start, t) == Num(b, start, t)
    decreases |a|
  {
    if a == [] {
      assert |multiset(b)| == 0;
    } else {
      var rest, k := Without(a, b);
      NumOfPermutation(a[..|a| - 1], rest, start, t);
      NumInserted(rest, k, a[|a| - 1], start, t);
    }
  }

  /** The last event of a list, taken out of a permutation of the list. */
  lemma Without(a: seq<Event>, b: seq<Event>) returns (rest: seq<Event>, k: nat)
    requires multiset(a) == multiset(b) && a != []
    ensures k <= |rest| && b == Inserted(rest, k, a[|a| - 1])
    ensures multiset(a[..|a| - 1]) == multiset(rest)
  {
    var e := a[|a| - 1];
    assert a == a[..|a| - 1] + [e];
    assert e in multiset(b);
    k :| 0 <= k < |b| && b[k] == e;
    rest := b[..k] + b[k + 1..];
    TakenOut(b, k);
    Cancel(multiset(a[..|a| - 1]), multiset(rest), e);
  }

  lemma Cancel(x: multiset<Event>, y: multiset<Event>, e: Event)
    requires x + multiset{e} == y + multiset{e}
    ensures x == y
  {
    assert x == (x + multiset{e}) - multiset{e};
    assert y == (y + multiset{e}) - multiset{e};
  }

  lemma TakenOut(b: seq<Event>, k: nat)
    requires k < |b|
    ensures b == Inserted(b[..k] + b[k + 1..], k, b[k])
    ensures multiset(b) == multiset(b[..k] + b[k + 1..]) + multiset{b[k]}
  {
    var rest := b[..k] + b[k + 1..];
    assert b == Inserted(rest, k, b[k]);
    MultisetInserted(rest, k, b[k]);
  }

  lemma {:induction false} NumNone(es: seq<Event>, start: bool, t: nat)
    requires forall i :: 0 <= i < |es| ==> es[i].start != start || es[i].at > t
    ensures Num(es, start, t) == 0
  {
    if es == [] {
    } else {
      NumNone(es[..|es| - 1], start, t);
    }
  }

  lemma {:induction false} NumAll(es: seq<Event>, start: bool, t: nat, u: nat)
    requires forall i :: 0 <= i < |es| ==> es[i].at <= t && es[i].at <= u
    ensures Num(es, start, t) == Num(es, start, u)
  {
    if es == [] {
    } else {
      NumAll(es[..|es| - 1], start, t, u);
    }
  }

  // ---------- the dilated intervals ----------

  /** The interval extended to both sides, within the values of the key type. */
  function Dilated(i: Interval, left: nat, right: nat): (r: Interval)
    requires i.lower < i.upper <= UINT_MAX
    ensures r.lower <= i.lower < i.upper <= r.upper <= UINT_MAX
    ensures r.lower + left == i.lower || (r.lower == 0 && i.lower <= left)
    ensures r.upper == i.upper + right || (r.upper == UINT_MAX <= i.upper + right)
  {
    Span(if i.lower < left then 0 else i.lower - left,
         if UINT_MAX - i.upper < right then UINT_MAX else i.upper + right)
  }

  function DilatedAll(a: seq<Interval>, left: nat, right: nat): (r: seq<Interval>)
    requires forall i :: 0 <= i < |a| ==> a[i].lower < a[i].upper <= UINT_MAX
    ensures |r| == |a| && forall i :: 0 <= i < |r| ==> r[i] == Dilated(a[i], left, right)
  {
    seq(|a|, i requires 0 <= i < |a| => Dilated(a[i], left, right))
  }

  /** The number of intervals around `x`. */
  ghost function Depth(d: seq<Interval>, x: nat): (depth: nat) {
    if d == [] then 0
    else
      var i := d[|d| - 1];
      Depth(d[..|d| - 1], x) + if i.lower <= x < i.upper then 1 else 0
  }

  lemma {:induction false} DepthIsCoverage(d: seq<Interval>, x: nat)
    ensures Depth(d, x) > 0 <==> Covers(d, x)
  {
    if d == [] {
    } else {
      DepthIsCoverage(d[..|d| - 1], x);
      CoversOneMore(d[..|d| - 1], d[|d| - 1], x);
      assert d == d[..|d| - 1] + [d[|d| - 1]];
    }
  }

  /** The events of a list of intervals, in the order in which they are generated. */
  function EventsOf(d: seq<Interval>): (es: seq<Event>)
    ensures |es| == 2 * |d|
  {
    if d == [] then []
    else EventsOf(d[..|d| - 1]) + [Event(d[|d| - 1].lower, true), Event(d[|d| - 1].upper, false)]
  }

  /** Starts minus ends count the intervals around a point, and no more intervals end than start. */
  lemma {:induction false} DepthFromEvents(d: seq<Interval>, x: nat)
    requires forall i :: 0 <= i < |d| ==> d[i].lower < d[i].upper
    ensures Num(EventsOf(d), true, x) == Num(EventsOf(d), false, x) + Depth(d, x)
  {
    if d == [] {
    } else {
      var last := d[|d| - 1];
      DepthFromEvents(d[..|d| - 1], x);
      var two := [Event(last.lower, true), Event(last.upper, false)];
      NumConcat(EventsOf(d[..|d| - 1]), two, true, x);
      NumConcat(EventsOf(d[..|d| - 1]), two, false, x);
      assert two[..1] == [two[0]] && two[..1][..0] == [];
      assert Num([two[0]], true, x) == if last.lower <= x then 1 else 0;
      assert Num([two[0]], false, x) == 0;
    }
  }

  lemma {:induction false} EndsAreUppers(d: seq<Interval>, e: Event)
    requires e in EventsOf(d) && !e.start
    ensures exists i :: 0 <= i < |d| && d[i].upper == e.at
  {
    var last := d[|d| - 1];
    if e != Event(last.upper, false) {
      EndsAreUppers(d[..|d| - 1], e);
      var i :| 0 <= i < |d| - 1 && d[..|d| - 1][i].upper == e.at;
      assert d[i].upper == e.at;
    }
  }

  // ---------- the sweep ----------

  ghost predicate Proper(d: seq<Interval>) {
    forall i :: 0 <= i < |d| ==> d[i].lower < d[i].upper <= UINT_MAX
  }

  /** The events of `d`, sorted. */
  ghost predicate Schedule(d: seq<Interval>, es: seq<Event>) {
    Proper(d) && Sorted(es) && multiset(es) == multiset(EventsOf(d))
  }

  /** Starts minus ends. */
  ghost function Tally(es: seq<Event>): (tally: int) {
    if es == [] then 0 else Tally(es[..|es| - 1]) + if es[|es| - 1].start then 1 else -1
  }

  lemma {:induction false} TallyIsNum(es: seq<Event>, t: nat)
    requires forall i :: 0 <= i < |es| ==> es[i].at <= t
    ensures Tally(es) == Num(es, true, t) - Num(es, false, t)
  {
    if es == [] {
    } else {
      TallyIsNum(es[..|es| - 1], t);
    }
  }

  lemma NumsOfSchedule(d: seq<Interval>, es: seq<Event>, k: nat, t: nat)
    requires Schedule(d, es) && k <= |es|
    ensures Num(es[..k], true, t) + Num(es[k..], true, t)
         == Num(es[..k], false, t) + Num(es[k..], false, t) + Depth(d, t)
  {
    assert es == es[..k] + es[k..];
    NumConcat(es[..k], es[k..], true, t);
    NumConcat(es[..k], es[k..], false, t);
    NumOfPermutation(es, EventsOf(d), true, t);
    NumOfPermutation(es, EventsOf(d), false, t);
    DepthFromEvents(d, t);
  }

  /** Between two events, the tally is the number of intervals around. */
  lemma TallyIsDepth(d: seq<Interval>, es: seq<Event>, k: nat, x: nat)
    requires Schedule(d, es) && k <= |es|
    requires k > 0 ==> es[k - 1].at <= x
    requires k < |es| ==> x < es[k].at
    ensures Tally(es[..k]) == Depth(d, x)
  {
    NumsOfSchedule(d, es, k, x);
    NothingBehind(es, k, x);
    AllBefore(es, k, x);
  }

  lemma NothingBehind(es: seq<Event>, k: nat, x: nat)
    requires Sorted(es) && k <= |es| && (k < |es| ==> x < es[k].at)
    ensures Num(es[k..], true, x) == Num(es[k..], false, x) == 0
  {
    assert forall i :: k < i < |es| ==> Before(es[k], es[i]);
    NumNone(es[k..], true, x);
    NumNone(es[k..], false, x);
  }

  lemma AllBefore(es: seq<Event>, k: nat, x: nat)
    requires Sorted(es) && k <= |es| && (k > 0 ==> es[k - 1].at <= x)
    ensures Tally(es[..k]) == Num(es[..k], true, x) - Num(es[..k], false, x)
  {
    assert forall i :: 0 <= i < k - 1 ==> Before(es[i], es[k - 1]);
    TallyIsNum(es[..k], x);
  }

  /** When an end comes up, its start has been counted: the counter never drops below zero. */
  lemma TallyBeforeEnd(d: seq<Interval>, es: seq<Event>, k: nat)
    requires Schedule(d, es) && k < |es| && !es[k].start
    ensures Tally(es[..k]) >= 1
  {
    NumsOfSchedule(d, es, k, es[k].at);
    EndIsBehind(es, k);
    assert k > 0 ==> Before(es[k - 1], es[k]);
    AllBefore(es, k, es[k].at);
  }

  lemma EndIsBehind(es: seq<Event>, k: nat)
    requires Sorted(es) && k < |es| && !es[k].start
    ensures Num(es[k..], true, es[k].at) == 0 && Num(es[k..], false, es[k].at) >= 1
  {
    var t := es[k].at;
    assert forall i :: k < i < |es| ==> Before(es[k], es[i]);
    NumNone(es[k..], true, t);
    assert es[k..] == [es[k]] + es[k + 1..];
    NumConcat([es[k]], es[k + 1..], false, t);
    assert [es[k]][..0] == [];
  }

  ghost function Time(es: seq<Event>, k: nat): (r: nat)
    requires k <= |es|
  {
    if k == 0 then 0 else es[k - 1].at
  }

  /** The merged interval that is open, if any, starts where nothing was before. */
  ghost predicate Fresh(d: seq<Interval>, started: nat) {
    started > 0 ==> Depth(d, started - 1) == 0
  }

  ghost predicate Merged(es: seq<Event>, k: nat, counter: nat, started: nat, result: seq<Interval>)
    requires k <= |es|
  {
    && Normalized(result) && (k == 0 ==> result == [])
    && (counter == 0 && k > 0 ==> !es[k - 1].start)
    && (counter > 0 ==> started <= Time(es, k))
    && forall i :: 0 <= i < |result| ==>
         result[i].upper <= Time(es, k) && (counter > 0 ==> result[i].upper < started)
  }

  ghost predicate Gathered(d: seq<Interval>, p: nat, counter: nat, started: nat, result: seq<Interval>) {
    forall x: nat :: x < p ==> (Depth(d, x) > 0 <==> Covers(result, x) || (counter > 0 && started <= x))
  }

  ghost predicate Sweeping(d: seq<Interval>, es: seq<Event>, k: nat, counter: nat, started: nat,
                           result: seq<Interval>)
    requires k <= |es|
  {
    && counter == Tally(es[..k])
    && (counter > 0 ==> Fresh(d, started))
    && Merged(es, k, counter, started, result)
    && Gathered(d, Time(es, k), counter, started, result)
  }

  /** A point of the intervals lies within reach of `x`: not more than `left` behind it or `right` before it. */
  ghost predicate Near(a: seq<Interval>, left: nat, right: nat, x: nat) {
    exists y: nat :: Covers(a, y) && y <= x + left && x <= y + right
  }

  /** A point is covered by the extended intervals exactly if it is near enough to one that is covered. */
  lemma DilatedIsNear(a: seq<Interval>, left: nat, right: nat, x: nat)
    requires Proper(a)
    ensures Covers(DilatedAll(a, left, right), x) <==> x < UINT_MAX && Near(a, left, right, x)
  {
    var d := DilatedAll(a, left, right);
    if i :| 0 <= i < |d| && d[i].lower <= x < d[i].upper {
      var y: nat := if x < a[i].lower then a[i].lower else if x < a[i].upper then x else a[i].upper - 1;
      assert a[i].lower <= y < a[i].upper;
      assert Covers(a, y);
    }
    if x < UINT_MAX && Near(a, left, right, x) {
      var y: nat :| Covers(a, y) && y <= x + left && x <= y + right;
      var i :| 0 <= i < |a| && a[i].lower <= y < a[i].upper;
      assert d[i].lower <= x < d[i].upper;
    }
  }

  /** All intervals extended by `left` and `right`, merged where they touch or overlap. */
  method Extend(a: seq<Interval>, left: nat, right: nat) returns (result: seq<Interval>)
    requires forall i :: 0 <= i < |a| ==> a[i].lower < a[i].upper <= UINT_MAX
    ensures Normalized(result) && WithinKeys(result)
    ensures forall x: nat :: Covers(result, x) <==>
      x < UINT_MAX && exists y: nat :: Covers(a, y) && y <= x + left && x <= y + right
  {
    ghost var d := DilatedAll(a, left, right);
    var events := Events(a, left, right);
    events := Sort(events);
    var counter: nat, started: nat := 0, UINT_MAX;
    result := [];
    var k := 0;
    while k < |events|
      invariant 0 <= k <= |events|
      invariant Sweeping(d, events, k, counter, started, result)
    {
      counter, started, result := HandleEvent(d, events, k, counter, started, result);
      k := k + 1;
    }
    SweepIsComplete(d, events, counter, started, result);
    forall x: nat
      ensures Covers(result, x) <==> x < UINT_MAX && Near(a, left, right, x)
    {
      DilatedIsNear(a, left, right, x);
    }
  }

  method Events(a: seq<Interval>, left: nat, right: nat) returns (es: seq<Event>)
    requires forall i :: 0 <= i < |a| ==> a[i].lower < a[i].upper <= UINT_MAX
    ensures es == EventsOf(DilatedAll(a, left, right))
  {
    es := [];
    ghost var d := DilatedAll(a, left, right);
    var k := 0;
    while k < |a|
      invariant 0 <= k <= |a|
      invariant es == EventsOf(d[..k])
    {
      var i := a[k];
      if i.lower < left {
        es := es + [Event(0, true)];
      } else {
        es := es + [Event(Unsigned(i.lower - left), true)];
      }
      if Unsigned(UINT_MAX - i.upper) < right {
        es := es + [Event(UINT_MAX, false)];
      } else {
        es := es + [Event(Unsigned(i.upper + right), false)];
      }
      assert d[..k + 1][..k] == d[..k];
      assert es == EventsOf(d[..k]) + [Event(d[k].lower, true), Event(d[k].upper, false)];
      k := k + 1;
    }
    assert d[..k] == d;
  }

  method HandleEvent(ghost d: seq<Interval>, es: seq<Event>, k: nat, counter0: nat, started0: nat,
                     result0: seq<Interval>)
    returns (counter: nat, started: nat, result: seq<Interval>)
    requires Schedule(d, es) && k < |es|
    requires Sweeping(d, es, k, counter0, started0, result0)
    ensures Sweeping(d, es, k + 1, counter, started, result)
  {
    counter, started, result := counter0, started0, result0;
    TallyOneMore(es, k);
    var event := es[k];
    if event.start {
      counter := counter + 1;
      if counter == 1 {
        started := event.at;
        OpensFresh(d, es, k);
      }
    } else {
      TallyBeforeEnd(d, es, k);
      counter := counter - 1;
      if counter == 0 {
        ClosesLater(d, es, k, started);
        result := result + [Span(started, event.at)];
      }
    }
    GatheredMovesOn(d, es, k, counter0, started0, result0, counter, started, result);
  }

  lemma TallyOneMore(es: seq<Event>, k: nat)
    requires k < |es|
    ensures Tally(es[..k + 1]) == Tally(es[..k]) + if es[k].start then 1 else -1
  {
    assert es[..k + 1][..k] == es[..k];
  }

  /** A start that finds the counter at zero comes strictly after the last end. */
  lemma OpensFresh(d: seq<Interval>, es: seq<Event>, k: nat)
    requires Schedule(d, es) && k < |es| && es[k].start && Tally(es[..k]) == 0
    requires k > 0 ==> !es[k - 1].start
    ensures Fresh(d, es[k].at)
    ensures k > 0 ==> es[k - 1].at < es[k].at
  {
    if k > 0 {
      assert Before(es[k - 1], es[k]);
    }
    if es[k].at > 0 {
      TallyIsDepth(d, es, k, es[k].at - 1);
    }
  }

  /** The interval that ends was open before, so the merged one has not just been opened. */
  lemma ClosesLater(d: seq<Interval>, es: seq<Event>, k: nat, started: nat)
    requires Schedule(d, es) && k < |es| && !es[k].start
    requires Fresh(d, started) && started <= es[k].at
    ensures started < es[k].at
  {
    assert es[k] in multiset(es);
    EndsAreUppers(d, es[k]);
    var i :| 0 <= i < |d| && d[i].upper == es[k].at;
    var x: nat := es[k].at - 1;
    assert d[i].lower <= x < d[i].upper;
    DepthIsCoverage(d, x);
  }

  lemma GatheredMovesOn(d: seq<Interval>, es: seq<Event>, k: nat,
                        counter0: nat, started0: nat, result0: seq<Interval>,
                        counter: nat, started: nat, result: seq<Interval>)
    requires Schedule(d, es) && k < |es|
    requires Sweeping(d, es, k, counter0, started0, result0)
    requires counter0 > 0 && counter > 0 ==> started == started0 && result == result0
    requires counter0 == 0 ==> counter == 1 && started == es[k].at && result == result0
    requires counter == 0 ==> result == result0 + [Span(started0, es[k].at)]
    ensures Gathered(d, es[k].at, counter, started, result)
  {
    forall x: nat | x < es[k].at
      ensures Depth(d, x) > 0 <==> Covers(result, x) || (counter > 0 && started <= x)
    {
      if counter == 0 {
        CoversOneMore(result0, Span(started0, es[k].at), x);
      }
      if Time(es, k) <= x {
        TallyIsDepth(d, es, k, x);
      }
    }
  }

  /** After the last event the counter is zero again, and nothing lies behind. */
  lemma SweepIsComplete(d: seq<Interval>, es: seq<Event>, counter: nat, started: nat, result: seq<Interval>)
    requires Schedule(d, es) && Sweeping(d, es, |es|, counter, started, result)
    ensures counter == 0
    ensures Normalized(result) && WithinKeys(result)
    ensures forall x: nat :: Covers(result, x) <==> Covers(d, x)
  {
    var p := Time(es, |es|);
    forall x: nat
      ensures x >= UINT_MAX ==> Depth(d, x) == 0
      ensures x >= p ==> Depth(d, x) == counter
      ensures Depth(d, x) > 0 <==> Covers(d, x)
    {
      DepthIsCoverage(d, x);
      if x >= p {
        TallyIsDepth(d, es, |es|, x);
      }
    }
    assert Depth(d, p + UINT_MAX) == counter == 0;
    forall i | 0 <= i < |result|
      ensures result[i].upper <= UINT_MAX
    {
      var last: nat := result[i].upper - 1;
      assert result[i].lower <= last < result[i].upper;
      assert Covers(result, last) && Depth(d, last) > 0;
    }
  }
}
