/** Sets of time points as ordered lists of right-open intervals. */
module Intervals {
  import opened Machine
  import opened Maybes
  import opened IntervalRunner

  type Interval = Piece<()>

  function Span(lower: nat, upper: nat): (r: Interval) {
    Piece(lower, upper, ())
  }

  /** All bounds are values of the key type `unsigned int`. */
  ghost predicate WithinKeys(xs: seq<Interval>) {
    forall i :: 0 <= i < |xs| ==> xs[i].upper <= UINT_MAX
  }

  /** Ordered, and no two intervals touch: the list is determined by the points it covers. */
  ghost predicate Normalized(xs: seq<Interval>) {
    && (forall i :: 0 <= i < |xs| ==> xs[i].lower < xs[i].upper)
    && (forall i, j :: 0 <= i < j < |xs| ==> xs[i].upper < xs[j].lower)
  }

  // ---------- boolean operations ----------

  type BinOp = (bool, bool) -> bool

  ghost predicate Combines(op: BinOp, a: seq<Interval>, b: seq<Interval>, x: nat) {
    op(Covers(a, x), Covers(b, x))
  }

  /** The variables of the sweep. */
  datatype Sweep = Sweep(aOpen: bool, bOpen: bool, openSince: Maybe<nat>, result: seq<Interval>)

  /** Their values after `k` calls of the handler. */
  ghost predicate Swept(op: BinOp, m: Merge<()>, k: nat, s: Sweep)
    requires k <= |m.calls|
  {
    && s.aOpen == (k > 0 && Covers(m.a, Reached(m, k))) && s.bOpen == (k > 0 && Covers(m.b, Reached(m, k)))
    && s.openSince.Valid() == op(s.aOpen, s.bOpen)
    && (k == 0 ==> s.result == [])
    && (s.openSince.Valid() ==> s.openSince.value <= Reached(m, k))
    && Closed(s.result, Reached(m, k), s.openSince)
    && Collected(op, m, Reached(m, k), s.openSince, s.result)
  }

  /** The closed intervals are apart from each other and from the open one. */
  ghost predicate Closed(result: seq<Interval>, p: nat, openSince: Maybe<nat>) {
    && Normalized(result)
    && forall i :: 0 <= i < |result| ==>
         result[i].upper <= p && (openSince.Valid() ==> result[i].upper < openSince.value)
  }

  /** Below `p` the closed intervals and the open one cover what they should. */
  ghost predicate Collected(op: BinOp, m: Merge<()>, p: nat, openSince: Maybe<nat>, result: seq<Interval>) {
    forall x: nat :: x < p ==>
      (Combines(op, m.a, m.b, x) <==> Covers(result, x) || (openSince.Valid() && openSince.value <= x))
  }

  /** The handler closes, opens, or leaves the open interval as it was. */
  ghost predicate Follows(point: nat, s0: Sweep, s: Sweep) {
    if s0.openSince.Valid() && !s.openSince.Valid() then s.result == s0.result + [Span(s0.openSince.value, point)]
    else
      && s.result == s0.result
      && s.openSince == if s.openSince.Valid() && !s0.openSince.Valid() then Just(point) else s0.openSince
  }

  /** The sweep over both lists. The operation has to yield nothing where both sides are closed, as union,
      intersection and difference do. */
  method OperatorBase(op: BinOp, a: seq<Interval>, b: seq<Interval>) returns (result: seq<Interval>)
    requires Ordered(a) && Ordered(b) && !op(false, false)
    ensures Normalized(result)
    ensures forall x: nat :: Covers(result, x) <==> Combines(op, a, b, x)
    ensures WithinKeys(a) && WithinKeys(b) ==> WithinKeys(result)
  {
    var s := Sweep(false, false, Nothing, []);
    var m := ProcessIntervals(a, b);
    var k: nat := 0;
    while k < |m.calls|
      invariant k <= |m.calls| && Swept(op, m, k, s)
    {
      s := Handle(op, m, k, s);
      k := k + 1;
    }
    SweepEnds(op, m, s);
    result := s.result;
  }

  /** The handler of the sweep. */
  method Handle(op: BinOp, m: Merge<()>, k: nat, s0: Sweep) returns (s: Sweep)
    requires k < |m.calls| && !op(false, false) && Swept(op, m, k, s0)
    ensures Swept(op, m, k + 1, s)
  {
    var Sweep(aOpen, bOpen, openSince, result) := s0;
    var c := m.calls[k];
    FlagsAndValue(m, m.a, k, c.aStart, c.aEnd);
    FlagsAndValue(m, m.b, k, c.bStart, c.bEnd);
    if c.aStart.Valid() {
      aOpen := true;
    } else if c.aEnd.Valid() {
      aOpen := false;
    }
    if c.bStart.Valid() {
      bOpen := true;
    } else if c.bEnd.Valid() {
      bOpen := false;
    }
    if openSince.Valid() {
      if !op(aOpen, bOpen) {
        result := result + [Span(openSince.value, c.point)];
        openSince := Nothing;
      }
    } else {
      if op(aOpen, bOpen) {
        openSince := Just(c.point);
      }
    }
    s := Sweep(aOpen, bOpen, openSince, result);
    ClosedMovesOn(op, m, k, s0, s);
    CollectedMovesOn(op, m, k, s0, s);
  }

  lemma ClosedMovesOn(op: BinOp, m: Merge<()>, k: nat, s0: Sweep, s: Sweep)
    requires k < |m.calls| && !op(false, false) && Swept(op, m, k, s0) && Follows(m.calls[k].point, s0, s)
    ensures Closed(s.result, m.calls[k].point, s.openSince)
  {
  }

  lemma CoversOneMore(xs: seq<Interval>, i: Interval, x: nat)
    ensures Covers(xs + [i], x) <==> Covers(xs, x) || i.lower <= x < i.upper
  {
    if Covers(xs, x) {
      var j :| 0 <= j < |xs| && xs[j].lower <= x < xs[j].upper;
      assert (xs + [i])[j] == xs[j];
    }
    if i.lower <= x < i.upper {
      assert (xs + [i])[|xs|] == i;
    }
  }

  lemma CoversOneMorePrefix(a: seq<Interval>, k: nat)
    requires k < |a|
    ensures forall x: nat :: Covers(a[..k + 1], x) <==> Covers(a[..k], x) || a[k].lower <= x < a[k].upper
  {
    assert a[..k + 1] == a[..k] + [a[k]];
    forall x: nat
      ensures Covers(a[..k + 1], x) <==> Covers(a[..k], x) || a[k].lower <= x < a[k].upper
    {
      CoversOneMore(a[..k], a[k], x);
    }
  }

  lemma CollectedMovesOn(op: BinOp, m: Merge<()>, k: nat, s0: Sweep, s: Sweep)
    requires k < |m.calls| && !op(false, false) && Swept(op, m, k, s0) && Follows(m.calls[k].point, s0, s)
    ensures Collected(op, m, m.calls[k].point, s.openSince, s.result)
  {
    forall x: nat | x < m.calls[k].point
      ensures Combines(op, m.a, m.b, x) <==> Covers(s.result, x) || (s.openSince.Valid() && s.openSince.value <= x)
    {
      if s0.openSince.Valid() && !s.openSince.Valid() {
        CoversOneMore(s0.result, Span(s0.openSince.value, m.calls[k].point), x);
      }
      if Reached(m, k) <= x {
        ConstantBetween(m, m.a, k, x);
        ConstantBetween(m, m.b, k, x);
      }
    }
  }

  lemma SweepEnds(op: BinOp, m: Merge<()>, s: Sweep)
    requires !op(false, false) && Swept(op, m, |m.calls|, s)
    ensures Normalized(s.result)
    ensures forall x: nat :: Covers(s.result, x) <==> Combines(op, m.a, m.b, x)
    ensures WithinKeys(m.a) && WithinKeys(m.b) ==> WithinKeys(s.result)
  {
    var p := Reached(m, |m.calls|);
    ConstantBetween(m, m.a, |m.calls|, p);
    ConstantBetween(m, m.b, |m.calls|, p);
    forall x: nat
      ensures Covers(s.result, x) <==> Combines(op, m.a, m.b, x)
    {
      if p <= x {
        ConstantBetween(m, m.a, |m.calls|, x);
        ConstantBetween(m, m.b, |m.calls|, x);
      }
    }
    if WithinKeys(m.a) && WithinKeys(m.b) {
      forall i | 0 <= i < |s.result|
        ensures s.result[i].upper <= UINT_MAX
      {
        var last: nat := s.result[i].upper - 1;
        assert s.result[i].lower <= last < s.result[i].upper;
        assert Covers(s.result, last) && Combines(op, m.a, m.b, last);
      }
    }
  }

  method Union(a: seq<Interval>, b: seq<Interval>) returns (r: seq<Interval>)
    requires Ordered(a) && Ordered(b)
    ensures Normalized(r) && (WithinKeys(a) && WithinKeys(b) ==> WithinKeys(r))
    ensures forall x: nat :: Covers(r, x) <==> Covers(a, x) || Covers(b, x)
  {
    r := OperatorBase((aOpen, bOpen) => aOpen || bOpen, a, b);
  }

  method Intersection(a: seq<Interval>, b: seq<Interval>) returns (r: seq<Interval>)
    requires Ordered(a) && Ordered(b)
    ensures Normalized(r) && (WithinKeys(a) && WithinKeys(b) ==> WithinKeys(r))
    ensures forall x: nat :: Covers(r, x) <==> Covers(a, x) && Covers(b, x)
  {
    r := OperatorBase((aOpen, bOpen) => aOpen && bOpen, a, b);
  }

  method Difference(a: seq<Interval>, b: seq<Interval>) returns (r: seq<Interval>)
    requires Ordered(a) && Ordered(b)
    ensures Normalized(r) && (WithinKeys(a) && WithinKeys(b) ==> WithinKeys(r))
    ensures forall x: nat :: Covers(r, x) <==> Covers(a, x) && !Covers(b, x)
  {
    r := OperatorBase((aOpen, bOpen) => aOpen && !bOpen, a, b);
  }

  /** The complement within the values of the key type, without the largest one. */
  method Complement(a: seq<Interval>) returns (r: seq<Interval>)
    requires Ordered(a)
    ensures Normalized(r) && (WithinKeys(a) ==> WithinKeys(r))
    ensures forall x: nat :: Covers(r, x) <==> x < UINT_MAX && !Covers(a, x)
  {
    var negative: seq<Interval> := [Span(0, UINT_MAX)];
    assert forall x: nat :: Covers(negative, x) <==> x < UINT_MAX by {
      forall x: nat
        ensures Covers(negative, x) <==> x < UINT_MAX
      {
        assert negative[0] == Span(0, UINT_MAX);
      }
    }
    r := Difference(negative, a);
  }

  /** Shifts to the left; what would come to lie before 0 is cut off. */
  method MoveLeft(a: seq<Interval>, amount: nat) returns (r: seq<Interval>)
    requires Ordered(a) && WithinKeys(a) && IsUnsigned(amount)
    ensures Ordered(r) && WithinKeys(r) && (Normalized(a) ==> Normalized(r))
    ensures forall x: nat :: Covers(r, x) <==> Covers(a, x + amount)
  {
    r := [];
    var k := 0;
    while k < |a|
      invariant 0 <= k <= |a| && Moved(a, k, amount, r)
    {
      var i := a[k];
      ghost var before := r;
      if !(amount >= i.upper) {
        var upper := Unsigned(i.upper - amount);
        var lower := Unsigned(i.lower - amount);
        if amount > i.lower {
          lower := 0;
        }
        r := r + [Span(lower, upper)];
      }
      MovedOneMore(a, k, amount, before, r);
      k := k + 1;
    }
    assert a[..k] == a;
  }

  /** The first `k` intervals have been shifted. */
  ghost predicate Moved(a: seq<Interval>, k: nat, amount: nat, r: seq<Interval>)
    requires k <= |a|
  {
    MovedInOrder(a, k, amount, r) && MovedPoints(a, k, amount, r)
  }

  ghost predicate MovedInOrder(a: seq<Interval>, k: nat, amount: nat, r: seq<Interval>)
    requires k <= |a|
  {
    && Ordered(r) && WithinKeys(r) && (Normalized(a) ==> Normalized(r))
    && forall j :: 0 <= j < |r| ==> k > 0 && r[j].upper + amount <= a[k - 1].upper
  }

  ghost predicate MovedPoints(a: seq<Interval>, k: nat, amount: nat, r: seq<Interval>)
    requires k <= |a|
  {
    forall x: nat :: Covers(r, x) <==> Covers(a[..k], x + amount)
  }

  /** One more interval, unless it would come to lie before 0. */
  ghost predicate MovesOne(i: Interval, amount: nat, before: seq<Interval>, after: seq<Interval>) {
    if amount >= i.upper then after == before
    else after == before + [Span(if amount > i.lower then 0 else i.lower - amount, i.upper - amount)]
  }

  lemma MovedOneMore(a: seq<Interval>, k: nat, amount: nat, before: seq<Interval>, after: seq<Interval>)
    requires Ordered(a) && WithinKeys(a) && k < |a| && Moved(a, k, amount, before)
    requires MovesOne(a[k], amount, before, after)
    ensures Moved(a, k + 1, amount, after)
  {
    MovedStaysInOrder(a, k, amount, before, after);
    CoversOneMorePrefix(a, k);
    forall x: nat
      ensures Covers(after, x) <==> Covers(a[..k + 1], x + amount)
    {
      if amount < a[k].upper {
        CoversOneMore(before, after[|before|], x);
      }
    }
  }

  lemma MovedStaysInOrder(a: seq<Interval>, k: nat, amount: nat, before: seq<Interval>, after: seq<Interval>)
    requires Ordered(a) && WithinKeys(a) && k < |a| && MovedInOrder(a, k, amount, before)
    requires MovesOne(a[k], amount, before, after)
    ensures MovedInOrder(a, k + 1, amount, after)
  {
  }

  /** A binary search for an interval that is neither entirely before nor entirely behind the query. */
  method Overlaps(a: seq<Interval>, query: Interval) returns (found: bool)
    requires Ordered(a) && query.lower < query.upper
    ensures found <==> exists x: nat :: query.lower <= x < query.upper && Covers(a, x)
  {
    var lo, hi := 0, |a|;
    while lo < hi
      invariant 0 <= lo <= hi <= |a|
      invariant forall i :: 0 <= i < lo ==> a[i].upper <= query.lower
      invariant forall i :: hi <= i < |a| ==> query.lower < a[i].upper
    {
      var mid := (lo + hi) / 2;
      if a[mid].upper <= query.lower {
        lo := mid + 1;
      } else {
        hi := mid;
      }
    }
    found := lo != |a| && !(query.upper <= a[lo].lower);
    if found {
      var x := if query.lower < a[lo].lower then a[lo].lower else query.lower;
      assert a[lo].lower <= x < a[lo].upper;
      assert Covers(a, x);
    } else {
      forall x: nat | query.lower <= x < query.upper
        ensures !Covers(a, x)
      {
      }
    }
  }

  // ---------- normal forms ----------

  /** Two normalized lists that cover the same points are equal. */
  lemma {:induction false} NormalForm(a: seq<Interval>, b: seq<Interval>)
    requires Normalized(a) && Normalized(b)
    requires forall x: nat :: Covers(a, x) <==> Covers(b, x)
    ensures a == b
    decreases |a|
  {
    if a == [] || b == [] {
      forall xs: seq<Interval> | xs != [] && Normalized(xs)
        ensures Covers(xs, xs[0].lower)
      {
        assert xs[0].lower <= xs[0].lower < xs[0].upper;
      }
    } else {
      SameHead(a, b);
      forall x: nat
        ensures Covers(a[1..], x) <==> Covers(b[1..], x)
      {
        CoversTail(a, x);
        CoversTail(b, x);
      }
      NormalForm(a[1..], b[1..]);
      assert a == [a[0]] + a[1..] && b == [b[0]] + b[1..];
    }
  }

  lemma CoversTail(a: seq<Interval>, x: nat)
    requires Normalized(a) && a != []
    ensures Covers(a, x) <==> a[0].lower <= x < a[0].upper || Covers(a[1..], x)
    ensures Covers(a[1..], x) ==> a[0].upper < x
  {
    if Covers(a, x) {
      var i :| 0 <= i < |a| && a[i].lower <= x < a[i].upper;
      assert i > 0 ==> a[1..][i - 1] == a[i];
    }
    if Covers(a[1..], x) {
      var i :| 0 <= i < |a[1..]| && a[1..][i].lower <= x < a[1..][i].upper;
      assert a[i + 1] == a[1..][i];
    }
  }

  lemma SameHead(a: seq<Interval>, b: seq<Interval>)
    requires Normalized(a) && Normalized(b) && a != [] && b != []
    requires forall x: nat :: Covers(a, x) <==> Covers(b, x)
    ensures a[0] == b[0]
  {
    HeadReaches(a, b);
    HeadReaches(b, a);
    assert a[0].data == () && b[0].data == ();
  }

  lemma HeadReaches(a: seq<Interval>, b: seq<Interval>)
    requires Normalized(a) && Normalized(b) && a != [] && b != []
    requires forall x: nat :: Covers(a, x) <==> Covers(b, x)
    ensures b[0].lower <= a[0].lower && (b[0].lower == a[0].lower ==> a[0].upper <= b[0].upper)
  {
    CoversTail(a, a[0].lower);
    CoversTail(b, a[0].lower);
    if b[0].lower == a[0].lower && b[0].upper < a[0].upper {
      CoversTail(a, b[0].upper);
      CoversTail(b, b[0].upper);
    }
  }

  // ---------- coverage ----------

  function Range(lower: nat, upper: nat): (r: set<int>)
    ensures forall x :: x in r <==> lower <= x < upper
    decreases upper
  {
    if upper <= lower then {} else Range(lower, upper - 1) + {upper - 1}
  }

  lemma {:induction false} RangeCardinality(lower: nat, upper: nat)
    requires lower <= upper
    ensures |Range(lower, upper)| == upper - lower
    decreases upper
  {
    if lower == upper {
    } else {
      RangeCardinality(lower, upper - 1);
      var rest := Range(lower, upper - 1);
      assert upper - 1 !in rest && Range(lower, upper) == rest + {upper - 1};
    }
  }

  /** The covered points among the values of the key type. */
  ghost function Points(a: seq<Interval>): (points: set<int>) {
    set x | 0 <= x <= UINT_MAX && Covers(a, x)
  }

  method Coverage(a: seq<Interval>) returns (sum: nat)
    requires Ordered(a) && WithinKeys(a)
    ensures sum == |Points(a)|
  {
    sum := 0;
    var k := 0;
    while k < |a|
      invariant 0 <= k <= |a|
      invariant sum == CoverageBefore(a, k)
    {
      CoverageOneMore(a, k);
      sum := Unsigned(sum + Unsigned(a[k].upper - a[k].lower));
      k := k + 1;
    }
    assert a[..k] == a;
  }

  ghost function CoverageBefore(a: seq<Interval>, k: nat): (r: nat)
    requires k <= |a|
  {
    |Points(a[..k])|
  }

  lemma {:induction false} CoverageOneMore(a: seq<Interval>, k: nat)
    requires Ordered(a) && WithinKeys(a) && k < |a|
    ensures CoverageBefore(a, k + 1) == CoverageBefore(a, k) + a[k].upper - a[k].lower
    ensures CoverageBefore(a, k) <= a[k].lower
    ensures CoverageBefore(a, 0) == 0
  {
    assert Points(a[..0]) == {};
    PointsOneMore(a, k);
    if k > 0 {
      CoverageOneMore(a, k - 1);
    }
  }

  lemma PointsOneMore(a: seq<Interval>, k: nat)
    requires Ordered(a) && WithinKeys(a) && k < |a|
    ensures |Points(a[..k + 1])| == |Points(a[..k])| + a[k].upper - a[k].lower
  {
    CoversOneMorePrefix(a, k);
    RangeCardinality(a[k].lower, a[k].upper);
    assert Points(a[..k + 1]) == Points(a[..k]) + Range(a[k].lower, a[k].upper);
    assert Points(a[..k]) !! Range(a[k].lower, a[k].upper);
  }

  lemma SetSizes(a: set<int>, b: set<int>)
    ensures |a + b| + |a * b| == |a| + |b|
    ensures |a - b| + |a * b| == |a|
  {
    assert a + b == (a - b) + b;
    assert a == (a - b) + (a * b);
  }

  /** Lists that relate like union, intersection and difference have coverages that add up. */
  lemma CoverageLaws(a: seq<Interval>, b: seq<Interval>, union: seq<Interval>, both: seq<Interval>,
                     only: seq<Interval>)
    requires forall x: nat :: Covers(union, x) <==> Covers(a, x) || Covers(b, x)
    requires forall x: nat :: Covers(both, x) <==> Covers(a, x) && Covers(b, x)
    requires forall x: nat :: Covers(only, x) <==> Covers(a, x) && !Covers(b, x)
    ensures |Points(union)| + |Points(both)| == |Points(a)| + |Points(b)|
    ensures |Points(only)| + |Points(both)| == |Points(a)|
  {
    assert Points(union) == Points(a) + Points(b);
    assert Points(both) == Points(a) * Points(b);
    assert Points(only) == Points(a) - Points(b);
    SetSizes(Points(a), Points(b));
  }
}
