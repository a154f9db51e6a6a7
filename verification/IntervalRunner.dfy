/** A merge over two ordered lists of right-open intervals that reports starts and ends at common points. */
module IntervalRunner {
  import opened Maybes

  /** The right-open interval from `lower` to `upper`, with some data attached. */
  datatype Piece<D> = Piece(lower: nat, upper: nat, data: D)

  /** The arguments of one call of the handler. */
  datatype Call<D> = Call(point: nat, aStart: Maybe<D>, aEnd: Maybe<D>, bStart: Maybe<D>, bEnd: Maybe<D>)

  /** Non-empty pieces, in order and without overlap. */
  ghost predicate Ordered<D>(xs: seq<Piece<D>>) {
    && (forall i :: 0 <= i < |xs| ==> xs[i].lower < xs[i].upper)
    && (forall i, j :: 0 <= i < j < |xs| ==> xs[i].upper <= xs[j].lower)
  }

  ghost predicate IsStart<D>(xs: seq<Piece<D>>, q: nat, m: Maybe<D>) {
    if m.Valid() then exists i :: 0 <= i < |xs| && xs[i].lower == q && xs[i].data == m.value
    else forall i :: 0 <= i < |xs| ==> xs[i].lower != q
  }

  ghost predicate IsEnd<D>(xs: seq<Piece<D>>, q: nat, m: Maybe<D>) {
    if m.Valid() then exists i :: 0 <= i < |xs| && xs[i].upper == q && xs[i].data == m.value
    else forall i :: 0 <= i < |xs| ==> xs[i].upper != q
  }

  ghost predicate Faithful<D>(a: seq<Piece<D>>, b: seq<Piece<D>>, c: Call<D>) {
    && IsStart(a, c.point, c.aStart) && IsEnd(a, c.point, c.aEnd)
    && IsStart(b, c.point, c.bStart) && IsEnd(b, c.point, c.bEnd)
  }

  /** `q` is not strictly between the points of the calls k - 1 and k. */
  ghost predicate Outside<D>(calls: seq<Call<D>>, k: nat, q: nat)
    requires k <= |calls|
  {
    (k > 0 && q <= calls[k - 1].point) || (k < |calls| && calls[k].point <= q)
  }

  /** No piece starts or ends strictly between two of the first `n` calls, or before the first one. */
  ghost predicate Covered<D>(xs: seq<Piece<D>>, calls: seq<Call<D>>, n: nat)
    requires n <= |calls| + 1
  {
    forall k: nat, i: nat :: k < n && i < |xs| ==>
      Outside(calls, k, xs[i].lower) && Outside(calls, k, xs[i].upper)
  }

  /** One call per point, in ascending order, each with the right arguments; only the first may be for a point
      that is no endpoint. */
  ghost predicate Trace<D>(a: seq<Piece<D>>, b: seq<Piece<D>>, calls: seq<Call<D>>) {
    && |calls| > 0
    && (forall k, l :: 0 <= k < l < |calls| ==> calls[k].point < calls[l].point)
    && (forall k :: 0 <= k < |calls| ==> Faithful(a, b, calls[k]))
    && (forall k :: 0 < k < |calls| ==>
          calls[k].aStart.Valid() || calls[k].aEnd.Valid() || calls[k].bStart.Valid() || calls[k].bEnd.Valid())
  }

  /** A cursor at the first piece that is not over at `last`. */
  ghost predicate At<D>(xs: seq<Piece<D>>, i: nat, last: nat) {
    && i <= |xs|
    && (forall j :: 0 <= j < i ==> xs[j].upper <= last)
    && (i < |xs| ==> last < xs[i].upper)
  }

  /** The next endpoint behind `last`. */
  ghost function NextPoint<D>(xs: seq<Piece<D>>, i: nat, last: nat): (r: nat)
    requires i < |xs|
  {
    if xs[i].lower > last then xs[i].lower else xs[i].upper
  }

  ghost predicate NextIsStart<D>(xs: seq<Piece<D>>, i: nat, last: nat)
    requires i < |xs|
  {
    xs[i].lower > last || (i + 1 < |xs| && xs[i + 1].lower == xs[i].upper)
  }

  function StartData<D>(xs: seq<Piece<D>>, i: nat, starts: bool, ends: bool): (r: Maybe<D>)
    requires starts ==> i + (if ends then 1 else 0) < |xs|
  {
    if starts then Just(xs[if ends then i + 1 else i].data) else Nothing
  }

  function EndData<D>(xs: seq<Piece<D>>, i: nat, ends: bool): (r: Maybe<D>)
    requires ends ==> i < |xs|
  {
    if ends then Just(xs[i].data) else Nothing
  }

  /** The flags that the loop computes for one of the lists when it moves on to `q`. */
  ghost predicate Flags<D>(xs: seq<Piece<D>>, i: nat, last: nat, q: nat, starts: bool, ends: bool) {
    && last < q
    && (i >= |xs| ==> !starts && !ends)
    && (i < |xs| ==> q <= NextPoint(xs, i, last))
    && (i < |xs| && q < NextPoint(xs, i, last) ==> !starts && !ends)
    && (i < |xs| && q == NextPoint(xs, i, last) ==>
          starts == NextIsStart(xs, i, last) && ends == (xs[i].lower <= last))
  }

  lemma FlagsAreFaithful<D>(xs: seq<Piece<D>>, i: nat, last: nat, q: nat, starts: bool, ends: bool)
    requires Ordered(xs) && At(xs, i, last) && Flags(xs, i, last, q, starts, ends)
    ensures starts ==> i + (if ends then 1 else 0) < |xs|
    ensures ends ==> i < |xs|
    ensures IsStart(xs, q, StartData(xs, i, starts, ends)) && IsEnd(xs, q, EndData(xs, i, ends))
    ensures At(xs, if ends then i + 1 else i, q)
    ensures forall j :: 0 <= j < |xs| ==> !(last < xs[j].lower < q) && !(last < xs[j].upper < q)
    ensures Left(xs, if ends then i + 1 else i, q) <= Left(xs, i, last) - if starts || ends then 1 else 0
  {
  }

  /** The number of endpoints still to come, counting those of touching pieces twice. */
  ghost function Left<D>(xs: seq<Piece<D>>, i: nat, last: nat): (r: nat)
    requires i <= |xs|
  {
    2 * (|xs| - i) - if i < |xs| && xs[i].lower <= last then 1 else 0
  }

  /** The next endpoint of either list, and what happens there. */
  method Next<D>(a: seq<Piece<D>>, ia: nat, b: seq<Piece<D>>, ib: nat, lastPoint: nat)
    returns (nextPoint: nat, aStarts: bool, aEnds: bool, bStarts: bool, bEnds: bool)
    requires Ordered(a) && Ordered(b) && At(a, ia, lastPoint) && At(b, ib, lastPoint)
    requires ia < |a| || ib < |b|
    ensures Flags(a, ia, lastPoint, nextPoint, aStarts, aEnds)
    ensures Flags(b, ib, lastPoint, nextPoint, bStarts, bEnds)
    ensures aStarts || aEnds || bStarts || bEnds
  {
    nextPoint := lastPoint;
    aEnds, aStarts, bEnds, bStarts := false, false, false, false;
    if ia < |a| {
      if a[ia].lower > lastPoint {
        aStarts := true;
        nextPoint := a[ia].lower;
      } else {
        aEnds := true;
        nextPoint := a[ia].upper;
        if ia + 1 != |a| {
          if a[ia + 1].lower == nextPoint {
            aStarts := true;
          }
        }
      }
    }
    if ib < |b| {
      if b[ib].lower > lastPoint {
        if nextPoint == lastPoint || b[ib].lower < nextPoint {
          bStarts := true;
          aStarts := false;
          aEnds := false;
          nextPoint := b[ib].lower;
        } else if b[ib].lower == nextPoint {
          bStarts := true;
        }
      } else {
        if nextPoint == lastPoint || b[ib].upper < nextPoint {
          bStarts := false;
          bEnds := true;
          aStarts := false;
          aEnds := false;
          nextPoint := b[ib].upper;
        } else if b[ib].upper == nextPoint {
          bEnds := true;
        }
        if bEnds && ib + 1 != |b| && b[ib + 1].lower == nextPoint {
          bStarts := true;
        }
      }
    }
  }

  /** The state of the merge: cursors, the last point, and the calls made so far. */
  ghost predicate Running<D>(a: seq<Piece<D>>, ia: nat, b: seq<Piece<D>>, ib: nat, last: nat, calls: seq<Call<D>>) {
    && At(a, ia, last) && At(b, ib, last)
    && Trace(a, b, calls) && calls[|calls| - 1].point == last
    && Covered(a, calls, |calls|) && Covered(b, calls, |calls|)
  }

  /** The call before the loop, at the first start of `a` if that comes first, and otherwise at 0. */
  method First<D>(a: seq<Piece<D>>, b: seq<Piece<D>>) returns (lastPoint: nat, calls: seq<Call<D>>)
    requires Ordered(a) && Ordered(b)
    ensures Running(a, 0, b, 0, lastPoint, calls) && |calls| == 1
    ensures lastPoint == if |a| > 0 && (|b| == 0 || a[0].lower < b[0].lower) then a[0].lower else 0
  {
    lastPoint := 0;
    if 0 < |a| && (0 >= |b| || a[0].lower < b[0].lower) {
      lastPoint := a[0].lower;
    }
    var eventA := 0 < |a| && a[0].lower == lastPoint;
    var eventB := 0 < |b| && b[0].lower == lastPoint;
    calls := [Call(lastPoint, if eventA then Just(a[0].data) else Nothing, Nothing,
                   if eventB then Just(b[0].data) else Nothing, Nothing)];
  }

  /** Two lists, and the calls that the handler receives for them, in order. */
  datatype RawMerge<D> = Merge(a: seq<Piece<D>>, b: seq<Piece<D>>, calls: seq<Call<D>>) {
    ghost predicate Valid() {
      Ordered(a) && Ordered(b) && Trace(a, b, calls) && Covered(a, calls, |calls| + 1) && Covered(b, calls, |calls| + 1)
    }
  }

  type Merge<D> = m: RawMerge<D> | m.Valid()
    ghost witness Merge([], [], [Call(0, Nothing, Nothing, Nothing, Nothing)])

  method ProcessIntervals<D>(a: seq<Piece<D>>, b: seq<Piece<D>>) returns (m: Merge<D>)
    requires Ordered(a) && Ordered(b)
    ensures m.a == a && m.b == b
    ensures m.calls[0].point == if |a| > 0 && (|b| == 0 || a[0].lower < b[0].lower) then a[0].lower else 0
  {
    var calls;
    var ia: nat, ib: nat := 0, 0;
    var lastPoint;
    lastPoint, calls := First(a, b);
    ghost var first := lastPoint;
    while ia < |a| || ib < |b|
      invariant Running(a, ia, b, ib, lastPoint, calls) && calls[0].point == first
      decreases Left(a, ia, lastPoint) + Left(b, ib, lastPoint)
    {
      var nextPoint, aStarts, aEnds, bStarts, bEnds := Next(a, ia, b, ib, lastPoint);
      StepRuns(a, ia, aStarts, aEnds, b, ib, bStarts, bEnds, lastPoint, nextPoint, calls);
      calls := calls + [Call(nextPoint, StartData(a, ia, aStarts, aEnds), EndData(a, ia, aEnds),
                             StartData(b, ib, bStarts, bEnds), EndData(b, ib, bEnds))];
      lastPoint := nextPoint;
      if aEnds {
        ia := ia + 1;
      }
      if bEnds {
        ib := ib + 1;
      }
    }
    MergeIsValid(a, b, lastPoint, calls);
    m := Merge(a, b, calls);
  }

  lemma MergeIsValid<D>(a: seq<Piece<D>>, b: seq<Piece<D>>, last: nat, calls: seq<Call<D>>)
    requires Ordered(a) && Ordered(b) && Running(a, |a|, b, |b|, last, calls)
    ensures Merge(a, b, calls).Valid()
  {
    CoveredToTheEnd(a, last, calls);
    CoveredToTheEnd(b, last, calls);
  }

  lemma CoveredToTheEnd<D>(xs: seq<Piece<D>>, last: nat, calls: seq<Call<D>>)
    requires Ordered(xs) && At(xs, |xs|, last) && Covered(xs, calls, |calls|)
    requires calls != [] && calls[|calls| - 1].point == last
    ensures Covered(xs, calls, |calls| + 1)
  {
    forall k: nat, i: nat | k < |calls| + 1 && i < |xs|
      ensures Outside(calls, k, xs[i].lower) && Outside(calls, k, xs[i].upper)
    {
      assert xs[i].lower < xs[i].upper <= last;
    }
  }

  lemma StepRuns<D>(a: seq<Piece<D>>, ia: nat, aStarts: bool, aEnds: bool,
                    b: seq<Piece<D>>, ib: nat, bStarts: bool, bEnds: bool,
                    last: nat, next: nat, calls: seq<Call<D>>)
    requires Ordered(a) && Ordered(b) && Running(a, ia, b, ib, last, calls)
    requires Flags(a, ia, last, next, aStarts, aEnds) && Flags(b, ib, last, next, bStarts, bEnds)
    requires aStarts || aEnds || bStarts || bEnds
    ensures aStarts ==> ia + (if aEnds then 1 else 0) < |a|
    ensures bStarts ==> ib + (if bEnds then 1 else 0) < |b|
    ensures (aEnds ==> ia < |a|) && (bEnds ==> ib < |b|)
    ensures Running(a, if aEnds then ia + 1 else ia, b, if bEnds then ib + 1 else ib, next,
                    calls + [Call(next, StartData(a, ia, aStarts, aEnds), EndData(a, ia, aEnds),
                                  StartData(b, ib, bStarts, bEnds), EndData(b, ib, bEnds))])
    ensures Left(a, if aEnds then ia + 1 else ia, next) + Left(b, if bEnds then ib + 1 else ib, next)
         < Left(a, ia, last) + Left(b, ib, last)
  {
    FlagsAreFaithful(a, ia, last, next, aStarts, aEnds);
    FlagsAreFaithful(b, ib, last, next, bStarts, bEnds);
    ExtendsTrace(a, b, calls, Call(next, StartData(a, ia, aStarts, aEnds), EndData(a, ia, aEnds),
                                   StartData(b, ib, bStarts, bEnds), EndData(b, ib, bEnds)), last);
  }

  lemma ExtendsTrace<D>(a: seq<Piece<D>>, b: seq<Piece<D>>, calls: seq<Call<D>>, c: Call<D>, last: nat)
    requires Trace(a, b, calls) && calls[|calls| - 1].point == last < c.point
    requires Covered(a, calls, |calls|) && Covered(b, calls, |calls|)
    requires Faithful(a, b, c) && (c.aStart.Valid() || c.aEnd.Valid() || c.bStart.Valid() || c.bEnd.Valid())
    requires forall j :: 0 <= j < |a| ==> !(last < a[j].lower < c.point) && !(last < a[j].upper < c.point)
    requires forall j :: 0 <= j < |b| ==> !(last < b[j].lower < c.point) && !(last < b[j].upper < c.point)
    ensures Trace(a, b, calls + [c]) && (calls + [c])[|calls|].point == c.point
    ensures Covered(a, calls + [c], |calls| + 1) && Covered(b, calls + [c], |calls| + 1)
  {
    ExtendsCovered(a, calls, c);
    ExtendsCovered(b, calls, c);
    var longer := calls + [c];
    forall k, l | 0 <= k < l < |longer|
      ensures longer[k].point < longer[l].point
    {
      assert longer[k] == calls[k] && (l < |calls| ==> longer[l] == calls[l]);
    }
    forall k | 0 <= k < |longer|
      ensures Faithful(a, b, longer[k])
    {
      assert k < |calls| ==> longer[k] == calls[k];
    }
  }

  lemma ExtendsCovered<D>(xs: seq<Piece<D>>, calls: seq<Call<D>>, c: Call<D>)
    requires calls != [] && Covered(xs, calls, |calls|)
    requires forall j :: 0 <= j < |xs| ==>
      !(calls[|calls| - 1].point < xs[j].lower < c.point) && !(calls[|calls| - 1].point < xs[j].upper < c.point)
    ensures Covered(xs, calls + [c], |calls| + 1)
  {
    forall k: nat, i: nat | k < |calls| + 1 && i < |xs|
      ensures Outside(calls + [c], k, xs[i].lower) && Outside(calls + [c], k, xs[i].upper)
    {
      if k < |calls| {
        assert Outside(calls, k, xs[i].lower) && Outside(calls, k, xs[i].upper);
      }
    }
  }

  /** Every endpoint gets a call. */
  lemma EndpointIsCalled<D>(m: Merge<D>, q: nat)
    requires forall k: nat :: k <= |m.calls| ==> Outside(m.calls, k, q)
    ensures exists k :: 0 <= k < |m.calls| && m.calls[k].point == q
  {
    var k: nat := |m.calls|;
    while k > 0 && m.calls[k - 1].point != q
      invariant k <= |m.calls| && (k < |m.calls| ==> q < m.calls[k].point)
    {
      assert Outside(m.calls, k, q);
      k := k - 1;
    }
    assert Outside(m.calls, k, q);
  }

  /** With the first point, the calls are determined by the two lists. */
  lemma CallsAreDetermined<D>(m: Merge<D>, n: Merge<D>)
    requires m.a == n.a && m.b == n.b && m.calls[0].point == n.calls[0].point
    ensures m.calls == n.calls
  {
    var k := 0;
    while k < |m.calls| && k < |n.calls|
      invariant k <= |m.calls| && k <= |n.calls| && m.calls[..k] == n.calls[..k]
    {
      SamePoint(m, n, k);
      SameArguments(m.a, m.b, m.calls[k], n.calls[k]);
      k := k + 1;
    }
    if k == |n.calls| {
      NoFurtherCall(m, n, k);
    } else {
      NoFurtherCall(n, m, k);
    }
    assert m.calls == m.calls[..k] == n.calls[..k] == n.calls;
  }

  /** Behind the first call, every call is for an endpoint. */
  lemma PointIsEndpoint<D>(m: Merge<D>, k: nat) returns (xs: seq<Piece<D>>, i: nat)
    requires 0 < k < |m.calls|
    ensures (xs == m.a || xs == m.b) && i < |xs|
    ensures xs[i].lower == m.calls[k].point || xs[i].upper == m.calls[k].point
  {
    var c := m.calls[k];
    xs := if c.aStart.Valid() || c.aEnd.Valid() then m.a else m.b;
    i :| i < |xs| && (xs[i].lower == c.point || xs[i].upper == c.point);
  }

  lemma NotEarlier<D>(m: Merge<D>, n: Merge<D>, k: nat)
    requires m.a == n.a && m.b == n.b && 0 < k < |m.calls| && k <= |n.calls|
    requires m.calls[k - 1].point == n.calls[k - 1].point
    ensures k < |n.calls| && n.calls[k].point <= m.calls[k].point
  {
    var xs, i := PointIsEndpoint(m, k);
    assert Outside(n.calls, k, xs[i].lower) && Outside(n.calls, k, xs[i].upper);
  }

  lemma SamePoint<D>(m: Merge<D>, n: Merge<D>, k: nat)
    requires m.a == n.a && m.b == n.b && m.calls[0].point == n.calls[0].point
    requires k < |m.calls| && k < |n.calls| && m.calls[..k] == n.calls[..k]
    ensures m.calls[k].point == n.calls[k].point
  {
    if k > 0 {
      assert m.calls[k - 1] == m.calls[..k][k - 1] == n.calls[..k][k - 1] == n.calls[k - 1];
      NotEarlier(m, n, k);
      NotEarlier(n, m, k);
    }
  }

  lemma NoFurtherCall<D>(m: Merge<D>, n: Merge<D>, k: nat)
    requires m.a == n.a && m.b == n.b && k <= |m.calls| && k <= |n.calls| && m.calls[..k] == n.calls[..k]
    requires k == |n.calls|
    ensures k == |m.calls|
  {
    if k < |m.calls| {
      assert m.calls[k - 1] == m.calls[..k][k - 1] == n.calls[..k][k - 1] == n.calls[k - 1];
      NotEarlier(m, n, k);
    }
  }

  lemma SameArguments<D>(a: seq<Piece<D>>, b: seq<Piece<D>>, c: Call<D>, d: Call<D>)
    requires Ordered(a) && Ordered(b) && Faithful(a, b, c) && Faithful(a, b, d) && c.point == d.point
    ensures c == d
  {
    SameFlags(a, c.point, c.aStart, c.aEnd, d.aStart, d.aEnd);
    SameFlags(b, c.point, c.bStart, c.bEnd, d.bStart, d.bEnd);
  }

  lemma SameFlags<D>(xs: seq<Piece<D>>, q: nat, start: Maybe<D>, end: Maybe<D>, start': Maybe<D>, end': Maybe<D>)
    requires Ordered(xs) && IsStart(xs, q, start) && IsStart(xs, q, start') && IsEnd(xs, q, end) && IsEnd(xs, q, end')
    ensures start == start' && end == end'
  {
  }

  // ---------- what the calls say about the data at a point ----------

  ghost predicate Covers<D>(xs: seq<Piece<D>>, x: nat) {
    exists i :: 0 <= i < |xs| && xs[i].lower <= x < xs[i].upper
  }

  /** The data of the piece around `x`, if there is one. */
  ghost function ValueAt<D>(xs: seq<Piece<D>>, x: nat): (m: Maybe<D>)
    ensures m.Valid() <==> Covers(xs, x)
  {
    if Covers(xs, x) then
      var i :| 0 <= i < |xs| && xs[i].lower <= x < xs[i].upper;
      Just(xs[i].data)
    else Nothing
  }

  lemma ValueOf<D>(xs: seq<Piece<D>>, i: nat, x: nat)
    requires Ordered(xs) && i < |xs| && xs[i].lower <= x < xs[i].upper
    ensures ValueAt(xs, x) == Just(xs[i].data)
  {
    assert Covers(xs, x);
    var j :| 0 <= j < |xs| && xs[j].lower <= x < xs[j].upper && ValueAt(xs, x) == Just(xs[j].data);
  }

  lemma ValueOneMore<D>(xs: seq<Piece<D>>, p: Piece<D>, x: nat)
    requires Ordered(xs + [p])
    ensures Ordered(xs)
    ensures ValueAt(xs + [p], x) == if p.lower <= x < p.upper then Just(p.data) else ValueAt(xs, x)
  {
    var longer := xs + [p];
    assert forall i :: 0 <= i < |xs| ==> longer[i] == xs[i];
    if p.lower <= x < p.upper {
      ValueOf(longer, |xs|, x);
    } else if Covers(longer, x) {
      var i :| 0 <= i < |longer| && longer[i].lower <= x < longer[i].upper;
      ValueOf(longer, i, x);
      ValueOf(xs, i, x);
    }
  }

  /** The points handled before the k-th call end here. */
  ghost function Reached<D>(m: Merge<D>, k: nat): (r: nat)
    requires k <= |m.calls|
  {
    if k == 0 then 0 else m.calls[k - 1].point
  }

  /** The data at the point of the call before the k-th one. */
  ghost function ValueBefore<D>(m: Merge<D>, xs: seq<Piece<D>>, k: nat): (r: Maybe<D>)
    requires k <= |m.calls|
  {
    if k == 0 then Nothing else ValueAt(xs, m.calls[k - 1].point)
  }

  /** Without a start or end behind `p` and up to `q`, the data stay as they are. */
  lemma SameValue<D>(xs: seq<Piece<D>>, p: nat, q: nat)
    requires Ordered(xs) && p <= q
    requires forall i :: 0 <= i < |xs| ==> !(p < xs[i].lower <= q) && !(p < xs[i].upper <= q)
    ensures ValueAt(xs, p) == ValueAt(xs, q)
  {
    if Covers(xs, p) {
      var i :| 0 <= i < |xs| && xs[i].lower <= p < xs[i].upper;
      ValueOf(xs, i, p);
      ValueOf(xs, i, q);
    }
  }

  /** Up to the k-th call the data stay as they were at the call before; before the first and after the last call
      there are none. */
  lemma ConstantBetween<D>(m: Merge<D>, xs: seq<Piece<D>>, k: nat, x: nat)
    requires (xs == m.a || xs == m.b) && k <= |m.calls|
    requires Reached(m, k) <= x && (k < |m.calls| ==> x < m.calls[k].point)
    ensures ValueAt(xs, x) == if k < |m.calls| then ValueBefore(m, xs, k) else Nothing
  {
    assert forall i: nat :: i < |xs| ==> Outside(m.calls, k, xs[i].lower) && Outside(m.calls, k, xs[i].upper);
    if 0 < k < |m.calls| {
      SameValue(xs, m.calls[k - 1].point, x);
    }
  }

  /** What the flags of the k-th call mean for the data from its point on. */
  lemma FlagsAndValue<D>(m: Merge<D>, xs: seq<Piece<D>>, k: nat, start: Maybe<D>, end: Maybe<D>)
    requires (xs == m.a || xs == m.b) && k < |m.calls|
    requires IsStart(xs, m.calls[k].point, start) && IsEnd(xs, m.calls[k].point, end)
    ensures ValueAt(xs, m.calls[k].point) ==
      if start.Valid() then start else if end.Valid() then Nothing else ValueBefore(m, xs, k)
  {
    if start.Valid() {
      FromStart(xs, m.calls[k].point, start);
    } else if end.Valid() {
      NothingAfterEnd(xs, m.calls[k].point, end);
    } else {
      StaysAsBefore(m, xs, k);
    }
  }

  lemma FromStart<D>(xs: seq<Piece<D>>, q: nat, start: Maybe<D>)
    requires Ordered(xs) && start.Valid() && IsStart(xs, q, start)
    ensures ValueAt(xs, q) == start
  {
    var i :| 0 <= i < |xs| && xs[i].lower == q && xs[i].data == start.value;
    ValueOf(xs, i, q);
  }

  lemma StaysAsBefore<D>(m: Merge<D>, xs: seq<Piece<D>>, k: nat)
    requires (xs == m.a || xs == m.b) && k < |m.calls|
    requires IsStart(xs, m.calls[k].point, Nothing) && IsEnd(xs, m.calls[k].point, Nothing)
    ensures ValueAt(xs, m.calls[k].point) == ValueBefore(m, xs, k)
  {
    var q := m.calls[k].point;
    forall i: nat | i < |xs|
      ensures Outside(m.calls, k, xs[i].lower) && Outside(m.calls, k, xs[i].upper)
      ensures xs[i].lower != q && xs[i].upper != q
    {
    }
    if k > 0 {
      SameValue(xs, m.calls[k - 1].point, q);
    }
  }

  lemma NothingAfterEnd<D>(xs: seq<Piece<D>>, q: nat, end: Maybe<D>)
    requires Ordered(xs) && end.Valid() && IsStart(xs, q, Nothing) && IsEnd(xs, q, end)
    ensures !Covers(xs, q)
  {
    var e :| 0 <= e < |xs| && xs[e].upper == q;
    forall i | 0 <= i < |xs|
      ensures !(xs[i].lower <= q < xs[i].upper)
    {
      assert i < e ==> xs[i].upper <= xs[e].lower;
      assert e < i ==> xs[e].upper <= xs[i].lower;
    }
  }
}
