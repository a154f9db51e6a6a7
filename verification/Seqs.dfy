/** Facts about duplicate-free sequences of vertex or job numbers. */
module Seqs {

  ghost predicate Distinct<T>(s: seq<T>) {
    forall i, j :: 0 <= i < j < |s| ==> s[i] != s[j]
  }

  ghost predicate Below(s: seq<nat>, n: nat) {
    forall i :: 0 <= i < |s| ==> s[i] < n
  }

  /** The sequence lists every number below `n` exactly once. */
  ghost predicate Permutation(s: seq<nat>, n: nat) {
    |s| == n && Distinct(s) && Below(s, n)
  }

  ghost function Elements<T>(s: seq<T>): (r: set<T>) {
    set x | x in s
  }

  lemma {:induction false} DistinctCardinality<T>(s: seq<T>)
    requires Distinct(s)
    ensures |Elements(s)| == |s|
  {
    if s == [] {
    } else {
      var rest := s[..|s| - 1];
      DistinctCardinality(rest);
      assert s == rest + [s[|s| - 1]];
      assert Elements(s) == Elements(rest) + {s[|s| - 1]};
    }
  }

  lemma {:induction false} SubsetCardinality<T>(a: set<T>, b: set<T>)
    requires a <= b
    ensures |a| <= |b|
    ensures |a| == |b| ==> a == b
  {
    assert b == a + (b - a);
    assert a !! (b - a);
    if |a| == |b| {
      assert |b - a| == 0;
    }
  }

  ghost function UpTo(n: nat): (s: seq<nat>)
    ensures |s| == n && forall i :: 0 <= i < n ==> s[i] == i
  {
    if n == 0 then [] else UpTo(n - 1) + [n - 1]
  }

  lemma ElementsAreBelow(s: seq<nat>, n: nat)
    requires Below(s, n)
    ensures Elements(s) <= Elements(UpTo(n)) && |Elements(UpTo(n))| == n
  {
    DistinctCardinality(UpTo(n));
    forall v: nat | v < n
      ensures v in Elements(UpTo(n))
    {
      assert UpTo(n)[v] == v;
    }
  }

  /** A duplicate-free list of numbers below `n` has at most `n` entries. */
  lemma DistinctIsShort(s: seq<nat>, n: nat)
    requires Distinct(s) && Below(s, n)
    ensures |s| <= n
  {
    DistinctCardinality(s);
    ElementsAreBelow(s, n);
    SubsetCardinality(Elements(s), Elements(UpTo(n)));
  }

  /** A duplicate-free list that leaves out a number below `n` has fewer than `n` entries. */
  lemma MissingOne(s: seq<nat>, n: nat, r: nat)
    requires Distinct(s) && Below(s, n) && r < n && r !in s
    ensures |s| < n
  {
    DistinctIsShort(s + [r], n);
  }

  /** A permutation of the numbers below `n` contains each of them. */
  lemma Surjective(s: seq<nat>, n: nat, v: nat)
    requires Permutation(s, n) && v < n
    ensures v in s
  {
    if v !in s {
      MissingOne(s, n, v);
    }
  }

  /** A duplicate-free list containing every number below `n` is a permutation. */
  lemma FullList(s: seq<nat>, n: nat)
    requires Distinct(s) && Below(s, n)
    requires forall v :: 0 <= v < n ==> v in s
    ensures Permutation(s, n)
  {
    DistinctCardinality(s);
    ElementsAreBelow(s, n);
    assert Elements(s) == Elements(UpTo(n));
  }

  /** Some number above all entries. */
  ghost function Bound(s: seq<nat>): (b: nat)
    ensures Below(s, b)
  {
    if s == [] then 0
    else
      var b := Bound(s[..|s| - 1]);
      var last := s[|s| - 1];
      assert forall i :: 0 <= i < |s| - 1 ==> s[i] == s[..|s| - 1][i];
      if last < b then b else last + 1
  }

  lemma DistinctConcat<T>(a: seq<T>, b: seq<T>)
    requires Distinct(a) && Distinct(b) && forall x :: x in a ==> x !in b
    ensures Distinct(a + b)
  {
    var c := a + b;
    forall i, j | 0 <= i < j < |c|
      ensures c[i] != c[j]
    {
      if i < |a| <= j {
        assert c[i] in a && c[j] in b;
      }
    }
  }
}
