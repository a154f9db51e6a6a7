/** Sets of job numbers as sorted vectors. */
module SortedSets {

  ghost predicate Ascending(s: seq<nat>) {
    forall i, j :: 0 <= i < j < |s| ==> s[i] < s[j]
  }

  /** The merge of two sorted vectors without duplicates. */
  method SetUnion(a: seq<nat>, b: seq<nat>) returns (r: seq<nat>)
    requires Ascending(a) && Ascending(b)
    ensures Ascending(r)
    ensures forall x :: x in r <==> x in a || x in b
  {
    r := [];
    var i, j := 0, 0;
    while i < |a| || j < |b|
      invariant 0 <= i <= |a| && 0 <= j <= |b|
      invariant Ascending(r)
      invariant forall x :: x in r <==> x in a[..i] || x in b[..j]
      invariant forall k :: 0 <= k < |r| ==> (i < |a| ==> r[k] < a[i]) && (j < |b| ==> r[k] < b[j])
      decreases |a| - i + |b| - j
    {
      if j == |b| || (i < |a| && a[i] < b[j]) {
        assert a[..i + 1] == a[..i] + [a[i]];
        r := r + [a[i]];
        i := i + 1;
      } else if i == |a| || b[j] < a[i] {
        assert b[..j + 1] == b[..j] + [b[j]];
        r := r + [b[j]];
        j := j + 1;
      } else {
        assert a[..i + 1] == a[..i] + [a[i]];
        assert b[..j + 1] == b[..j] + [b[j]];
        r := r + [a[i]];
        i := i + 1;
        j := j + 1;
      }
    }
    assert a[..i] == a && b[..j] == b;
  }

  method BinarySearch(s: seq<nat>, x: nat) returns (found: bool)
    requires Ascending(s)
    ensures found <==> x in s
  {
    var lo, hi := 0, |s|;
    while lo < hi
      invariant 0 <= lo <= hi <= |s|
      invariant forall i :: 0 <= i < lo ==> s[i] < x
      invariant forall i :: hi <= i < |s| ==> x <= s[i]
    {
      var mid := (lo + hi) / 2;
      if s[mid] < x {
        lo := mid + 1;
      } else {
        hi := mid;
      }
    }
    found := lo < |s| && !(x < s[lo]);
  }
}
