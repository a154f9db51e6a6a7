/** A double-ended queue on a ring of fixed capacity. */
module CircularVectors {

  /** The elements between the two ends of a ring of `n` slots. With equal ends, only `empty` tells the empty ring from
      the full one. */
  ghost function Ring<T>(slots: seq<T>, n: nat, start: nat, end: nat, empty: bool): (s: seq<T>)
    requires start < n <= |slots| && end < n
  {
    if empty then []
    else if start < end then slots[start..end]
    else slots[start..n] + slots[..end]
  }

  ghost function Pred(i: nat, n: nat): (p: nat)
    requires i < n
    ensures p < n
  {
    if i == 0 then n - 1 else i - 1
  }

  ghost function Succ(i: nat, n: nat): (p: nat)
    requires i < n
    ensures p < n
  {
    if i + 1 == n then 0 else i + 1
  }

  lemma PushedFront<T>(before: seq<T>, after: seq<T>, n: nat, start: nat, end: nat, empty: bool, value: T)
    requires start < n <= |before| && end < n && (empty ==> start == end) && n <= |after|
    requires after[Pred(start, n)] == value
    requires start != end || empty ==> after == before[Pred(start, n) := value]
    ensures Ring(after, n, Pred(start, n), end, false) ==
      if start == end && !empty then [value] else [value] + Ring(before, n, start, end, empty)
  {
  }

  lemma PushedBack<T>(before: seq<T>, after: seq<T>, n: nat, start: nat, end: nat, empty: bool, value: T)
    requires start < n <= |before| && end < n && (empty ==> start == end) && n <= |after|
    requires after[end] == value
    requires start != end || empty ==> after == before[end := value]
    ensures Ring(after, n, start, Succ(end, n), false) ==
      if start == end && !empty then [value] else Ring(before, n, start, end, empty) + [value]
  {
  }

  class CircularVector<T(0)> {
    // The size of an element, in bytes.
    const elementSize: nat
    var data: array<T>
    var capacity: nat
    var iStart: nat
    var iEnd: nat
    var isEmpty: bool

    ghost predicate Valid()
      reads this
    {
      && elementSize > 0 && data.Length >= capacity
      && iStart < capacity && iEnd < capacity
      && (isEmpty ==> iStart == iEnd)
    }

    /** The queued elements, front first. */
    ghost function Contents(): (s: seq<T>)
      requires Valid()
      reads this, data
    {
      Ring(data[..], capacity, iStart, iEnd, isEmpty)
    }

    ghost predicate Full()
      reads this
    {
      iStart == iEnd && !isEmpty
    }

    constructor (slots: nat, elementSize: nat)
      requires slots > 0 && elementSize > 0
      ensures Valid() && fresh(data) && capacity == slots && Contents() == [] && this.elementSize == elementSize
    {
      this.elementSize := elementSize;
      isEmpty := true;
      iStart := 0;
      iEnd := 0;
      data := new T[slots];
      capacity := slots;
    }

    method Clear()
      requires Valid()
      modifies this`iEnd, this`isEmpty
      ensures Valid() && Contents() == []
    {
      iEnd := iStart;
      isEmpty := true;
    }

    method Back() returns (x: T)
      requires Valid() && Contents() != []
      ensures x == Contents()[|Contents()| - 1]
    {
      if iEnd > 0 {
        x := data[iEnd - 1];
      } else {
        x := data[capacity - 1];
      }
    }

    method Front() returns (x: T)
      requires Valid() && Contents() != []
      ensures x == Contents()[0]
    {
      x := data[iStart];
    }

    /** A new buffer of twice the size. Numbers of elements are taken for numbers of bytes, so only a part of the
        elements is copied; neither the capacity nor the two ends are adapted. */
    method Grow()
      requires Valid()
      modifies this`data
      ensures Valid() && fresh(data) && data.Length == 2 * capacity
      ensures Copied(old(data[..]), data[..], capacity, iStart, iEnd, elementSize)
    {
      data := Regrown(data, capacity, iStart, iEnd, elementSize);
    }

    /** Grows a full ring. */
    method MakeRoom()
      requires Valid()
      modifies this`data
      ensures Valid() && if Full() then fresh(data) else data == old(data)
    {
      if iEnd == iStart && !isEmpty {
        Grow();
      }
    }

    /** Appends, unless the ring is full: then all elements are lost but the new one, whatever is copied. */
    method PushBack(value: T)
      requires Valid()
      modifies this`data, this`iEnd, this`isEmpty, data
      ensures Valid() && (data == old(data) || fresh(data))
      ensures Contents() == if old(Full()) then [value] else old(Contents()) + [value]
    {
      ghost var was := data[..];
      MakeRoom();
      data[iEnd] := value;
      iEnd := iEnd + 1;
      if iEnd == capacity {
        iEnd := 0;
      }
      PushedBack(was, data[..], capacity, iStart, old(iEnd), isEmpty, value);
      isEmpty := false;
    }

    method PopBack()
      requires Valid() && Contents() != []
      modifies this`iEnd, this`isEmpty
      ensures Valid() && Contents() == old(Contents())[..|old(Contents())| - 1]
    {
      if iEnd == 0 {
        iEnd := capacity - 1;
      } else {
        iEnd := iEnd - 1;
      }
      if iEnd == iStart {
        isEmpty := true;
      }
    }

    method PopFront()
      requires Valid() && Contents() != []
      modifies this`iStart, this`isEmpty
      ensures Valid() && Contents() == old(Contents())[1..]
    {
      if iStart == capacity - 1 {
        iStart := 0;
      } else {
        iStart := iStart + 1;
      }
      if iEnd == iStart {
        isEmpty := true;
      }
    }

    /** Prepends, unless the ring is full: then all elements are lost but the new one. */
    method PushFront(value: T)
      requires Valid()
      modifies this`data, this`iStart, this`isEmpty, data
      ensures Valid() && (data == old(data) || fresh(data))
      ensures Contents() == if old(Full()) then [value] else [value] + old(Contents())
    {
      ghost var was := data[..];
      MakeRoom();
      if iStart == 0 {
        iStart := capacity - 1;
      } else {
        iStart := iStart - 1;
      }
      data[iStart] := value;
      PushedFront(was, data[..], capacity, old(iStart), iEnd, isEmpty, value);
      isEmpty := false;
    }

    /** The subscript; it counts from the front, around the end of the ring. */
    method At(index: nat) returns (x: T)
      requires Valid() && index < |Contents()|
      ensures x == Contents()[index]
    {
      WrapAround(iStart + index, capacity);
      x := data[(iStart + index) % capacity];
    }

    method Size() returns (n: nat)
      requires Valid()
      ensures n == |Contents()|
      ensures n <= capacity && (n == capacity <==> Full())
    {
      if iStart < iEnd {
        n := iEnd - iStart;
      } else if iStart > iEnd {
        n := capacity - iStart + iEnd;
      } else if !isEmpty {
        n := capacity;
      } else {
        n := 0;
      }
    }

    method Empty() returns (empty: bool)
      requires Valid()
      ensures empty <==> Contents() == []
    {
      empty := isEmpty;
    }
  }

  /** The number of elements that lie entirely within so many bytes. */
  function Whole(bytes: nat, elementSize: nat): (n: nat)
    requires elementSize > 0
    ensures n <= bytes
  {
    if bytes < elementSize then 0 else Whole(bytes - elementSize, elementSize) + 1
  }

  lemma {:induction false} WholeIsExact(bytes: nat, elementSize: nat)
    requires elementSize > 0
    ensures Whole(bytes, elementSize) * elementSize <= bytes < (Whole(bytes, elementSize) + 1) * elementSize
  {
    if bytes < elementSize {
    } else {
      WholeIsExact(bytes - elementSize, elementSize);
    }
  }

  /** What the new buffer holds for certain. */
  ghost predicate Copied<T>(before: seq<T>, after: seq<T>, capacity: nat, iStart: nat, iEnd: nat, elementSize: nat)
    requires elementSize > 0 && iStart < capacity <= |before| && iEnd < capacity && |after| == 2 * capacity
  {
    var n, m := Whole(capacity - iStart, elementSize), Whole(iEnd, elementSize);
    && after[..n] == before[iStart..iStart + n]
    && after[capacity - iStart..capacity - iStart + m] == before[..m]
  }

  method Regrown<T(0)>(data: array<T>, capacity: nat, iStart: nat, iEnd: nat, elementSize: nat)
    returns (newData: array<T>)
    requires elementSize > 0 && iStart < capacity <= data.Length && iEnd < capacity
    ensures fresh(newData) && newData.Length == 2 * capacity
    ensures Copied(data[..], newData[..], capacity, iStart, iEnd, elementSize)
  {
    newData := new T[2 * capacity];
    ghost var blank := newData[..];
    CopyBytes(newData, 0, data, iStart, capacity - iStart, elementSize);
    ghost var first := newData[..];
    CopyBytes(newData, capacity - iStart, data, 0, iEnd, elementSize);
    BothCopied(data[..], blank, first, newData[..], capacity, iStart, iEnd, elementSize);
  }

  /** `n` elements have been copied from place `from` to place `at`, and nothing before them has changed. */
  ghost predicate Copies<T>(before: seq<T>, after: seq<T>, at: nat, source: seq<T>, from: nat, n: nat) {
    && |after| == |before| && at + n <= |after| && from + n <= |source|
    && after[at..at + n] == source[from..from + n] && after[..at] == before[..at]
  }

  lemma BothCopied<T>(source: seq<T>, blank: seq<T>, first: seq<T>, second: seq<T>,
                      capacity: nat, iStart: nat, iEnd: nat, elementSize: nat)
    requires elementSize > 0 && iStart < capacity <= |source| && iEnd < capacity && |second| == 2 * capacity
    requires Copies(blank, first, 0, source, iStart, Whole(capacity - iStart, elementSize))
    requires Copies(first, second, capacity - iStart, source, 0, Whole(iEnd, elementSize))
    ensures Copied(source, second, capacity, iStart, iEnd, elementSize)
  {
    var n, m := Whole(capacity - iStart, elementSize), capacity - iStart;
    assert first[..n] == first[..m][..n] && second[..n] == second[..m][..n];
  }

  /** Copies elements as far as the bytes go. What becomes of an element that is copied in part is left open. */
  method CopyBytes<T>(target: array<T>, at: nat, source: array<T>, from: nat, bytes: nat, elementSize: nat)
    requires target != source && elementSize > 0
    requires at + bytes <= target.Length && from + bytes <= source.Length
    modifies target
    ensures Copies(old(target[..]), target[..], at, source[..], from, Whole(bytes, elementSize))
  {
    var n := Whole(bytes, elementSize);
    var k := 0;
    while k < n
      invariant 0 <= k <= n
      invariant target[at..at + k] == source[from..from + k] && target[..at] == old(target[..at])
    {
      target[at + k] := source[from + k];
      k := k + 1;
    }
  }

  /** A ring of two slots, onto which three elements are pushed. */
  method FullRingForgets() returns (ring: CircularVector<int>)
    ensures ring.Valid() && ring.Contents() == [3]
  {
    ring := new CircularVector(2, 4);
    ring.PushBack(1);
    ring.PushBack(2);
    var size := ring.Size();
    assert size == 2 && ring.Full();
    ring.PushBack(3);
  }

  method FullRingForgetsInFront() returns (ring: CircularVector<int>)
    ensures ring.Valid() && ring.Contents() == [3]
  {
    ring := new CircularVector(2, 4);
    ring.PushFront(1);
    ring.PushFront(2);
    var size := ring.Size();
    assert size == 2 && ring.Full();
    ring.PushFront(3);
  }

  lemma WrapAround(x: nat, n: nat)
    requires n > 0 && x < 2 * n
    ensures x % n == if x < n then x else x - n
  {
    if x >= n {
      assert x == n * 1 + (x - n);
      assert (x - n) % n == x - n;
      assert x % n == (x - n) % n;
    }
  }
}
