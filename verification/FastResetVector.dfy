/** A vector that is reset in constant time by advancing a 32-bit round number. */
module FastResetVectors {
  import opened Machine
  import opened Maybes

  /** When a cell was last stamped, counted in resets, and its value. */
  type Stamp<T> = Maybe<(nat, T)>

  /** The round number after some resets. */
  function Round(resets: nat): (round: nat)
    ensures IsUnsigned(round)
  {
    Unsigned(1 + resets)
  }

  /** What is stored in a cell: its value and the round of its stamp, and 0 for a cell that was never touched. */
  ghost function Cell<T>(stamp: Stamp<T>, init: T): (cell: (T, nat)) {
    if stamp.Valid() then (stamp.value.1, Round(stamp.value.0)) else (init, 0)
  }

  /** What a cell shows after `resets` resets: its value if the rounds are equal. */
  ghost function Shown<T>(stamp: Stamp<T>, resets: nat, init: T): (shown: T) {
    if Cell(stamp, init).1 != Round(resets) then init else Cell(stamp, init).0
  }

  /** What a plain array holds that is refilled on every reset. */
  ghost function Plain<T>(stamp: Stamp<T>, resets: nat, init: T): (r: T) {
    if stamp.Valid() && stamp.value.0 == resets then stamp.value.1 else init
  }

  /** A cell is stale if its stamp comes from an earlier round with the same number. */
  ghost predicate Stale<T>(stamp: Stamp<T>, resets: nat) {
    stamp.Valid() && stamp.value.0 < resets && (resets - stamp.value.0) % (UINT_MAX + 1) == 0
  }

  lemma SameRound(a: nat, b: nat)
    requires a <= b
    ensures Round(a) == Round(b) <==> (b - a) % (UINT_MAX + 1) == 0
  {
  }

  /** The vector agrees with the plain array in a cell exactly if the cell is not stale or shows the initial value
      anyway. */
  lemma ShownIsPlainUnlessStale<T>(stamp: Stamp<T>, resets: nat, init: T)
    requires stamp.Valid() ==> stamp.value.0 <= resets
    ensures Shown(stamp, resets, init) == Plain(stamp, resets, init) <==>
      !Stale(stamp, resets) || stamp.value.1 == init
  {
    if stamp.Valid() {
      SameRound(stamp.value.0, resets);
    }
  }

  /** With fewer than 2^32 resets every cell shows its plain value, although the round number passes through 0: there
      the cells that were never touched pass for current, and show the initial value all the same. */
  lemma PlainBelowBound<T>(stamp: Stamp<T>, resets: nat, init: T)
    requires resets <= UINT_MAX && (stamp.Valid() ==> stamp.value.0 <= resets)
    ensures Shown(stamp, resets, init) == Plain(stamp, resets, init)
    ensures stamp == Nothing && resets == UINT_MAX ==> Cell(stamp, init).1 == Round(resets)
  {
    ShownIsPlainUnlessStale(stamp, resets, init);
  }

  /** 2^32 resets after it was written, a cell shows its value again. */
  lemma StaleAfterFullCircle<T>(x: T, init: T, written: nat)
    requires x != init
    ensures Shown(Just((written, x)), written + UINT_MAX + 1, init)
         != Plain(Just((written, x)), written + UINT_MAX + 1, init)
  {
    SameRound(written, written + UINT_MAX + 1);
  }

  class FastResetVector<T> {
    const initValue: T
    var round: nat
    var data: array<(T, nat)>

    // The number of resets so far, and the last stamp of every cell.
    ghost var resets: nat
    ghost var stamps: seq<Stamp<T>>

    ghost predicate Valid()
      reads this, data
    {
      && round == Round(resets)
      && |stamps| == data.Length
      && forall i :: 0 <= i < |stamps| ==>
           data[i] == Cell(stamps[i], initValue) && (stamps[i].Valid() ==> stamps[i].value.0 <= resets)
    }

    /** The plain array that the vector stands for. */
    ghost function Contents(): (s: seq<T>)
      reads this
      ensures |s| == |stamps|
    {
      seq(|stamps|, i requires 0 <= i < |stamps| reads this => Plain(stamps[i], resets, initValue))
    }

    constructor (size: nat, initValue: T)
      ensures Valid() && fresh(data) && resets == 0
      ensures Contents() == seq(size, _ => initValue)
    {
      this.initValue := initValue;
      round := 1;
      data := new (T, nat)[size](_ => (initValue, 0));
      resets := 0;
      stamps := seq(size, _ => Nothing);
    }

    method Reset()
      requires Valid()
      modifies this`round, this`resets
      ensures Valid() && resets == old(resets) + 1
      ensures Contents() == seq(|stamps|, _ => initValue)
    {
      round := Unsigned(round + 1);
      resets := resets + 1;
    }

    /** The subscript on a constant vector. */
    method Read(index: nat) returns (x: T)
      requires Valid() && index < |stamps|
      ensures x == Shown(stamps[index], resets, initValue)
      ensures resets <= UINT_MAX ==> x == Contents()[index]
    {
      if resets <= UINT_MAX {
        PlainBelowBound(stamps[index], resets, initValue);
      }
      if data[index].1 != round {
        x := initValue;
      } else {
        x := data[index].0;
      }
    }

    /** The subscript on a variable vector: it prepares the cell, and returns what its reference refers to. */
    method Access(index: nat) returns (x: T)
      requires Valid() && index < |stamps|
      modifies data, this`stamps
      ensures Valid() && |stamps| == old(|stamps|) && data[index].1 == round
      ensures forall i :: 0 <= i < |stamps| && i != index ==> stamps[i] == old(stamps[i])
      ensures Shown(stamps[index], resets, initValue) == old(Shown(stamps[index], resets, initValue)) == x
      ensures resets <= UINT_MAX ==> Contents() == old(Contents()) && x == Contents()[index]
    {
      ShownIsPlainUnlessStale(stamps[index], resets, initValue);
      if data[index].1 != round {
        data[index] := (initValue, round);
        stamps := stamps[index := Just((resets, initValue))];
      }
      ShownIsPlainUnlessStale(stamps[index], resets, initValue);
      x := data[index].0;
    }

    /** An assignment to the reference that the subscript returns. */
    method Write(index: nat, x: T)
      requires Valid() && index < |stamps|
      modifies data, this`stamps
      ensures Valid() && |stamps| == old(|stamps|)
      ensures Shown(stamps[index], resets, initValue) == x
      ensures forall i :: 0 <= i < |stamps| && i != index ==> stamps[i] == old(stamps[i])
      ensures Contents() == old(Contents())[index := x]
    {
      var _ := Access(index);
      data[index] := (x, round);
      stamps := stamps[index := Just((resets, x))];
    }
  }
}
