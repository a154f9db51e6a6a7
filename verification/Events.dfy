/** The event index of a skyline: for every time a sorted set of starts and ends. */
module EventIndex {
  import opened Maybes
  import opened Loads

  datatype Event = Event(start: bool, jid: nat)

  /** The order of pairs of a flag and a number: ends before starts, then by job. */
  predicate Less(e: Event, f: Event) {
    if e.start != f.start then !e.start else e.jid < f.jid
  }

  ghost predicate Sorted(es: seq<Event>) {
    forall i, j :: 0 <= i < j < |es| ==> Less(es[i], es[j])
  }

  /** What an event adds to the running usage. */
  function Delta(jobs: seq<Job>, e: Event, r: nat): (delta: real)
    requires e.jid < |jobs| && r < |jobs[e.jid].usage|
  {
    if e.start then jobs[e.jid].usage[r] else 0.0 - jobs[e.jid].usage[r]
  }

  ghost predicate Known(jobs: seq<Job>, es: seq<Event>, r: nat) {
    forall i :: 0 <= i < |es| ==> es[i].jid < |jobs| && r < |jobs[es[i].jid].usage|
  }

  ghost function Total(jobs: seq<Job>, es: seq<Event>, r: nat): (total: real)
    requires Known(jobs, es, r)
  {
    if es == [] then 0.0 else Total(jobs, es[..|es| - 1], r) + Delta(jobs, es[|es| - 1], r)
  }

  lemma {:induction false} TotalOfConcat(jobs: seq<Job>, a: seq<Event>, b: seq<Event>, r: nat)
    requires Known(jobs, a, r) && Known(jobs, b, r)
    ensures Known(jobs, a + b, r) && Total(jobs, a + b, r) == Total(jobs, a, r) + Total(jobs, b, r)
    decreases |b|
  {
    if b == [] {
      assert a + b == a;
    } else {
      TotalOfConcat(jobs, a, b[..|b| - 1], r);
      assert (a + b)[..|a + b| - 1] == a + b[..|b| - 1];
    }
  }

  ghost predicate Listed(jobs: seq<Job>, es: seq<Event>) {
    forall i :: 0 <= i < |es| ==> es[i].jid < |jobs|
  }

  lemma TotalOfInsertion(jobs: seq<Job>, es: seq<Event>, k: nat, e: Event, r: nat)
    requires Known(jobs, es, r) && k <= |es| && e.jid < |jobs| && r < |jobs[e.jid].usage|
    ensures Known(jobs, es[..k] + [e] + es[k..], r)
    ensures Total(jobs, es[..k] + [e] + es[k..], r) == Total(jobs, es, r) + Delta(jobs, e, r)
  {
    assert es == es[..k] + es[k..];
    TotalOfConcat(jobs, es[..k], es[k..], r);
    TotalOfConcat(jobs, es[..k], [e], r);
    TotalOfConcat(jobs, es[..k] + [e], es[k..], r);
    assert [e][..0] == [];
  }

  /** Insertion into a sorted set; an element that is present is not inserted again. */
  method Emplace(es: seq<Event>, e: Event, ghost jobs: seq<Job>, ghost resources: nat) returns (r: seq<Event>)
    requires Sorted(es) && Uses(jobs, resources) && Listed(jobs, es) && e.jid < |jobs|
    ensures Sorted(r) && Listed(jobs, r) && forall f :: f in r <==> f in es || f == e
    ensures e !in es ==>
      forall rid: nat :: rid < resources ==> Total(jobs, r, rid) == Total(jobs, es, rid) + Delta(jobs, e, rid)
  {
    var k := 0;
    while k < |es| && Less(es[k], e)
      invariant 0 <= k <= |es|
      invariant forall i :: 0 <= i < k ==> Less(es[i], e)
    {
      k := k + 1;
    }
    if k < |es| && es[k] == e {
      return es;
    }
    r := es[..k] + [e] + es[k..];
    InsertedMembers(es, k, e);
    forall rid: nat | rid < resources
      ensures Total(jobs, r, rid) == Total(jobs, es, rid) + Delta(jobs, e, rid)
    {
      TotalOfInsertion(jobs, es, k, e, rid);
    }
  }

  lemma InsertedMembers(es: seq<Event>, k: nat, e: Event)
    requires Sorted(es) && k <= |es| && (forall i :: 0 <= i < k ==> Less(es[i], e))
    requires k < |es| ==> !Less(es[k], e) && es[k] != e
    ensures Sorted(es[..k] + [e] + es[k..]) && forall f :: f in es[..k] + [e] + es[k..] <==> f in es || f == e
  {
    assert es == es[..k] + es[k..];
    Members(es[..k], e, es[k..]);
    assert forall i :: k < i < |es| ==> Less(es[k], es[i]);
    assert forall i :: k <= i < |es| ==> Less(e, es[i]);
  }

  method Find(es: seq<Event>, e: Event) returns (k: nat)
    ensures k <= |es| && (e in es <==> k < |es|) && (k < |es| ==> es[k] == e)
  {
    k := 0;
    while k < |es| && es[k] != e
      invariant 0 <= k <= |es| && e !in es[..k]
    {
      k := k + 1;
    }
    assert es[..|es|] == es;
  }

  /** Removal from a sorted set. */
  method Erase(es: seq<Event>, e: Event, ghost jobs: seq<Job>, ghost resources: nat) returns (r: seq<Event>)
    requires Sorted(es) && Uses(jobs, resources) && Listed(jobs, es) && e.jid < |jobs|
    ensures Sorted(r) && Listed(jobs, r) && forall f :: f in r <==> f in es && f != e
    ensures e in es ==>
      forall rid: nat :: rid < resources ==> Total(jobs, r, rid) == Total(jobs, es, rid) - Delta(jobs, e, rid)
  {
    var k := Find(es, e);
    if k == |es| {
      return es;
    }
    r := es[..k] + es[k + 1..];
    RemovedMembers(es, k, r);
    forall rid: nat | rid < resources
      ensures Total(jobs, r, rid) == Total(jobs, es, rid) - Delta(jobs, e, rid)
    {
      TotalOfInsertion(jobs, r, k, e, rid);
    }
  }

  lemma RemovedMembers(es: seq<Event>, k: nat, r: seq<Event>)
    requires Sorted(es) && k < |es| && r == es[..k] + es[k + 1..]
    ensures Sorted(r) && forall f :: f in r <==> f in es && f != es[k]
    ensures es == r[..k] + [es[k]] + r[k..]
  {
    assert forall i :: 0 <= i < |r| ==> r[i] == es[if i < k then i else i + 1];
    Members(es[..k], es[k], es[k + 1..]);
    assert es == es[..k] + [es[k]] + es[k + 1..];
    assert forall i :: 0 <= i < |r| ==> r[i] != es[k];
  }

  lemma Members(a: seq<Event>, e: Event, b: seq<Event>)
    ensures forall f :: f in a + [e] + b <==> f in a + b || f == e
  {
  }

  // ---------- the index ----------

  /** The event happens at time `t`. */
  ghost predicate Happens(jobs: seq<Job>, placement: Placement, e: Event, t: nat)
    requires |placement| == |jobs|
  {
    && e.jid < |jobs| && placement[e.jid].Valid()
    && t == placement[e.jid].value + if e.start then 0 else jobs[e.jid].duration
  }

  /** At every time exactly the events that happen are listed, and they sum up to what starts minus what ends. */
  ghost predicate Matches(jobs: seq<Job>, resources: nat, placement: Placement, events: seq<seq<Event>>)
    requires |placement| == |jobs| && Uses(jobs, resources)
  {
    forall t: nat :: t < |events| ==> MatchesAt(jobs, resources, placement, events[t], t)
  }

  ghost predicate MatchesAt(jobs: seq<Job>, resources: nat, placement: Placement, es: seq<Event>, t: nat)
    requires |placement| == |jobs| && Uses(jobs, resources)
  {
    && Sorted(es) && Listed(jobs, es)
    && (forall e: Event :: e in es <==> Happens(jobs, placement, e, t))
    && (forall r: nat :: r < resources ==> Total(jobs, es, r) == Turns(jobs, placement, r, t))
  }

  /** The two events of a job that is not yet present. */
  method Enter(events: seq<seq<Event>>, jid: nat, pos: nat, duration: nat,
               ghost jobs: seq<Job>, ghost resources: nat, ghost placement: Placement)
    returns (after: seq<seq<Event>>)
    requires |placement| == |jobs| && Uses(jobs, resources) && Matches(jobs, resources, placement, events)
    requires jid < |jobs| && placement[jid] == Nothing && duration == jobs[jid].duration
    requires pos + duration < |events|
    ensures |after| == |events| && Matches(jobs, resources, placement[jid := Just(pos)], after)
  {
    var starts := Emplace(events[pos], Event(true, jid), jobs, resources);
    var middle := events[pos := starts];
    var ends := Emplace(middle[pos + duration], Event(false, jid), jobs, resources);
    after := middle[pos + duration := ends];
    forall t: nat | t < |after|
      ensures MatchesAt(jobs, resources, placement[jid := Just(pos)], after[t], t)
    {
      assert MatchesAt(jobs, resources, placement, events[t], t);
      forall r: nat | r < resources
        ensures Total(jobs, after[t], r) == Turns(jobs, placement[jid := Just(pos)], r, t)
      {
        LoadAfterMove(jobs, placement, jid, Just(pos), r, t);
      }
    }
  }

  /** The start of the job is gone from one time and its end from another, and nothing else. */
  ghost predicate Removed(jid: nat, startSlot: nat, endSlot: nat, before: seq<seq<Event>>, after: seq<seq<Event>>) {
    && |after| == |before|
    && (forall t :: 0 <= t < |after| ==> Sorted(after[t]))
    && forall t, e :: 0 <= t < |after| ==>
         (e in after[t] <==>
            e in before[t] && !(t == startSlot && e == Event(true, jid)) && !(t == endSlot && e == Event(false, jid)))
  }

  /** Takes out the start of a job that is present, and looks for its end in `endSlot`. The index agrees with the rest
      of the jobs exactly if the end was looked for where it is. */
  method Leave(events: seq<seq<Event>>, jid: nat, pos: nat, endSlot: nat,
               ghost jobs: seq<Job>, ghost resources: nat, ghost placement: Placement)
    returns (after: seq<seq<Event>>)
    requires |placement| == |jobs| && Uses(jobs, resources) && Matches(jobs, resources, placement, events)
    requires jid < |jobs| && placement[jid] == Just(pos)
    requires pos + jobs[jid].duration < |events| && endSlot < |events|
    ensures Removed(jid, pos, endSlot, events, after)
    ensures Matches(jobs, resources, placement[jid := Nothing], after) <==> endSlot == pos + jobs[jid].duration
  {
    ghost var end := pos + jobs[jid].duration;
    assert MatchesAt(jobs, resources, placement, events[pos], pos);
    assert MatchesAt(jobs, resources, placement, events[end], end);
    assert MatchesAt(jobs, resources, placement, events[endSlot], endSlot);
    var starts := Erase(events[pos], Event(true, jid), jobs, resources);
    var middle := events[pos := starts];
    var ends := Erase(middle[endSlot], Event(false, jid), jobs, resources);
    after := middle[endSlot := ends];
    if endSlot != end {
      assert Event(false, jid) in events[end] && Event(false, jid) in after[end];
      assert !MatchesAt(jobs, resources, placement[jid := Nothing], after[end], end);
    } else {
      forall t: nat | t < |after|
        ensures MatchesAt(jobs, resources, placement[jid := Nothing], after[t], t)
      {
        assert MatchesAt(jobs, resources, placement, events[t], t);
        forall r: nat | r < resources
          ensures Total(jobs, after[t], r) == Turns(jobs, placement[jid := Nothing], r, t)
        {
          LoadAfterMove(jobs, placement, jid, Nothing, r, t);
        }
      }
    }
  }
}
