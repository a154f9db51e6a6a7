/** A pool of reference-counted containers with a free list, and the handles that refer to them. */
module SharedPtrPools {
  import opened Numbers
  import opened Seqs
  import opened Maybes

  /** The content of every handle that exists: a container, or nothing. */
  type Handles = map<nat, Maybe<nat>>

  /** The handles that refer to a container. */
  function Holders(handles: Handles, c: nat): (holders: set<nat>) {
    set h | h in handles && handles[h] == Just(c)
  }

  ghost function Is(m: Maybe<nat>, c: nat): (r: nat) {
    if m == Just(c) then 1 else 0
  }

  ghost function Refers(handles: Handles, h: nat, c: nat): (r: nat) {
    if h in handles then Is(handles[h], c) else 0
  }

  lemma HoldersAfterUpdate(handles: Handles, h: nat, m: Maybe<nat>, c: nat)
    ensures |Holders(handles[h := m], c)| == |Holders(handles, c)| - Refers(handles, h, c) + Is(m, c)
  {
    var rest := Holders(handles, c) - {h};
    assert Holders(handles[h := m], c) == if m == Just(c) then rest + {h} else rest;
    assert h in handles && handles[h] == Just(c) ==> Holders(handles, c) == rest + {h};
    assert !(h in handles && handles[h] == Just(c)) ==> Holders(handles, c) == rest;
  }

  lemma HoldersAfterRemoval(handles: Handles, h: nat, c: nat)
    requires h in handles
    ensures |Holders(handles - {h}, c)| == |Holders(handles, c)| - Refers(handles, h, c)
  {
    var rest := Holders(handles, c) - {h};
    assert Holders(handles - {h}, c) == rest;
    assert handles[h] == Just(c) ==> Holders(handles, c) == rest + {h};
    assert handles[h] != Just(c) ==> Holders(handles, c) == rest;
  }

  class SharedPtrPool {
    const chunkSize: nat
    var counts: seq<nat>
    var free: seq<nat>
    var handles: Handles

    // How many references to each container were overwritten without being released.
    ghost var lost: seq<nat>

    // The largest number of containers that were in use at any time.
    ghost var peak: nat

    /** The number of containers that are not on the free list. */
    ghost function InUse(): (n: int)
      reads this`counts, this`free
    {
      |counts| - |free|
    }

    /** The counts are right, and the store is no larger than the containers that were ever in use at the same time make
        necessary. */
    ghost predicate Valid()
      reads this
    {
      Balanced() && InUse() <= peak <= |counts| < peak + chunkSize
    }

    /** Every count is the number of handles plus the lost references, and the free list holds exactly the containers
        with count 0, each once. */
    ghost predicate Balanced()
      reads this
    {
      && chunkSize > 0
      && |lost| == |counts|
      && (forall h :: h in handles && handles[h].Valid() ==> handles[h].value < |counts|)
      && (forall c :: 0 <= c < |counts| ==> counts[c] == |Holders(handles, c)| + lost[c])
      && Distinct(free)
      && (forall c :: c in free <==> 0 <= c < |counts| && counts[c] == 0)
    }

    constructor (chunkSize: nat)
      requires chunkSize > 0
      ensures Valid() && Sum(lost) == 0 && handles == map[] && counts == [] && this.chunkSize == chunkSize
    {
      this.chunkSize := chunkSize;
      counts := [];
      free := [];
      handles := map[];
      lost := [];
      peak := 0;
    }

    /** A new chunk of containers, all of them free, in ascending order. */
    method AddChunk()
      requires Balanced() && free == []
      modifies this`counts, this`free, this`lost
      ensures Balanced() && |free| == chunkSize
      ensures forall i :: 0 <= i < |free| ==> free[i] == old(|counts|) + i
      ensures |counts| == old(|counts|) + chunkSize
      ensures Sum(lost) == Sum(old(lost))
    {
      NothingMore(lost, chunkSize);
      var before := |counts|;
      counts := counts + seq(chunkSize, _ => 0);
      lost := lost + seq(chunkSize, _ => 0);
      forall c: nat | before <= c
        ensures Holders(handles, c) == {}
      {
      }
      var i := 0;
      while i < chunkSize
        invariant 0 <= i <= chunkSize && |free| == i
        invariant forall j :: 0 <= j < i ==> free[j] == before + j
        modifies this`free
      {
        free := free + [before + i];
        i := i + 1;
      }
      forall c: nat | before <= c < before + chunkSize
        ensures c in free
      {
        assert free[c - before] == c;
      }
    }

    /** A handle `h` to a container that no handle refers to: the one that was freed last, and only if there is none,
        one of a new chunk. */
    method Get(h: nat) returns (c: nat)
      requires Valid() && h !in handles
      modifies this
      ensures Valid() && handles == old(handles)[h := Just(c)]
      ensures Holders(old(handles), c) == {}
      ensures old(free) != [] ==>
        c == old(free)[|old(free)| - 1] && free == old(free)[..|old(free)| - 1] && |counts| == old(|counts|)
      ensures old(free) == [] ==>
        |counts| == old(|counts|) + chunkSize && c == |counts| - 1 &&
        |free| == chunkSize - 1 && forall i :: 0 <= i < |free| ==> free[i] == old(|counts|) + i
      ensures InUse() == old(InUse()) + 1 && peak == if InUse() > old(peak) then InUse() else old(peak)
      ensures Sum(lost) == Sum(old(lost))
    {
      FreeIsShort();
      if |free| == 0 {
        AddChunk();
      }
      c := Take();
      HandOut(h, c);
    }

    /** The construction of a handle to a container that has been taken off the free list. */
    method HandOut(h: nat, c: nat)
      requires chunkSize > 0 && |lost| == |counts| && h !in handles
      requires forall g :: g in handles && handles[g].Valid() ==> handles[g].value < |counts|
      requires forall d :: 0 <= d < |counts| ==> counts[d] == |Holders(handles, d)| + lost[d]
      requires c < |counts| && counts[c] == 0
      requires Distinct(free) && forall d: nat :: d in free <==> d < |counts| && counts[d] == 0 && d != c
      requires |free| < |counts|
      modifies this`handles, this`counts, this`peak
      ensures Balanced() && handles == old(handles)[h := Just(c)] && |counts| == old(|counts|)
      ensures peak == if InUse() > old(peak) then InUse() else old(peak)
    {
      peak := Max(peak, InUse());
      ghost var was := handles;
      handles := handles[h := Just(c)];
      counts := counts[c := 1];
      UpdatedHolders(was, h, Just(c));
    }

    /** There are at least as many containers as free ones. */
    lemma FreeIsShort()
      requires Balanced()
      ensures |free| <= |counts|
    {
      assert forall i :: 0 <= i < |free| ==> free[i] in free;
      DistinctIsShort(free, |counts|);
    }

    /** Takes the last container off the free list. */
    method Take() returns (c: nat)
      requires Balanced() && free != []
      modifies this`free
      ensures c == old(free)[|old(free)| - 1] && free == old(free)[..|old(free)| - 1]
      ensures c < |counts| && counts[c] == 0 && Holders(handles, c) == {} && lost[c] == 0
      ensures Distinct(free) && forall d: nat :: d in free <==> d < |counts| && counts[d] == 0 && d != c
    {
      c := free[|free| - 1];
      assert c in free;
      assert free == free[..|free| - 1] + [c];
      free := free[..|free| - 1];
    }

    lemma UpdatedHolders(was: Handles, h: nat, m: Maybe<nat>)
      ensures forall c: nat :: |Holders(was[h := m], c)| == |Holders(was, c)| - Refers(was, h, c) + Is(m, c)
    {
      forall c: nat
        ensures |Holders(was[h := m], c)| == |Holders(was, c)| - Refers(was, h, c) + Is(m, c)
      {
        HoldersAfterUpdate(was, h, m, c);
      }
    }

    /** The default constructor of a handle. */
    method Construct(h: nat)
      requires Valid() && h !in handles
      modifies this`handles
      ensures Valid() && handles == old(handles)[h := Nothing]
    {
      ghost var was := handles;
      handles := handles[h := Nothing];
      UpdatedHolders(was, h, Nothing);
    }

    method CopyConstruct(h: nat, other: nat)
      requires Valid() && h !in handles && other in handles
      modifies this`handles, this`counts
      ensures Valid() && handles == old(handles)[h := old(handles)[other]]
    {
      ghost var was := handles;
      var content := handles[other];
      handles := handles[h := content];
      if content.Valid() {
        HolderIsCounted(was, other);
        counts := counts[content.value := counts[content.value] + 1];
      }
      UpdatedHolders(was, h, content);
    }

    method MoveConstruct(h: nat, other: nat)
      requires Valid() && h !in handles && other in handles
      modifies this`handles
      ensures Valid() && handles == old(handles)[h := old(handles)[other]][other := Nothing]
    {
      ghost var was := handles;
      handles := handles[h := handles[other]];
      handles := handles[other := Nothing];
      UpdatedHolders(was, h, was[other]);
      UpdatedHolders(was[h := was[other]], other, Nothing);
    }

    /** A container with a handle is counted, and so not on the free list. */
    lemma HolderIsCounted(was: Handles, h: nat)
      requires h in was
      ensures was[h].Valid() ==> |Holders(was, was[h].value)| >= 1
    {
      if was[h].Valid() {
        assert h in Holders(was, was[h].value);
      }
    }

    /** Gives a reference back; the last one returns the container to the free list. */
    method Release(c: nat)
      requires c < |counts| && counts[c] > 0
      requires Distinct(free) && forall d: nat :: d in free <==> d < |counts| && counts[d] == 0
      modifies this`counts, this`free
      ensures counts == old(counts)[c := old(counts[c]) - 1]
      ensures free == Freed(old(free), old(counts), Just(c))
      ensures Distinct(free) && forall d: nat :: d in free <==> d < |counts| && counts[d] == 0
    {
      assert c !in free;
      counts := counts[c := counts[c] - 1];
      if counts[c] == 0 {
        free := free + [c];
      }
    }

    method Destroy(h: nat)
      requires Valid() && h in handles
      modifies this`handles, this`counts, this`free
      ensures Valid() && handles == old(handles) - {h}
      ensures free == Freed(old(free), old(counts), old(handles)[h])
    {
      ghost var was := handles;
      if handles[h].Valid() {
        HolderIsCounted(was, h);
        Release(handles[h].value);
      }
      handles := handles - {h};
      forall c: nat
        ensures |Holders(handles, c)| == |Holders(was, c)| - Refers(was, h, c)
      {
        HoldersAfterRemoval(was, h, c);
      }
    }

    /** `reset(nullptr)`. */
    method Reset(h: nat)
      requires Valid() && h in handles
      modifies this`handles, this`counts, this`free
      ensures Valid() && handles == old(handles)[h := Nothing]
      ensures free == Freed(old(free), old(counts), old(handles)[h])
    {
      ghost var was := handles;
      if handles[h].Valid() {
        HolderIsCounted(was, h);
        Release(handles[h].value);
      }
      handles := handles[h := Nothing];
      UpdatedHolders(was, h, Nothing);
    }

    /** `reset` to a container that is given by its address. Its count is set to 1, so afterwards the pool is in order
        exactly if no other handle refers to the container and it is not on the free list. */
    method ResetTo(h: nat, c: nat)
      requires Valid() && h in handles && c < |counts|
      modifies this
      ensures handles == old(handles)[h := Just(c)] && peak == old(peak)
      ensures Valid() <==> Holders(old(handles), c) <= {h} && c !in free
      ensures free == Freed(old(free), old(counts), old(handles)[h])
      ensures |counts| == old(|counts|) && counts[c] == 1 && lost == old(lost)[c := 0]
      ensures forall d: nat :: d < |counts| && d != c ==> counts[d] == old(counts)[d] - Refers(old(handles), h, d)
    {
      ghost var was := handles;
      if handles[h].Valid() {
        HolderIsCounted(was, h);
        Release(handles[h].value);
      }
      handles := handles[h := Just(c)];
      counts := counts[c := 1];
      lost := lost[c := 0];
      UpdatedHolders(was, h, Just(c));
      OnlyHolder(was, h, c);
    }

    /** Construction of a handle from an address. */
    method ConstructFrom(h: nat, c: nat)
      requires Valid() && h !in handles && c < |counts|
      modifies this
      ensures handles == old(handles)[h := Just(c)] && free == old(free) && peak == old(peak)
      ensures Valid() <==> Holders(old(handles), c) == {} && c !in free
      ensures counts == old(counts)[c := 1] && lost == old(lost)[c := 0]
    {
      ghost var was := handles;
      handles := handles[h := Just(c)];
      counts := counts[c := 1];
      lost := lost[c := 0];
      UpdatedHolders(was, h, Just(c));
      OnlyHolder(was, h, c);
    }

    lemma OnlyHolder(was: Handles, h: nat, c: nat)
      ensures |Holders(was[h := Just(c)], c)| == 1 <==> Holders(was, c) <= {h}
      ensures h !in was ==> h !in Holders(was, c)
    {
      assert Holders(was[h := Just(c)], c) == Holders(was, c) + {h};
      if Holders(was, c) <= {h} {
        assert Holders(was, c) + {h} == {h};
      } else {
        var g :| g in Holders(was, c) && g != h;
        SubsetCardinality({g, h}, Holders(was, c) + {h});
      }
    }

    /** Copy assignment overwrites the old content without releasing it. */
    method CopyAssign(h: nat, other: nat)
      requires Valid() && h in handles && other in handles
      modifies this`handles, this`counts, this`lost
      ensures Valid() && handles == old(handles)[h := old(handles)[other]]
      ensures lost == Dropped(old(lost), old(handles)[h])
    {
      ghost var was := handles;
      var content := handles[other];
      lost := Dropped(lost, was[h]);
      handles := handles[h := content];
      if content.Valid() {
        HolderIsCounted(was, other);
        counts := counts[content.value := counts[content.value] + 1];
      }
      HolderIsCounted(was, h);
      UpdatedHolders(was, h, content);
    }

    /** Move assignment overwrites the old content as well, and empties the source, even if that is the target. */
    method MoveAssign(h: nat, other: nat)
      requires Valid() && h in handles && other in handles
      modifies this`handles, this`lost
      ensures Valid() && handles == old(handles)[h := old(handles)[other]][other := Nothing]
      ensures lost == Dropped(old(lost), old(handles)[h])
    {
      ghost var was := handles;
      lost := Dropped(lost, was[h]);
      handles := handles[h := handles[other]];
      handles := handles[other := Nothing];
      HolderIsCounted(was, h);
      UpdatedHolders(was, h, was[other]);
      UpdatedHolders(was[h := was[other]], other, Nothing);
    }
  }

  /** The free list after a handle has given up its content: the last reference to a container returns it. */
  ghost function Freed(free: seq<nat>, counts: seq<nat>, content: Maybe<nat>): (r: seq<nat>) {
    if content.Valid() && content.value < |counts| && counts[content.value] == 1 then free + [content.value] else free
  }

  /** One more reference to the overwritten content is lost. */
  ghost function Dropped(lost: seq<nat>, content: Maybe<nat>): (r: seq<nat>)
    ensures |r| == |lost|
  {
    if content.Valid() && content.value < |lost| then lost[content.value := lost[content.value] + 1] else lost
  }

  lemma {:induction false} NothingMore(lost: seq<nat>, n: nat)
    ensures Sum(lost + seq(n, _ => 0)) == Sum(lost)
    decreases n
  {
    var longer := lost + seq(n, _ => 0);
    if n == 0 {
      assert longer == lost;
    } else {
      NothingMore(lost, n - 1);
      assert longer[..|longer| - 1] == lost + seq(n - 1, _ => 0);
    }
  }

  lemma {:induction false} SumDropped(lost: seq<nat>, content: Maybe<nat>)
    requires content.Valid() ==> content.value < |lost|
    ensures Sum(Dropped(lost, content)) == Sum(lost) + if content.Valid() then 1 else 0
    decreases |lost|
  {
    if content.Valid() {
      var n := |lost| - 1;
      if content.value == n {
        assert Dropped(lost, content)[..n] == lost[..n];
      } else {
        SumDropped(lost[..n], content);
        assert Dropped(lost, content)[..n] == Dropped(lost[..n], content);
      }
    }
  }

  lemma {:induction false} LostLess(lost: seq<nat>, c: nat)
    requires c < |lost|
    ensures Sum(lost[c := 0]) <= Sum(lost)
  {
    var n := |lost| - 1;
    if c == n {
      assert lost[c := 0][..n] == lost[..n];
    } else {
      LostLess(lost[..n], c);
      assert lost[c := 0][..n] == lost[..n][c := 0];
    }
  }

  /** No reference is lost exactly if none is for any container: then every count is the number of handles. */
  lemma {:induction false} NothingLost(lost: seq<nat>)
    ensures Sum(lost) == 0 <==> forall c :: 0 <= c < |lost| ==> lost[c] == 0
  {
    if lost == [] {
    } else {
      NothingLost(lost[..|lost| - 1]);
      assert forall c :: 0 <= c < |lost| - 1 ==> lost[..|lost| - 1][c] == lost[c];
    }
  }

  /** A container that has lost a reference never gets back to the free list, and one with a handle is not on it. */
  lemma NotFree(pool: SharedPtrPool, c: nat)
    requires pool.Valid() && c < |pool.counts|
    requires pool.lost[c] > 0 || Holders(pool.handles, c) != {}
    ensures c !in pool.free && pool.counts[c] >= |Holders(pool.handles, c)|
  {
    if Holders(pool.handles, c) != {} {
      var h :| h in Holders(pool.handles, c);
      SubsetCardinality({h}, Holders(pool.handles, c));
    }
  }

  // ---------- the size of the store ----------

  /** The containers below `k` that are in use, and the handles that refer to any container below `k`. */
  ghost function Used(counts: seq<nat>, k: nat): (used: set<nat>)
    requires k <= |counts|
  {
    set c: nat | c < k && counts[c] > 0
  }

  ghost function Referring(handles: Handles, k: nat): (referring: set<nat>) {
    set h | h in handles && handles[h].Valid() && handles[h].value < k
  }

  lemma UsedOneMore(counts: seq<nat>, c: nat)
    requires c < |counts|
    ensures |Used(counts, c + 1)| == |Used(counts, c)| + if counts[c] > 0 then 1 else 0
  {
    assert Used(counts, c + 1) == Used(counts, c) + if counts[c] > 0 then {c} else {};
  }

  lemma ReferringOneMore(handles: Handles, c: nat)
    ensures |Referring(handles, c + 1)| == |Referring(handles, c)| + |Holders(handles, c)|
  {
    assert Referring(handles, c + 1) == Referring(handles, c) + Holders(handles, c);
    assert Referring(handles, c) !! Holders(handles, c);
  }

  /** Every container in use has a handle or a lost reference. */
  lemma {:induction false} UsedAreReferred(handles: Handles, counts: seq<nat>, lost: seq<nat>, k: nat)
    requires k <= |counts| == |lost|
    requires forall c :: 0 <= c < |counts| ==> counts[c] == |Holders(handles, c)| + lost[c]
    ensures |Used(counts, k)| <= |Referring(handles, k)| + Sum(lost[..k])
  {
    if k == 0 {
      assert Used(counts, 0) == {};
    } else {
      var c := k - 1;
      UsedAreReferred(handles, counts, lost, c);
      assert lost[..k][..c] == lost[..c];
      UsedOneMore(counts, c);
      ReferringOneMore(handles, c);
    }
  }

  lemma UseAndFree(pool: SharedPtrPool)
    requires pool.Balanced()
    ensures pool.InUse() == |Used(pool.counts, |pool.counts|)|
  {
    var n := |pool.counts|;
    DistinctCardinality(pool.free);
    var all := Elements(UpTo(n));
    DistinctCardinality(UpTo(n));
    forall c: nat
      ensures c in all <==> c < n
    {
      assert c < n ==> UpTo(n)[c] == c;
    }
    assert all == Used(pool.counts, n) + Elements(pool.free);
    assert Used(pool.counts, n) !! Elements(pool.free);
  }

  /** No more containers are in use than there are handles and lost references. */
  lemma UseIsBounded(pool: SharedPtrPool, shape: Shape)
    requires pool.Balanced() && Shaped(shape, pool.handles)
    ensures pool.InUse() <= |shape| + Sum(pool.lost)
  {
    var n := |pool.counts|;
    UseAndFree(pool);
    UsedAreReferred(pool.handles, pool.counts, pool.lost, n);
    assert pool.lost[..n] == pool.lost;
    SubsetCardinality(Referring(pool.handles, n), pool.handles.Keys);
    assert shape.Keys == pool.handles.Keys;
  }

  // ---------- whole runs ----------

  /** What a program does with handles. */
  datatype Operation =
    | Getting(h: nat)
    | Constructing(h: nat)
    | CopyConstructing(h: nat, other: nat)
    | MoveConstructing(h: nat, other: nat)
    | Destroying(h: nat)
    | Resetting(h: nat)
    | CopyAssigning(h: nat, other: nat)
    | MoveAssigning(h: nat, other: nat)
    | ResettingTo(h: nat, c: nat)
    | ConstructingFrom(h: nat, c: nat)
  {
    /** The container is given by its address. */
    predicate ByAddress() {
      ResettingTo? || ConstructingFrom?
    }
  }

  /** For every handle that exists whether it refers to a container, whichever that is. */
  type Shape = map<nat, bool>

  ghost predicate Shaped(shape: Shape, handles: Handles) {
    forall h :: (h in shape <==> h in handles) && (h in shape ==> shape[h] == handles[h].Valid())
  }

  /** Handles are constructed once, and used while they exist. */
  ghost predicate Fits(shape: Shape, op: Operation) {
    match op
    case Getting(h) => h !in shape
    case Constructing(h) => h !in shape
    case CopyConstructing(h, other) => h !in shape && other in shape
    case MoveConstructing(h, other) => h !in shape && other in shape
    case Destroying(h) => h in shape
    case Resetting(h) => h in shape
    case CopyAssigning(h, other) => h in shape && other in shape
    case MoveAssigning(h, other) => h in shape && other in shape
    case ResettingTo(h, _) => h in shape
    case ConstructingFrom(h, _) => h !in shape
  }

  ghost function Then(shape: Shape, op: Operation): (r: Shape)
    requires Fits(shape, op)
  {
    match op
    case Getting(h) => shape[h := true]
    case Constructing(h) => shape[h := false]
    case CopyConstructing(h, other) => shape[h := shape[other]]
    case MoveConstructing(h, other) => shape[h := shape[other]][other := false]
    case Destroying(h) => shape - {h}
    case Resetting(h) => shape[h := false]
    case CopyAssigning(h, other) => shape[h := shape[other]]
    case MoveAssigning(h, other) => shape[h := shape[other]][other := false]
    case ResettingTo(h, _) => shape[h := true]
    case ConstructingFrom(h, _) => shape[h := true]
  }

  /** The operation assigns to a handle that refers to a container. */
  ghost predicate Overwrites(shape: Shape, op: Operation)
    requires Fits(shape, op)
  {
    match op
    case CopyAssigning(h, _) => shape[h]
    case MoveAssigning(h, _) => shape[h]
    case _ => false
  }

  ghost predicate FitsAll(shape: Shape, ops: seq<Operation>)
    decreases |ops|
  {
    ops == [] || (Fits(shape, ops[0]) && FitsAll(Then(shape, ops[0]), ops[1..]))
  }

  ghost function Overwritten(shape: Shape, ops: seq<Operation>): (n: nat)
    requires FitsAll(shape, ops)
    decreases |ops|
  {
    if ops == [] then 0
    else (if Overwrites(shape, ops[0]) then 1 else 0) + Overwritten(Then(shape, ops[0]), ops[1..])
  }

  /** The largest number of handles that exist at the same time. */
  ghost function Most(shape: Shape, ops: seq<Operation>): (n: nat)
    requires FitsAll(shape, ops)
    decreases |ops|
  {
    if ops == [] then |shape| else Max(|shape|, Most(Then(shape, ops[0]), ops[1..]))
  }

  /** As many containers as have ever been in use at once, or as there can be references in a run, held or lost. */
  ghost function Needed(peak: nat, shape: Shape, ops: seq<Operation>): (n: nat)
    requires FitsAll(shape, ops)
  {
    Max(peak, Most(shape, ops) + Overwritten(shape, ops))
  }

  /** Only an operation by address can be out of order: the container has to be one of the pool that no other handle
      refers to, and that is not on the free list and does not get there. */
  predicate InOrder(pool: SharedPtrPool, op: Operation)
    reads pool
  {
    match op
    case ResettingTo(h, c) =>
      && c < |pool.counts| && Holders(pool.handles, c) <= {h} && c !in pool.free
      && !(pool.counts[c] == 1 && h in pool.handles && pool.handles[h] == Just(c))
    case ConstructingFrom(_, c) => c < |pool.counts| && Holders(pool.handles, c) == {} && c !in pool.free
    case _ => true
  }

  method Perform(pool: SharedPtrPool, op: Operation, ghost shape: Shape)
    requires pool.Valid() && Shaped(shape, pool.handles) && Fits(shape, op) && InOrder(pool, op)
    modifies pool
    ensures pool.Valid() && Shaped(Then(shape, op), pool.handles)
    ensures pool.peak == if pool.InUse() > old(pool.peak) then pool.InUse() else old(pool.peak)
    ensures |pool.counts| == old(|pool.counts|) || (op.Getting? && old(pool.free) == [])
    ensures Sum(pool.lost) <= old(Sum(pool.lost)) + if Overwrites(shape, op) then 1 else 0
    ensures !op.ByAddress() ==> Sum(pool.lost) == old(Sum(pool.lost)) + if Overwrites(shape, op) then 1 else 0
  {
    if op.CopyAssigning? || op.MoveAssigning? {
      Assign(pool, op, shape);
    } else if op.ByAddress() {
      TakeOver(pool, op, shape);
    } else {
      Use(pool, op, shape);
    }
  }

  /** The operations that lose nothing. */
  method Use(pool: SharedPtrPool, op: Operation, ghost shape: Shape)
    requires !op.CopyAssigning? && !op.MoveAssigning? && !op.ByAddress()
    requires pool.Valid() && Shaped(shape, pool.handles) && Fits(shape, op)
    modifies pool
    ensures pool.Valid() && Shaped(Then(shape, op), pool.handles)
    ensures pool.peak == if pool.InUse() > old(pool.peak) then pool.InUse() else old(pool.peak)
    ensures |pool.counts| == old(|pool.counts|) || (op.Getting? && old(pool.free) == [])
    ensures Sum(pool.lost) == old(Sum(pool.lost))
  {
    match op
    case Getting(h) => var _ := pool.Get(h);
    case Constructing(h) => pool.Construct(h);
    case CopyConstructing(h, other) => pool.CopyConstruct(h, other);
    case MoveConstructing(h, other) => pool.MoveConstruct(h, other);
    case Destroying(h) => pool.Destroy(h);
    case Resetting(h) => pool.Reset(h);
  }

  /** The operations by address. */
  method TakeOver(pool: SharedPtrPool, op: Operation, ghost shape: Shape)
    requires op.ByAddress() && InOrder(pool, op)
    requires pool.Valid() && Shaped(shape, pool.handles) && Fits(shape, op)
    modifies pool
    ensures pool.Valid() && Shaped(Then(shape, op), pool.handles)
    ensures |pool.counts| == old(|pool.counts|) && pool.peak == old(pool.peak)
    ensures Sum(pool.lost) <= old(Sum(pool.lost))
  {
    LostLess(pool.lost, op.c);
    if op.ResettingTo? {
      pool.ResetTo(op.h, op.c);
    } else {
      pool.ConstructFrom(op.h, op.c);
    }
  }

  method Assign(pool: SharedPtrPool, op: Operation, ghost shape: Shape)
    requires op.CopyAssigning? || op.MoveAssigning?
    requires pool.Valid() && Shaped(shape, pool.handles) && Fits(shape, op)
    modifies pool
    ensures pool.Valid() && Shaped(Then(shape, op), pool.handles)
    ensures pool.free == old(pool.free) && |pool.counts| == old(|pool.counts|) && pool.peak == old(pool.peak)
    ensures Sum(pool.lost) == old(Sum(pool.lost)) + if Overwrites(shape, op) then 1 else 0
  {
    SumDropped(pool.lost, pool.handles[op.h]);
    if op.CopyAssigning? {
      pool.CopyAssign(op.h, op.other);
    } else {
      pool.MoveAssign(op.h, op.other);
    }
  }

  /** A run of a pool that has lost nothing goes on until an operation would leave the pool out of order. At most as
      many references are lost as handles are overwritten; without operations by address, all operations are performed,
      the numbers are equal, and every count is the number of handles of the container exactly if every assignment is
      to a handle that is null. The store exceeds what is needed by less than a chunk. */
  method Run(pool: SharedPtrPool, ops: seq<Operation>, ghost shape: Shape) returns (done: nat)
    requires pool.Valid() && Sum(pool.lost) == 0 && Shaped(shape, pool.handles) && FitsAll(shape, ops)
    modifies pool
    ensures pool.Valid() && done <= |ops| && (done < |ops| ==> Refused(pool, ops[done]))
    ensures Sum(pool.lost) <= Overwritten(shape, ops)
    ensures |pool.counts| < Needed(old(pool.peak), shape, ops) + pool.chunkSize
    ensures Overwritten(shape, ops) == 0 ==> Counted(pool)
    ensures AllByHandle(ops) ==>
      && done == |ops| && Sum(pool.lost) == Overwritten(shape, ops)
      && (Overwritten(shape, ops) == 0 <==> Counted(pool))
  {
    ghost var now := shape;
    ghost var most := Needed(pool.peak, shape, ops);
    ghost var byHandle := AllByHandle(ops);
    assert ops[0..] == ops;
    done := 0;
    while done < |ops| && InOrder(pool, ops[done])
      invariant 0 <= done <= |ops| && Underway(pool, now, ops[done..], Overwritten(shape, ops), most, byHandle)
      invariant byHandle <==> AllByHandle(ops)
    {
      assert ops[done..][1..] == ops[done + 1..];
      now := Advance(pool, ops[done..], now, Overwritten(shape, ops), most, byHandle);
      done := done + 1;
    }
    RunEnds(pool, now, ops[done..], Overwritten(shape, ops), most, byHandle);
  }

  lemma RunEnds(pool: SharedPtrPool, now: Shape, rest: seq<Operation>, total: nat, most: nat, byHandle: bool)
    requires Underway(pool, now, rest, total, most, byHandle)
    requires rest == [] || !InOrder(pool, rest[0])
    ensures rest != [] ==> Refused(pool, rest[0])
    ensures Sum(pool.lost) <= total && |pool.counts| < most + pool.chunkSize
    ensures total == 0 ==> Counted(pool)
    ensures byHandle ==> rest == [] && Sum(pool.lost) == total && (total == 0 <==> Counted(pool))
  {
    NothingLost(pool.lost);
    if rest != [] && rest[0].c < |pool.counts| && !(Holders(pool.handles, rest[0].c) <= {rest[0].h}) {
      var g :| g in Holders(pool.handles, rest[0].c) && g != rest[0].h;
    }
  }

  /** The container is not one of the pool, or it is on the free list or gets there, or another handle refers to it. */
  ghost predicate Refused(pool: SharedPtrPool, op: Operation)
    reads pool
  {
    && op.ByAddress()
    && (op.c < |pool.counts| ==>
          || op.c in pool.free
          || (op.h in pool.handles && pool.handles[op.h] == Just(op.c) && pool.counts[op.c] == 1)
          || exists g :: g in pool.handles && g != op.h && pool.handles[g] == Just(op.c))
  }

  ghost predicate AllByHandle(ops: seq<Operation>) {
    forall i :: 0 <= i < |ops| ==> !ops[i].ByAddress()
  }

  /** What a run keeps: with the rest still to come, no more than `total` references will be lost, and no more than
      `most` containers will ever be in use. */
  ghost predicate Underway(pool: SharedPtrPool, now: Shape, rest: seq<Operation>, total: nat, most: nat, byHandle: bool)
    reads pool
  {
    && pool.Valid() && Shaped(now, pool.handles) && FitsAll(now, rest)
    && Sum(pool.lost) + Overwritten(now, rest) <= total
    && (byHandle ==> AllByHandle(rest) && Sum(pool.lost) + Overwritten(now, rest) == total)
    && pool.peak <= most && Most(now, rest) + total <= most
  }

  /** One operation of a run. */
  method Advance(pool: SharedPtrPool, ops: seq<Operation>, ghost now: Shape, ghost total: nat, ghost most: nat,
                 ghost byHandle: bool)
    returns (ghost next: Shape)
    requires ops != [] && InOrder(pool, ops[0]) && Underway(pool, now, ops, total, most, byHandle)
    modifies pool
    ensures Underway(pool, next, ops[1..], total, most, byHandle)
  {
    Perform(pool, ops[0], now);
    next := Then(now, ops[0]);
    UseIsBounded(pool, next);
  }

  /** Every count is the number of handles of the container. */
  ghost predicate Counted(pool: SharedPtrPool)
    reads pool
  {
    forall c :: 0 <= c < |pool.counts| ==> pool.counts[c] == |Holders(pool.handles, c)|
  }

  /** Two handles from the pool, and one assigned to the other: the container of the second is lost. */
  lemma AssignmentLoses(ops: seq<Operation>)
    requires ops == [Getting(0), Getting(1), CopyAssigning(1, 0)]
    ensures FitsAll(map[], ops) && Overwritten(map[], ops) == 1
  {
    var one: Shape := map[0 := true];
    var two: Shape := map[0 := true, 1 := true];
    var last := [CopyAssigning(1, 0)];
    assert FitsAll(two, last) && Overwritten(two, last) == 1 by {
      assert last[1..] == [];
    }
    var rest := [Getting(1)] + last;
    assert FitsAll(one, rest) && Overwritten(one, rest) == 1 by {
      assert rest[1..] == last && Then(one, rest[0]) == two;
    }
    assert ops[1..] == rest && Then(map[], ops[0]) == one;
  }

  /** What was freed last is handed out next. */
  method FreedIsReused() returns (c: nat, d: nat)
    ensures c == d == 9999
  {
    var pool := new SharedPtrPool(10000);
    c := pool.Get(0);
    pool.Destroy(0);
    d := pool.Get(1);
  }

  method LostContainer() returns (pool: SharedPtrPool, ghost c: nat)
    ensures pool.Valid() && c < |pool.counts| && pool.counts[c] > |Holders(pool.handles, c)|
  {
    pool := new SharedPtrPool(10000);
    var ops := [Getting(0), Getting(1), CopyAssigning(1, 0)];
    AssignmentLoses(ops);
    var _ := Run(pool, ops, map[]);
    c :| c < |pool.counts| && pool.counts[c] != |Holders(pool.handles, c)|;
  }

  /** A handle is reset to the container of another one: the pool counts one reference where there are two. */
  method SharedAddress() returns (pool: SharedPtrPool)
    ensures !pool.Valid()
  {
    pool := new SharedPtrPool(10000);
    var c := pool.Get(0);
    pool.Construct(1);
    assert 0 in Holders(pool.handles, c);
    pool.ResetTo(1, c);
  }

  method SharedConstruction() returns (pool: SharedPtrPool)
    ensures !pool.Valid()
  {
    pool := new SharedPtrPool(10000);
    var c := pool.Get(0);
    assert 0 in Holders(pool.handles, c);
    pool.ConstructFrom(1, c);
  }
}
