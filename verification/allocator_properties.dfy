/** What the allocator promises its callers: single allocation succeeds
    exactly while a slot is free and takes the lowest one, allocation and
    deallocation undo each other, a bucket holds the requested slots in
    order, and the lifecycle of initialize and deinitialize. The last part
    states the allocator's unit tests, and what the as-written drafts do
    with them instead. */
module PoolProperties {

  import opened Errors
  import opened Buckets
  import opened Pool
  import SlotRegistry
  import RegistryProperties
  import Packing

  /** The handles of the slots `ids`, in order. */
  function Pointers(ids: seq<nat>): (ps: seq<Pointer>)
    ensures |ps| == |ids|
    ensures forall k :: 0 <= k < |ids| ==> ps[k] == Into(ids[k])
  {
    seq(|ids|, k requires 0 <= k < |ids| => Into(ids[k]))
  }

  // ---------------------------------------------------------------------
  // Lifecycle

  /** A new allocator reports every slot free; initializing it succeeds
      when the system memory is there and leaves the slots alone; a second
      initialize is refused; deinitialize brings it back to a new one. */
  lemma Lifecycle<T>(n: nat)
    requires n > 0
    ensures Status(New<T>(n)) == SlotRegistry.Report(0, n)
    ensures Initialize(New<T>(n), false) == Step(New<T>(n), Err(CannotReserveSystemMemory))
    ensures var a := Initialize(New<T>(n), true);
      && a.result == Ok(true) && Inv(a.alloc) && a.alloc.initialized
      && Initialize(a.alloc, true).result == Err(AlreadyInitialized)
      && Deinitialize(a.alloc) == New<T>(n)
  {
    var a := Initialize(New<T>(n), true).alloc;
    assert Deinitialize(a).storage == New<T>(n).storage;
  }

  /** Deinitializing twice is the same as deinitializing once. */
  lemma DeinitializeIdempotent<T>(a: Allocator<T>)
    requires Inv(a)
    ensures Deinitialize(Deinitialize(a)) == Deinitialize(a)
  {
  }

  /** Whatever was allocated, deinitialize followed by initialize gives an
      allocator with every slot free whose first allocation is slot 0. */
  lemma ReinitializeStartsOver<T>(a: Allocator<T>, v: T)
    requires Inv(a) && 0 < |a.registry.bits|
    ensures var b := Initialize(Deinitialize(a), true);
      && b.result == Ok(true)
      && Status(b.alloc) == SlotRegistry.Report(0, |a.registry.bits|)
      && Allocate(b.alloc, v, false).result == Ok(Into(0))
  {
    var b := Initialize(Deinitialize(a), true).alloc;
    RegistryProperties.ResetThenFetch(a.registry);
    assert b.registry == SlotRegistry.Reset(a.registry);
  }

  // ---------------------------------------------------------------------
  // Single allocation

  /** On an initialized allocator, allocating one object succeeds exactly
      while the counter leaves a slot free; otherwise nothing changes and
      the error is NotEnoughSpaceInAllocator. */
  lemma AllocateSucceedsIff<T>(a: Allocator<T>, v: T)
    requires Inv(a) && a.initialized
    ensures Allocate(a, v, false).result.Ok? <==> a.registry.used < |a.registry.bits|
    ensures !Allocate(a, v, false).result.Ok? ==> Allocate(a, v, false) == Step(a, Err(NotEnoughSpaceInAllocator))
  {
    RegistryProperties.FetchSucceedsIff(a.registry, 1);
  }

  /** A successful allocation hands out the lowest free slot, constructs the
      object there, marks the slot in use and changes nothing else. */
  lemma AllocateFirstFit<T>(a: Allocator<T>, v: T)
    requires Shaped(a) && Allocate(a, v, false).result.Ok?
    ensures var s := Allocate(a, v, false); var i := s.result.value.index;
      && i < |a.registry.bits| && !a.registry.bits[i]
      && (forall j :: 0 <= j < i ==> a.registry.bits[j])
      && s.alloc.storage == a.storage[i := Holds(v)]
      && s.alloc.registry == SlotRegistry.Registry(a.registry.bits[i := true], a.registry.used + 1)
  {
    var f := SlotRegistry.Fetch(a.registry, 1);
    RegistryProperties.FetchFirstFit(a.registry, 1);
    var i := f.indices.value[0];
    assert f.indices.value == [i];
    assert f.registry.bits == a.registry.bits[i := true];
  }

  /** When the constructor throws, the error is ExceptionCaughtInCtor and
      the fetched slot stays counted as in use: nothing gives it back. */
  lemma CtorFailureKeepsSlot<T>(a: Allocator<T>, v: T)
    requires Inv(a) && a.initialized && a.registry.used < |a.registry.bits|
    ensures var s := Allocate(a, v, true);
      && s.result == Err(ExceptionCaughtInCtor)
      && s.alloc.storage == a.storage
      && Status(s.alloc).used == Status(a).used + 1
  {
    RegistryProperties.FetchSucceedsIff(a.registry, 1);
    RegistryProperties.FetchFirstFit(a.registry, 1);
  }

  /** Deallocating what an allocation handed out succeeds and gives back the
      registry as it was before the allocation; the slot holds a default
      object. */
  lemma AllocateDeallocateRoundTrip<T>(a: Allocator<T>, v: T, dflt: T)
    requires Shaped(a) && Allocate(a, v, false).result.Ok?
    ensures var s := Allocate(a, v, false); var i := s.result.value.index;
      var d := Deallocate(s.alloc, s.result.value, dflt, false);
      && d.result == Ok(true)
      && d.alloc.registry == a.registry
      && d.alloc.storage == a.storage[i := Holds(dflt)]
  {
    var f := SlotRegistry.Fetch(a.registry, 1);
    RegistryProperties.FetchFirstFit(a.registry, 1);
    RegistryProperties.FetchReleaseRoundTrip(a.registry, 1);
    var i := f.indices.value[0];
    assert f.indices.value == [i];
    assert RegistryProperties.ReleaseAll(f.registry, [i]) == SlotRegistry.Release(f.registry, i);
  }

  /** Deallocating an in-use slot below which every slot is in use (so that
      it becomes the lowest free slot) and allocating again hands out that
      same slot and restores the registry. */
  lemma DeallocateAllocateRoundTrip<T>(a: Allocator<T>, i: nat, dflt: T, v: T)
    requires Inv(a) && a.initialized
    requires i < |a.registry.bits| && a.registry.bits[i]
    requires forall j :: 0 <= j < i ==> a.registry.bits[j]
    ensures var d := Deallocate(a, Into(i), dflt, false);
      && d.result == Ok(true)
      && Allocate(d.alloc, v, false) == Step(a.(storage := a.storage[i := Holds(v)]), Ok(Into(i)))
  {
    RegistryProperties.ReleaseFetchRoundTrip(a.registry, i);
    var d := Deallocate(a, Into(i), dflt, false);
    assert d.alloc.storage[i := Holds(v)] == a.storage[i := Holds(v)];
  }

  /** Deallocation of an address outside the storage, or of any address by
      an allocator that is not initialized, changes nothing; a destructor
      that throws leaves everything as it was. */
  lemma DeallocateNoEffect<T>(a: Allocator<T>, p: Pointer, dflt: T)
    requires Shaped(a)
    ensures Deallocate(a, Elsewhere, dflt, false) == Step(a, if a.initialized then Ok(true) else Err(NotInitialized))
    ensures a.initialized && p.Into? && p.index < |a.storage| ==>
      Deallocate(a, p, dflt, true) == Step(a, Err(ExceptionCaughtInDctor))
    ensures a.initialized && p.Into? && p.index < |a.storage| ==>
      Deallocate(a, p, dflt, false).alloc.storage[p.index] == Holds(dflt)
  {
  }

  /** A successful deallocation of slot i scrubs that slot, releases it in
      the registry, and leaves every other slot as it was. */
  lemma DeallocateFrame<T>(a: Allocator<T>, i: nat, dflt: T)
    requires Shaped(a) && a.initialized && i < |a.storage|
    ensures var d := Deallocate(a, Into(i), dflt, false);
      && d.result == Ok(true)
      && d.alloc.initialized
      && d.alloc.registry == SlotRegistry.Release(a.registry, i)
      && d.alloc.storage[i] == Holds(dflt)
      && forall j :: 0 <= j < |a.storage| && j != i ==> d.alloc.storage[j] == a.storage[j]
  {
  }

  /** Deallocating the same handle twice leaves the registry as the first
      deallocation left it. */
  lemma DeallocateTwice<T>(a: Allocator<T>, p: Pointer, dflt: T)
    requires Shaped(a)
    ensures var d := Deallocate(a, p, dflt, false);
      Deallocate(d.alloc, p, dflt, false) == d
  {
    if a.initialized && p.Into? && p.index < |a.storage| {
      RegistryProperties.ReleaseIdempotent(a.registry, p.index);
      var d := Deallocate(a, p, dflt, false);
      assert d.alloc.storage[p.index := Holds(dflt)] == d.alloc.storage;
    }
  }

  /** The older draft's `allocate` (and the newer one's) report a full
      allocator as BadLogic, where the error it means is
      NotEnoughSpaceInAllocator. */
  lemma AllocateAsWrittenFull<T>(a: Allocator<T>, v: T)
    requires Inv(a) && a.initialized && a.registry.used == |a.registry.bits|
    ensures Allocate(a, v, false) == Step(a, Err(NotEnoughSpaceInAllocator))
    ensures AllocateAsWritten(a, v, false) == Step(a, Err(BadLogic))
  {
    AllocateSucceedsIff(a, v);
  }

  // ---------------------------------------------------------------------
  // Buckets

  /** One step of a fill that does not fail: the k-th slot gets a default
      object and its handle is pushed. */
  lemma FillStep<T>(a: Allocator<T>, ids: seq<nat>, k: nat, b: Bucket<Pointer>, dflt: T)
    requires k < |ids|
    requires forall x :: x in ids ==> x < |a.storage|
    requires |b.entries| < b.capacity
    ensures ids[k] < |a.storage|
    ensures Fill(a, ids, k, b, dflt, None)
         == Fill(a.(storage := a.storage[ids[k] := Holds(dflt)]), ids, k + 1,
                 Bucket(b.capacity, b.entries + [Into(ids[k])]), dflt, None)
  {
    assert ids[k] in ids;
  }

  lemma PointersCons(e: seq<Pointer>, ids: seq<nat>, k: nat)
    requires k < |ids|
    ensures (e + [Into(ids[k])]) + Pointers(ids[k + 1..]) == e + Pointers(ids[k..])
  {
    assert Pointers(ids[k..]) == [Into(ids[k])] + Pointers(ids[k + 1..]);
  }

  /** Filling with no constructor throwing and room in the bucket pushes the
      handles of the remaining slots in order. */
  lemma {:induction false} FillSucceeds<T>(a: Allocator<T>, ids: seq<nat>, k: nat, b: Bucket<Pointer>, dflt: T)
    requires k <= |ids|
    requires forall x :: x in ids ==> x < |a.storage|
    requires |b.entries| + (|ids| - k) <= b.capacity
    ensures Fill(a, ids, k, b, dflt, None).result == Ok(Bucket(b.capacity, b.entries + Pointers(ids[k..])))
    decreases |ids| - k
  {
    if k == |ids| {
      assert b.entries + Pointers(ids[k..]) == b.entries;
    } else {
      assert ids[k] in ids;
      var a' := a.(storage := a.storage[ids[k] := Holds(dflt)]);
      var b' := Bucket(b.capacity, b.entries + [Into(ids[k])]);
      calc {
        Fill(a, ids, k, b, dflt, None).result;
        { FillStep(a, ids, k, b, dflt); }
        Fill(a', ids, k + 1, b', dflt, None).result;
        { FillSucceeds(a', ids, k + 1, b', dflt); }
        Ok(Bucket(b.capacity, b'.entries + Pointers(ids[k + 1..])));
        { PointersCons(b.entries, ids, k); }
        Ok(Bucket(b.capacity, b.entries + Pointers(ids[k..])));
      }
    }
  }

  /** ... and constructs a default object in each of those slots, leaving
      every other slot as it was. */
  lemma {:induction false} FillConstructs<T>(a: Allocator<T>, ids: seq<nat>, k: nat, b: Bucket<Pointer>, dflt: T)
    requires k <= |ids|
    requires forall x :: x in ids ==> x < |a.storage|
    requires |b.entries| + (|ids| - k) <= b.capacity
    ensures var st := Fill(a, ids, k, b, dflt, None).alloc.storage;
      forall i :: 0 <= i < |a.storage| ==> st[i] == if i in ids[k..] then Holds(dflt) else a.storage[i]
    decreases |ids| - k
  {
    if k < |ids| {
      FillStep(a, ids, k, b, dflt);
      var a' := a.(storage := a.storage[ids[k] := Holds(dflt)]);
      FillConstructs(a', ids, k + 1, Bucket(b.capacity, b.entries + [Into(ids[k])]), dflt);
      assert ids[k..] == [ids[k]] + ids[k + 1..];
      forall i | 0 <= i < |a.storage|
        ensures i in ids[k..] <==> i == ids[k] || i in ids[k + 1..]
      {
      }
    }
  }

  /** A constructor that throws at the j-th slot stops the fill with
      ExceptionCaughtInCtor. */
  lemma {:induction false} FillThrows<T>(a: Allocator<T>, ids: seq<nat>, k: nat, b: Bucket<Pointer>, dflt: T, j: nat)
    requires k <= j < |ids|
    requires forall x :: x in ids ==> x < |a.storage|
    requires |b.entries| + (|ids| - k) <= b.capacity
    ensures Fill(a, ids, k, b, dflt, Some(j)).result == Err(ExceptionCaughtInCtor)
    decreases |ids| - k
  {
    if k < j {
      assert ids[k] in ids;
      var a' := a.(storage := a.storage[ids[k] := Holds(dflt)]);
      var b' := Bucket(b.capacity, b.entries + [Into(ids[k])]);
      assert PushBack(b, Into(ids[k])) == (b', true);
      FillThrows(a', ids, k + 1, b', dflt, j);
    }
  }

  /** On an initialized allocator, a bucket of `size` slots is handed out
      exactly when the counter leaves room for them; it then holds the
      handles of the lowest `size` free slots in ascending order, each with
      a default object constructed in it and marked in use. Otherwise
      nothing changes and the error is NotEnoughSpaceInAllocator. */
  lemma AllocateBucketSpec<T>(a: Allocator<T>, size: nat, dflt: T)
    requires Inv(a) && a.initialized && size > 0
    ensures var s := AllocateBucket(a, size, dflt, None);
      && (s.result.Ok? <==> a.registry.used + size <= |a.registry.bits|)
      && (!s.result.Ok? ==> s == Step(a, Err(NotEnoughSpaceInAllocator)))
      && (s.result.Ok? ==>
            var ids := SlotRegistry.Fetch(a.registry, size).indices.value;
            && |ids| == size
            && RegistryProperties.FirstFree(a.registry.bits, ids)
            && s.result.value == Bucket(size, Pointers(ids))
            && s.alloc.registry.used == a.registry.used + size
            && (forall x :: x in ids ==> s.alloc.registry.bits[x] && s.alloc.storage[x] == Holds(dflt))
            && (forall i :: 0 <= i < |a.storage| && i !in ids ==> s.alloc.storage[i] == a.storage[i]))
  {
    RegistryProperties.FetchSucceedsIff(a.registry, size);
    if SlotRegistry.Fetch(a.registry, size).indices.Ok? {
      RegistryProperties.FetchFirstFit(a.registry, size);
      BucketFromFills(a, size, size, dflt);
    }
  }

  /** When the fetch succeeds and no constructor throws, the bucket holds
      the handles of the fetched slots, each holding a default object. */
  lemma BucketFromFills<T>(a: Allocator<T>, qty: nat, capacity: nat, dflt: T)
    requires Shaped(a) && a.initialized && qty <= capacity
    requires SlotRegistry.Fetch(a.registry, qty).indices.Ok?
    ensures BucketFrom(a, qty, capacity, dflt, None).result
         == Ok(Bucket(capacity, Pointers(SlotRegistry.Fetch(a.registry, qty).indices.value)))
    ensures BucketFrom(a, qty, capacity, dflt, None).alloc.registry == SlotRegistry.Fetch(a.registry, qty).registry
    ensures var ids := SlotRegistry.Fetch(a.registry, qty).indices.value;
      var st := BucketFrom(a, qty, capacity, dflt, None).alloc.storage;
      forall i :: 0 <= i < |a.storage| ==> st[i] == if i in ids then Holds(dflt) else a.storage[i]
  {
    var f := SlotRegistry.Fetch(a.registry, qty);
    var ids := f.indices.value;
    FetchedInRange(a.registry, qty);
    var a1 := a.(registry := f.registry);
    FillSucceeds(a1, ids, 0, Empty(capacity), dflt);
    FillConstructs(a1, ids, 0, Empty(capacity), dflt);
    assert ids[0..] == ids;
    assert Empty<Pointer>(capacity).entries + Pointers(ids[0..]) == Pointers(ids);
  }

  /** A constructor that throws while a bucket is filled makes the bucket
      allocation fail with ExceptionCaughtInCtor; every fetched slot stays
      counted as in use. */
  lemma AllocateBucketCtorFailure<T>(a: Allocator<T>, size: nat, dflt: T, j: nat)
    requires Inv(a) && a.initialized && size > 0 && j < size
    requires a.registry.used + size <= |a.registry.bits|
    ensures var s := AllocateBucket(a, size, dflt, Some(j));
      && s.result == Err(ExceptionCaughtInCtor)
      && Status(s.alloc).used == Status(a).used + size
  {
    var f := SlotRegistry.Fetch(a.registry, size);
    RegistryProperties.FetchSucceedsIff(a.registry, size);
    RegistryProperties.FetchFirstFit(a.registry, size);
    FetchedInRange(a.registry, size);
    FillThrows(a.(registry := f.registry), f.indices.value, 0, Empty(size), dflt, j);
  }

  /** Deallocating a bucket of handles of slots, none of whose destructors
      throws, releases those slots one after the other. */
  lemma {:induction false} DeallocateAll<T>(a: Allocator<T>, b: Bucket<Pointer>, ids: seq<nat>, k: nat, dflt: T)
    requires Shaped(a) && a.initialized
    requires k <= |ids| && b.entries == Pointers(ids)
    requires forall x :: x in ids ==> x < |a.storage|
    ensures var d := DeallocateBucket(a, b, k, dflt, None);
      && d.result == Ok(true)
      && d.alloc.registry == RegistryProperties.ReleaseAll(a.registry, ids[k..])
    decreases |ids| - k
  {
    if k == |ids| {
      assert ids[k..] == [];
    } else {
      assert ids[k] in ids;
      var d := Deallocate(a, Into(ids[k]), dflt, false);
      assert d.alloc.registry == SlotRegistry.Release(a.registry, ids[k]);
      DeallocateAll(d.alloc, b, ids, k + 1, dflt);
      assert ids[k..][0] == ids[k] && ids[k..][1..] == ids[k + 1..];
    }
  }

  /** When the destructor of entry j throws, deallocating a bucket is the
      same as deallocating its first j entries and reporting
      ExceptionCaughtInDctor: later entries are not visited. */
  lemma {:induction false} DeallocateBucketStops<T>(a: Allocator<T>, b: Bucket<Pointer>, k: nat, dflt: T, j: nat)
    requires Shaped(a) && a.initialized && k <= j < |b.entries|
    requires b.entries[j].Into? && b.entries[j].index < |a.storage|
    ensures var head := Bucket(b.capacity, b.entries[..j]);
      DeallocateBucket(a, b, k, dflt, Some(j))
        == Step(DeallocateBucket(a, head, k, dflt, None).alloc, Err(ExceptionCaughtInDctor))
    decreases j - k
  {
    var head := Bucket(b.capacity, b.entries[..j]);
    if k < j {
      assert head.entries[k] == b.entries[k];
      var d := Deallocate(a, b.entries[k], dflt, false);
      assert d.result == Ok(true);
      DeallocateBucketStops(d.alloc, b, k + 1, dflt, j);
    }
  }

  /** Deallocating a bucket just handed out succeeds and gives back the
      registry as it was before. */
  lemma BucketRoundTrip<T>(a: Allocator<T>, size: nat, dflt: T)
    requires Inv(a) && a.initialized && size > 0
    requires a.registry.used + size <= |a.registry.bits|
    ensures var s := AllocateBucket(a, size, dflt, None);
      && s.result.Ok?
      && var d := DeallocateBucket(s.alloc, s.result.value, 0, dflt, None);
         d.result == Ok(true) && d.alloc.registry == a.registry
  {
    var f := SlotRegistry.Fetch(a.registry, size);
    AllocateBucketSpec(a, size, dflt);
    FetchedInRange(a.registry, size);
    var ids := f.indices.value;
    var s := AllocateBucket(a, size, dflt, None);
    DeallocateAll(s.alloc, s.result.value, ids, 0, dflt);
    assert ids[0..] == ids;
    RegistryProperties.FetchReleaseRoundTrip(a.registry, size);
  }

  // ---------------------------------------------------------------------
  // Allocators whose first k slots are in use

  /** A freshly initialized allocator of n slots has none in use. */
  lemma StartEmpty<T>(n: nat)
    requires n > 0
    ensures var a := Initialize(New<T>(n), true).alloc;
      && a.initialized && Inv(a) && |a.storage| == n
      && a.registry == RegistryProperties.Prefix(n, 0)
  {
    RegistryProperties.FreshIsEmptyPrefix(n);
  }

  /** With the first k of n slots in use, allocation hands out slot k, or
      fails when k is n. */
  lemma AllocateOnPrefix<T>(a: Allocator<T>, k: nat, v: T)
    requires Inv(a) && a.initialized && k <= |a.registry.bits|
    requires a.registry == RegistryProperties.Prefix(|a.registry.bits|, k)
    ensures var s := Allocate(a, v, false); var n := |a.registry.bits|;
      && (k < n ==>
            && s.result == Ok(Into(k)) && Inv(s.alloc) && s.alloc.initialized
            && s.alloc.registry == RegistryProperties.Prefix(n, k + 1)
            && s.alloc.storage == a.storage[k := Holds(v)])
      && (k == n ==> s == Step(a, Err(NotEnoughSpaceInAllocator)))
  {
    var n := |a.registry.bits|;
    RegistryProperties.FetchOnPrefix(n, k, 1);
    if k < n {
      assert RegistryProperties.Range(k, k + 1) == [k];
    }
  }

  /** With the first k of n slots in use, a bucket of `size` slots holds
      slots k to k + size - 1, or fails when they do not fit. */
  lemma BucketOnPrefix<T>(a: Allocator<T>, k: nat, size: nat, dflt: T)
    requires Inv(a) && a.initialized && size > 0 && k <= |a.registry.bits|
    requires a.registry == RegistryProperties.Prefix(|a.registry.bits|, k)
    ensures var s := AllocateBucket(a, size, dflt, None); var n := |a.registry.bits|;
      && (k + size <= n ==>
            && s.result == Ok(Bucket(size, Pointers(RegistryProperties.Range(k, k + size))))
            && s.alloc.registry == RegistryProperties.Prefix(n, k + size))
      && (k + size > n ==> s == Step(a, Err(NotEnoughSpaceInAllocator)))
  {
    RegistryProperties.FetchOnPrefix(|a.registry.bits|, k, size);
    AllocateBucketSpec(a, size, dflt);
  }

  /** The newer draft's bucket allocation is a bucket of all N slots,
      whatever size was asked for. */
  lemma AsWrittenFetchesAll<T>(a: Allocator<T>, size: nat, dflt: T, throwsAt: Option<nat>)
    requires size > 0 && Inv(a)
    ensures AllocateBucketAsWritten(a, size, dflt, throwsAt) == AllocateBucket(a, |a.storage|, dflt, throwsAt)
  {
  }

  lemma ThreePointers(lo: nat)
    ensures Pointers(RegistryProperties.Range(lo, lo + 3)) == [Into(lo), Into(lo + 1), Into(lo + 2)]
  {
    var ps := Pointers(RegistryProperties.Range(lo, lo + 3));
    assert ps[0] == Into(lo) && ps[1] == Into(lo + 1) && ps[2] == Into(lo + 2);
  }

  // ---------------------------------------------------------------------
  // The unit tests of the allocator, as lemmas about the model

  /** A new allocator of seven slots reports none in use. */
  lemma BasicCreation<T>()
    ensures Status(New<T>(7)).used == 0
  {
  }

  /** Allocating into a fresh initialized allocator of one slot succeeds
      with that slot and the object constructed there; a second allocation
      fails with NotEnoughSpaceInAllocator, which the as-written drafts
      report as BadLogic. */
  lemma AllocateOneThenNoSpace<T>(v: T, w: T)
    ensures var a := Initialize(New<T>(1), true).alloc;
      var s := Allocate(a, v, false);
      && s.result == Ok(Into(0))
      && s.alloc.storage[0] == Holds(v)
      && Allocate(s.alloc, w, false).result == Err(NotEnoughSpaceInAllocator)
      && AllocateAsWritten(s.alloc, w, false).result == Err(BadLogic)
  {
    var a := Initialize(New<T>(1), true).alloc;
    StartEmpty<T>(1);
    AllocateOnPrefix(a, 0, v);
    AllocateOnPrefix(Allocate(a, v, false).alloc, 1, w);
  }

  /** A bucket of three out of five fresh slots: slots 0, 1 and 2 in order,
      size three, out of bounds from index 3 on, and deallocating it frees
      every slot again. */
  lemma BucketOfThree<T>(dflt: T)
    ensures var a := Initialize(New<T>(5), true).alloc;
      var s := AllocateBucket(a, 3, dflt, None);
      && s.result.Ok?
      && Size(s.result.value) == 3
      && At(s.result.value, 0) == Ok(Into(0))
      && At(s.result.value, 1) == Ok(Into(1))
      && At(s.result.value, 2) == Ok(Into(2))
      && At(s.result.value, 3) == Err(OutOfBounds)
      && Status(DeallocateBucket(s.alloc, s.result.value, 0, dflt, None).alloc) == SlotRegistry.Report(0, 5)
  {
    var a := Initialize(New<T>(5), true).alloc;
    StartEmpty<T>(5);
    BucketOnPrefix(a, 0, 3, dflt);
    BucketRoundTrip(a, 3, dflt);
    ThreePointers(0);
  }

  /** The bucket test never initializes its allocator, so the bucket
      allocation it makes is refused with NotInitialized. */
  lemma BucketWithoutInitialize<T>(dflt: T)
    ensures AllocateBucket(New<T>(5), 3, dflt, None) == Step(New<T>(5), Err(NotInitialized))
    ensures AllocateBucketAsWritten(New<T>(5), 3, dflt, None) == Step(New<T>(5), Err(NotInitialized))
  {
  }

  /** As written, the newer draft's bucket allocation of three out of five
      fresh slots takes all five. */
  lemma BucketAsWrittenTakesAll<T>(dflt: T)
    ensures var a := Initialize(New<T>(5), true).alloc;
      var s := AllocateBucketAsWritten(a, 3, dflt, None);
      && s.result.Ok? && Size(s.result.value) == 5
      && Status(s.alloc) == SlotRegistry.Report(5, 0)
  {
    var a := Initialize(New<T>(5), true).alloc;
    StartEmpty<T>(5);
    AsWrittenFetchesAll(a, 3, dflt, None);
    BucketOnPrefix(a, 0, 5, dflt);
  }

  /** On one slot the scan bound does not interfere, and the ignored SIZE
      shows alone: `allocate_bucket<3>()` hands out a bucket of the single
      slot, where a bucket of three does not fit. */
  lemma BucketAsWrittenOneSlot<T>(dflt: T)
    ensures var a := Initialize(New<T>(1), true).alloc;
      && AllocateBucketAsWritten(a, 3, dflt, None).result == Ok(Bucket(1, [Into(0)]))
      && AllocateBucket(a, 3, dflt, None) == Step(a, Err(NotEnoughSpaceInAllocator))
  {
    var a := Initialize(New<T>(1), true).alloc;
    StartEmpty<T>(1);
    AsWrittenFetchesAll(a, 3, dflt, None);
    BucketOnPrefix(a, 0, 1, dflt);
    BucketOnPrefix(a, 0, 3, dflt);
    assert Pointers(RegistryProperties.Range(0, 1)) == [Into(0)];
  }

  /** ... so with one of the five slots in use it fails, where a bucket of
      three would fit. */
  lemma BucketAsWrittenAfterOne<T>(v: T, dflt: T)
    ensures var a := Initialize(New<T>(5), true).alloc;
      var one := Allocate(a, v, false).alloc;
      && AllocateBucketAsWritten(one, 3, dflt, None).result == Err(NotEnoughSpaceInAllocator)
      && AllocateBucket(one, 3, dflt, None).result.Ok?
  {
    var a := Initialize(New<T>(5), true).alloc;
    StartEmpty<T>(5);
    AllocateOnPrefix(a, 0, v);
    var one := Allocate(a, v, false).alloc;
    AsWrittenFetchesAll(one, 3, dflt, None);
    BucketOnPrefix(one, 1, 5, dflt);
    BucketOnPrefix(one, 1, 3, dflt);
  }

  /** The older draft's test, on seven slots: its registry works on
      min(ceil(7 / 32), 7) = 1 slot, so the first allocation succeeds, the
      second fails (InternalLogicError) and the bucket of three fails
      (NoFreeSpace), where the test expects them to succeed. */
  lemma LegacySevenSlots<T>(p: T, q: T, dflt: T)
    ensures var a := Initialize(LegacyNew<T>(7), true).alloc;
      var s1 := Allocate(a, p, false);
      var s2 := AllocateAsWritten(s1.alloc, q, false);
      && s1.result == Ok(Into(0))
      && s2.result == Err(BadLogic)
      && AllocateBucket(s2.alloc, 3, dflt, None).result == Err(NotEnoughSpaceInAllocator)
  {
    assert Packing.MaxIndex(7) == 1;
    var a := Initialize(LegacyNew<T>(7), true).alloc;
    RegistryProperties.FreshIsEmptyPrefix(1);
    AllocateOnPrefix(a, 0, p);
    var s1 := Allocate(a, p, false);
    AllocateOnPrefix(s1.alloc, 1, q);
    BucketOnPrefix(s1.alloc, 1, 3, dflt);
  }

  /** The same test with a registry of all seven slots: every step
      succeeds and the bucket holds slots 2, 3 and 4. */
  lemma SevenSlots<T>(p: T, q: T, dflt: T)
    ensures var a := Initialize(New<T>(7), true).alloc;
      var s1 := Allocate(a, p, false);
      var s2 := Allocate(s1.alloc, q, false);
      var s3 := AllocateBucket(s2.alloc, 3, dflt, None);
      && s1.result == Ok(Into(0))
      && s2.result == Ok(Into(1))
      && s3.result == Ok(Bucket(3, [Into(2), Into(3), Into(4)]))
  {
    var a := Initialize(New<T>(7), true).alloc;
    StartEmpty<T>(7);
    AllocateOnPrefix(a, 0, p);
    var s1 := Allocate(a, p, false);
    AllocateOnPrefix(s1.alloc, 1, q);
    var s2 := Allocate(s1.alloc, q, false);
    BucketOnPrefix(s2.alloc, 2, 3, dflt);
    ThreePointers(2);
  }
}
