/** The typed fixed-capacity allocator: N slots of storage, reserved as a
    whole by `initialize`, handed out one at a time or in buckets, and
    handed back by pointer. Which slots are in use is the business of the
    slot status registry; the storage records what each slot holds.

    Constructors and destructors of the stored type are the caller's code:
    whether one of them throws is a parameter of the operation. So is the
    outcome of the system allocation in `initialize`. */
module Pool {

  import opened Errors
  import opened Buckets
  import SlotRegistry
  import Packing

  /** One slot of storage: raw memory, or an object constructed in it. */
  datatype Slot<T> = Raw | Holds(value: T)

  /** A pointer handed to `deallocate`: the address of storage slot
      `index`, or an address outside the storage. */
  datatype Pointer = Into(index: nat) | Elsewhere

  /** The allocator's state. N is |storage|. */
  datatype Allocator<T> = Allocator(initialized: bool, registry: SlotRegistry.Registry, storage: seq<Slot<T>>)

  /** An operation's outcome: the allocator afterwards and the result. */
  datatype Step<T, R> = Step(alloc: Allocator<T>, result: Result<R>)

  /** What every operation needs to be defined: the registry describes no
      more slots than there are, and its counter covers its flags. */
  predicate Shaped<T>(a: Allocator<T>) {
    && |a.registry.bits| <= |a.storage|
    && SlotRegistry.WellFormed(a.registry)
  }

  /** The invariant every allocator built by New or LegacyNew keeps: at
      least one slot, a registry whose counter agrees with its flags, and,
      while not initialized, nothing in use and nothing constructed. */
  predicate Inv<T>(a: Allocator<T>) {
    && 0 < |a.storage|
    && |a.registry.bits| <= |a.storage|
    && SlotRegistry.Valid(a.registry)
    && (!a.initialized ==>
          && a.registry == SlotRegistry.Fresh(|a.registry.bits|)
          && forall i :: 0 <= i < |a.storage| ==> a.storage[i] == Raw)
  }

  lemma InvIsShaped<T>(a: Allocator<T>)
    requires Inv(a)
    ensures Shaped(a)
  {
  }

  function AllRaw<T>(n: nat): (s: seq<Slot<T>>)
    ensures |s| == n && forall i :: 0 <= i < n ==> s[i] == Raw
  {
    seq(n, _ => Raw)
  }

  /** A new allocator of N slots (N > 0), not yet initialized. */
  function New<T>(n: nat): (a: Allocator<T>)
    requires n > 0
    ensures Inv(a) && !a.initialized && |a.storage| == n && |a.registry.bits| == n
  {
    Allocator(false, SlotRegistry.Fresh(n), AllRaw(n))
  }

  /** A new allocator of the older draft: its registry works on
      kMaxIndex = min(ceil(N / 32), N) slots only, everywhere (scan, space
      check, release, status), so only that many slots can be in use. */
  function LegacyNew<T>(n: nat): (a: Allocator<T>)
    requires n > 0
    ensures Inv(a) && !a.initialized && |a.storage| == n
    ensures |a.registry.bits| == Packing.MaxIndex(n)
  {
    Allocator(false, SlotRegistry.Fresh(Packing.MaxIndex(n)), AllRaw(n))
  }

  /** `initialize()`: refused when already initialized; fails when the
      system allocation (`reserved`) fails; otherwise marks the allocator
      initialized. */
  function Initialize<T>(a: Allocator<T>, reserved: bool): (s: Step<T, bool>)
    ensures a.initialized ==> s == Step(a, Err(AlreadyInitialized))
    ensures !a.initialized && !reserved ==> s == Step(a, Err(CannotReserveSystemMemory))
    ensures !a.initialized && reserved ==> s.result == Ok(true) && s.alloc.initialized
    ensures s.alloc.registry == a.registry && s.alloc.storage == a.storage
    ensures Inv(a) ==> Inv(s.alloc)
  {
    if a.initialized then Step(a, Err(AlreadyInitialized))
    else if !reserved then Step(a, Err(CannotReserveSystemMemory))
    else Step(a.(initialized := true), Ok(true))
  }

  /** `deinitialize()`: destroys the objects of all N slots when
      initialized, marks the allocator not initialized and resets the
      registry (in the documented way: flags and counter). */
  function Deinitialize<T>(a: Allocator<T>): (a': Allocator<T>)
    ensures !a'.initialized && |a'.storage| == |a.storage|
    ensures a'.registry == SlotRegistry.Fresh(|a.registry.bits|)
    ensures SlotRegistry.Status(a'.registry) == SlotRegistry.Report(0, |a.registry.bits|)
    ensures Inv(a) ==> Inv(a')
  {
    Allocator(false, SlotRegistry.Reset(a.registry), if a.initialized then AllRaw(|a.storage|) else a.storage)
  }

  /** `allocate(args...)`: fetches one slot and constructs `value` in it.
      Errors: NotInitialized; the registry's error when no slot could be
      fetched; ExceptionCaughtInCtor when the constructor throws, in which
      case the fetched slot stays marked in use. */
  function Allocate<T>(a: Allocator<T>, value: T, ctorThrows: bool): (s: Step<T, Pointer>)
    requires Shaped(a)
    ensures !a.initialized ==> s == Step(a, Err(NotInitialized))
    ensures s.alloc.initialized == a.initialized && |s.alloc.storage| == |a.storage|
    ensures a.initialized ==> s.alloc.registry == SlotRegistry.Fetch(a.registry, 1).registry
    ensures s.result.Ok? ==> s.result.value.Into? && s.result.value.index < |a.registry.bits|
    ensures Shaped(s.alloc)
    ensures Inv(a) ==> Inv(s.alloc)
  {
    if !a.initialized then Step(a, Err(NotInitialized))
    else
      var f := SlotRegistry.Fetch(a.registry, 1);
      var a1 := a.(registry := f.registry);
      match f.indices
      case Err(code) => Step(a1, Err(code))
      case Ok(ids) =>
        FetchedInRange(a.registry, 1);
        assert ids[0] in ids;
        var i := ids[0];
        if ctorThrows then Step(a1, Err(ExceptionCaughtInCtor))
        else Step(a1.(storage := a.storage[i := Holds(value)]), Ok(Into(i)))
  }

  /** `allocate` as written in both drafts: every failure to fetch a slot is
      reported as BadLogic (InternalLogicError in the older draft), also
      when the allocator is simply full. */
  function AllocateAsWritten<T>(a: Allocator<T>, value: T, ctorThrows: bool): (s: Step<T, Pointer>)
    requires Shaped(a)
    ensures s.alloc == Allocate(a, value, ctorThrows).alloc
    ensures s.result.Err? ==> s.result.code != NotEnoughSpaceInAllocator
  {
    var s := Allocate(a, value, ctorThrows);
    if s.result == Err(NotEnoughSpaceInAllocator) then Step(s.alloc, Err(BadLogic)) else s
  }

  /** Constructs a default object in each slot of `ids` from the k-th on and
      pushes its address into the bucket; stops with ExceptionCaughtInCtor at
      the constructor that throws (slot `throwsAt`), and with BadLogic when
      the bucket is full. Objects constructed before a failure are left in
      place. */
  function Fill<T>(a: Allocator<T>, ids: seq<nat>, k: nat, b: Bucket<Pointer>, dflt: T, throwsAt: Option<nat>): (s: Step<T, Bucket<Pointer>>)
    requires k <= |ids|
    requires forall x :: x in ids ==> x < |a.storage|
    ensures s.alloc.initialized == a.initialized && s.alloc.registry == a.registry
    ensures |s.alloc.storage| == |a.storage|
    decreases |ids| - k
  {
    if k == |ids| then Step(a, Ok(b))
    else if throwsAt == Some(k) then Step(a, Err(ExceptionCaughtInCtor))
    else
      assert ids[k] in ids;
      var a' := a.(storage := a.storage[ids[k] := Holds(dflt)]);
      var pushed := PushBack(b, Into(ids[k]));
      if !pushed.1 then Step(a', Err(BadLogic))
      else Fill(a', ids, k + 1, pushed.0, dflt, throwsAt)
  }

  /** The common body of both drafts' bucket allocation: fetch `qty` slots
      and fill a bucket of capacity `capacity` with them. Any fetch error is
      reported as NotEnoughSpaceInAllocator. */
  function BucketFrom<T>(a: Allocator<T>, qty: nat, capacity: nat, dflt: T, throwsAt: Option<nat>): (s: Step<T, Bucket<Pointer>>)
    requires Shaped(a)
    ensures !a.initialized ==> s == Step(a, Err(NotInitialized))
    ensures s.alloc.initialized == a.initialized && |s.alloc.storage| == |a.storage|
    ensures a.initialized ==> s.alloc.registry == SlotRegistry.Fetch(a.registry, qty).registry
    ensures a.initialized && !SlotRegistry.Fetch(a.registry, qty).indices.Ok? ==>
      s == Step(a.(registry := SlotRegistry.Fetch(a.registry, qty).registry), Err(NotEnoughSpaceInAllocator))
    ensures Shaped(s.alloc)
    ensures Inv(a) ==> Inv(s.alloc)
  {
    if !a.initialized then Step(a, Err(NotInitialized))
    else
      var f := SlotRegistry.Fetch(a.registry, qty);
      var a1 := a.(registry := f.registry);
      match f.indices
      case Err(_) => Step(a1, Err(NotEnoughSpaceInAllocator))
      case Ok(ids) =>
        FetchedInRange(a.registry, qty);
        Fill(a1, ids, 0, Empty(capacity), dflt, throwsAt)
  }

  lemma FetchedInRange(r: SlotRegistry.Registry, qty: nat)
    requires SlotRegistry.Fetch(r, qty).indices.Ok?
    ensures |SlotRegistry.Fetch(r, qty).indices.value| == qty
    ensures forall x :: x in SlotRegistry.Fetch(r, qty).indices.value ==> x < |r.bits|
  {
    SlotRegistry.FreeFromSpec(r.bits, 0, |r.bits|);
  }

  /** Bucket allocation of `size` slots as the older draft writes it and as
      the newer draft's test expects: `size` slots into a bucket of
      capacity `size`. */
  function AllocateBucket<T>(a: Allocator<T>, size: nat, dflt: T, throwsAt: Option<nat>): (s: Step<T, Bucket<Pointer>>)
    requires size > 0 && Shaped(a)
    ensures s.result.Ok? ==> s.result.value.capacity == size
    ensures Shaped(s.alloc)
    ensures Inv(a) ==> Inv(s.alloc)
  {
    var s := BucketFrom(a, size, size, dflt, throwsAt);
    FillCapacity(a, size, size, dflt, throwsAt);
    s
  }

  /** Bucket allocation as the newer draft writes it: the requested size is
      ignored, and all N slots are fetched into a bucket of capacity N. */
  function AllocateBucketAsWritten<T>(a: Allocator<T>, size: nat, dflt: T, throwsAt: Option<nat>): (s: Step<T, Bucket<Pointer>>)
    requires size > 0 && Shaped(a)
    ensures s.result.Ok? ==> s.result.value.capacity == |a.storage|
    ensures Shaped(s.alloc)
    ensures Inv(a) ==> Inv(s.alloc)
  {
    var s := BucketFrom(a, |a.storage|, |a.storage|, dflt, throwsAt);
    FillCapacity(a, |a.storage|, |a.storage|, dflt, throwsAt);
    s
  }

  lemma FillCapacity<T>(a: Allocator<T>, qty: nat, capacity: nat, dflt: T, throwsAt: Option<nat>)
    requires Shaped(a)
    ensures var s := BucketFrom(a, qty, capacity, dflt, throwsAt);
      s.result.Ok? ==> s.result.value.capacity == capacity
  {
    if a.initialized {
      var f := SlotRegistry.Fetch(a.registry, qty);
      if f.indices.Ok? {
        FetchedInRange(a.registry, qty);
        FillKeepsCapacity(a.(registry := f.registry), f.indices.value, 0, Empty(capacity), dflt, throwsAt);
      }
    }
  }

  lemma {:induction false} FillKeepsCapacity<T>(a: Allocator<T>, ids: seq<nat>, k: nat, b: Bucket<Pointer>, dflt: T, throwsAt: Option<nat>)
    requires k <= |ids|
    requires forall x :: x in ids ==> x < |a.storage|
    ensures var s := Fill(a, ids, k, b, dflt, throwsAt);
      s.result.Ok? ==> s.result.value.capacity == b.capacity
    decreases |ids| - k
  {
    if k < |ids| && throwsAt != Some(k) {
      assert ids[k] in ids;
      var a' := a.(storage := a.storage[ids[k] := Holds(dflt)]);
      var pushed := PushBack(b, Into(ids[k]));
      if pushed.1 {
        FillKeepsCapacity(a', ids, k + 1, pushed.0, dflt, throwsAt);
      }
    }
  }

  /** `deallocate(ptr)`: for the address of a storage slot, destroys the
      object there, puts a default object (`dflt`) in its place and releases
      the slot; reports ExceptionCaughtInDctor, with nothing changed, when the
      destructor throws. An address outside the storage is accepted and
      ignored. */
  function Deallocate<T>(a: Allocator<T>, p: Pointer, dflt: T, dtorThrows: bool): (s: Step<T, bool>)
    requires Shaped(a)
    ensures !a.initialized ==> s == Step(a, Err(NotInitialized))
    ensures s.result.Ok? ==> s.result.value
    ensures s.alloc.initialized == a.initialized && |s.alloc.storage| == |a.storage|
    ensures Shaped(s.alloc)
    ensures Inv(a) ==> Inv(s.alloc)
  {
    if !a.initialized then Step(a, Err(NotInitialized))
    else match p
      case Into(i) =>
        if i >= |a.storage| then Step(a, Ok(true))
        else if dtorThrows then Step(a, Err(ExceptionCaughtInDctor))
        else Step(a.(storage := a.storage[i := Holds(dflt)], registry := SlotRegistry.Release(a.registry, i)), Ok(true))
      case Elsewhere => Step(a, Ok(true))
  }

  /** `deallocate(bucket)`: deallocates the bucket's entries in order from
      the k-th on and stops at the first error, which it returns; the
      destructor of entry `throwsAt` throws. */
  function DeallocateBucket<T>(a: Allocator<T>, b: Bucket<Pointer>, k: nat, dflt: T, throwsAt: Option<nat>): (s: Step<T, bool>)
    requires Shaped(a)
    ensures s.result.Ok? ==> s.result.value
    ensures s.alloc.initialized == a.initialized && |s.alloc.storage| == |a.storage|
    ensures Shaped(s.alloc)
    ensures Inv(a) ==> Inv(s.alloc)
    decreases |b.entries| - k
  {
    if k >= |b.entries| then Step(a, Ok(true))
    else
      var s := Deallocate(a, b.entries[k], dflt, throwsAt == Some(k));
      if s.result.Err? then s else DeallocateBucket(s.alloc, b, k + 1, dflt, throwsAt)
  }

  /** `status()`: the registry's report. */
  function Status<T>(a: Allocator<T>): (r: SlotRegistry.Report)
    ensures r.used + r.free == |a.registry.bits|
    ensures SlotRegistry.Valid(a.registry) ==> r.used == SlotRegistry.Popcount(a.registry.bits)
  {
    SlotRegistry.Status(a.registry)
  }
}
