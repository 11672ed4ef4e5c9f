# mp: a fixed-capacity typed memory pool, modelled in Dafny

The `mp` library reserves storage for N objects of one type at once, then
hands out single slots (`allocate`) or several at once (`allocate_bucket`,
or `allocate<SIZE>` in the older draft). It takes them back by pointer
(`deallocate`). Which slots are in use is kept by a *slot status registry*.
The registry is a bitmap of N flags packed into 32-bit words, plus an atomic
counter of slots in use. The repository holds two drafts of each component.
The newer ones are `slot_status_registry.hpp` and `allocator.hpp`. The older
ones are `SlotStatusRegistry.hpp` and `Allocator.hpp`.

The model has four layers:

- `Words`, `Packing`, `MaskBranch` (packing.dfy): the packed bitmap.
  - A flag is addressed by word `idx / 32` and position `idx % 32`.
  - Raising, testing and clearing a flag work on exactly that flag.
  - The power-of-two branch of the bit arithmetic selects the same bit as
    the modulo branch.
  - `Unpack` views the words as a sequence of flags, and raising or
    clearing a bit becomes a sequence update. This is what lets the rest of
    the model work on `seq<bool>`.
- `SlotRegistry` (registry.dfy) and `RegistryProperties`
  (registry_properties.dfy): the registry as flags plus counter.
  - The operations are `fetch`, `release`, `reset` and `status`.
  - The scan of `fetch` is a recursive function with an independent
    reference: "the first `qty` entries of the ascending list of free
    slots".
  - The as-written scan bound and the as-written reset are modelled
    alongside the documented behaviour (see Findings).
  - The registry's unit tests are stated as lemmas.
- `Buckets` (bucket.dfy): the fixed-capacity bucket of handles, with
  `push_back` and `operator[]`.
- `Pool` (allocator.dfy) and `PoolProperties` (allocator_properties.dfy):
  the allocator as a state machine over
  `(initialized, registry, storage)`.
  - Every operation returns the allocator afterwards together with its
    `std::expected`-style result (`Result` in errors.dfy).
  - What the model cannot see becomes a parameter: whether the system
    allocation succeeds (`reserved`), and whether a constructor or
    destructor throws (`ctorThrows`, `dtorThrows`, `throwsAt`).
  - The older draft differs from the newer one in these places. Its
    registry is sized by kMaxIndex (`LegacyNew`), and so is its `reset()`,
    which clears kMaxIndex words where the newer one writes N words. Its bucket allocation
    fetches SIZE slots, not N (`AllocateBucket`, not
    `AllocateBucketAsWritten`). Its error names differ (mapped in
    errors.dfy).

Each member named `...AsWritten` (and `Pool.LegacyNew`) reproduces one
defect of the code as written and keeps the documented behaviour
everywhere else. In particular `Pool.AllocateAsWritten` and
`Pool.AllocateBucketAsWritten` run over the full-range fetch, not over
`SlotRegistry.FetchAsWritten`. Each input under Findings is therefore
chosen where the other defects do not interfere, which for the newer draft
means N = 1.

Error codes follow the newer draft's `code_e`. The older draft's names map
one to one: NoFreeSpace → NotEnoughSpaceInAllocator, InternalLogicError →
BadLogic, CannotInitializeAgain → AlreadyInitialized, UnableToAllocateMemory
→ CannotReserveSystemMemory, ConstructorHasThrownException →
ExceptionCaughtInCtor, DestructorHasThrownException →
ExceptionCaughtInDctor, BucketIndexOutOfBounds → OutOfBounds.

## Model

| member | source | states |
|---|---|---|
| Words.RaiseWord | src/include/memory_pool/slot_status_registry.hpp:102-109 | OR-ing the one-bit mask of position a into a word raises bit a and keeps every other bit |
| Words.FlipWord | src/include/memory_pool/slot_status_registry.hpp:111-118 | xor with the mask of position a inverts bit a and keeps every other bit |
| Words.AndNotWhenSet | src/include/memory_pool/slot_status_registry.hpp:111-118 | when the masked bit is raised, `w & ~m` (the source's clear) equals `w ^ m` |
| Words.AndNotWhenUnset | src/include/memory_pool/slot_status_registry.hpp:111-118 | when the masked bit is clear, `w & ~m` leaves the word unchanged |
| Words.SingleBit | src/include/memory_pool/slot_status_registry.hpp:120-126 | masking a word with a one-bit mask gives 0 or the mask itself, so `is_in_use` tests exactly one flag |
| Words.ClearWord | src/include/memory_pool/slot_status_registry.hpp:111-118 | for a one-bit mask m, lowering the bit by xor when it is raised and keeping the word otherwise equals the source's `w & ~m` |
| Packing.DataSizeCovers | src/include/memory_pool/slot_status_registry.hpp:128-132 | data_size_ = ceil(N/32) words hold all N flags (every index's word is in range) and waste less than one word |
| Packing.DataSize | src/include/memory_pool/slot_status_registry.hpp:130-132 | data_size_ for N slots is the least word count that holds N bits: N ≤ 32·words < N + 32 |
| Packing.MaxIndex | src/include/memory_pool/slot_status_registry.hpp:137 | max_index_ is at most N and at most data_size_, and equals one of them (it is their minimum) |
| Packing.MaxIndexIsWordCount | src/include/memory_pool/slot_status_registry.hpp:137 | max_index_ = min(data_size_, N) is the word count for N ≥ 1, smaller than N from N = 2 on, and N for N ≤ 1 |
| Packing.AddressInjective | src/include/memory_pool/slot_status_registry.hpp:102-126 | two slots share a (word, position) address exactly when they are the same slot |
| Packing.TestBit | src/include/memory_pool/slot_status_registry.hpp:120-126 | `is_in_use(idx)` holds iff masking word idx/32 with `1 << (idx % 32)` gives the mask, and fails iff it gives 0 |
| Packing.SetBit | src/include/memory_pool/slot_status_registry.hpp:102-107 | after `set(idx)`, idx tests in use and every other word is unchanged |
| Packing.ClearBit | src/include/memory_pool/slot_status_registry.hpp:111-116 | after `unset(idx)`, idx tests free and every other word is unchanged |
| Packing.TestSetBit | src/include/memory_pool/slot_status_registry.hpp:102-109 | after `set(i)`, slot j tests in use iff j = i or it was in use before |
| Packing.TestClearBit | src/include/memory_pool/slot_status_registry.hpp:111-118 | after `unset(i)`, slot j tests in use iff j ≠ i and it was in use before |
| Packing.UnpackSetBit | src/include/memory_pool/slot_status_registry.hpp:102-109 | viewed as a flag sequence, `set(i)` is the update `[i := true]` |
| Packing.UnpackClearBit | src/include/memory_pool/slot_status_registry.hpp:111-118 | viewed as a flag sequence, `unset(i)` is the update `[i := false]` |
| Packing.UnpackZeros | src/include/memory_pool/slot_status_registry.hpp:139 | the zero-initialised words hold N clear flags |
| MaskBranch.MaskBranchAgrees | src/include/memory_pool/slot_status_registry.hpp:103-106 | the power-of-two branch `idx & 31` and the modulo branch `idx % 32` build the same mask for every 64-bit index |
| MaskBranch.MaskModulo | src/include/memory_pool/slot_status_registry.hpp:106 | the general branch's mask `1u << (idx % 32)` has exactly one bit raised |
| MaskBranch.MaskPow2 | src/include/memory_pool/slot_status_registry.hpp:104 | the power-of-two branch's mask `1u << (idx & 31)` equals the general branch's mask |
| SlotRegistry.Fresh | src/include/memory_pool/slot_status_registry.hpp:139-141 | a new registry has N clear flags, a zero counter, and the counter agrees with the flags |
| SlotRegistry.FreeFromSpec | src/include/memory_pool/slot_status_registry.hpp:44-55 | the reference list of free slots holds every free slot of the range, only those, strictly ascending, and its length is the range size minus the used count |
| SlotRegistry.HasFreeSpace | src/include/memory_pool/slot_status_registry.hpp:98-100 | on a consistent registry, `has_free_space(qty)` holds iff at least qty slots are free |
| SlotRegistry.Scan | src/include/memory_pool/slot_status_registry.hpp:44-55 | the scan loop keeps the number of flags; what it records is stated by SlotRegistry.ScanSpec |
| SlotRegistry.ScanSpec | src/include/memory_pool/slot_status_registry.hpp:44-55 | the scan loop records exactly the first `qty` free slots (all of them if fewer, or if qty is 0), raises exactly their flags, and its count grows by their number |
| SlotRegistry.FetchWithin | src/include/memory_pool/slot_status_registry.hpp:35-60 | without room under the counter: nothing changes, NotEnoughSpaceInAllocator. Otherwise the first `qty` free slots met are raised and counted, and they are returned if there were `qty` of them, else BadLogic with the marks kept |
| SlotRegistry.Fetch | src/include/memory_pool/slot_status_registry.hpp:35-60 | a fetch over all N slots keeps the counter equal to (or covering) the popcount and keeps N |
| SlotRegistry.FetchAsWritten | src/include/memory_pool/slot_status_registry.hpp:39-40 | with the as-written loop bound, every index handed out is below max_index_, and the counter stays consistent |
| SlotRegistry.Release | src/include/memory_pool/slot_status_registry.hpp:65-69 | only slot idx can change; an in-range slot in use becomes free and the counter drops by one; anything else changes nothing; consistency is kept |
| SlotRegistry.Reset | src/include/memory_pool/slot_status_registry.hpp:71-81 | after the documented reset every flag is clear and status reports 0 used, N free |
| SlotRegistry.ResetAsWritten | src/include/memory_pool/slot_status_registry.hpp:74-81 | the as-written reset clears every flag and leaves the counter as it was |
| SlotRegistry.Status | src/include/memory_pool/slot_status_registry.hpp:91-95 | used + free = N; on a consistent registry used is the popcount and free the number of free slots |
| SlotRegistry.FetchCounts | src/include/memory_pool/slot_status_registry.hpp:102-109 | every `set` in a fetch adds one to the counter, so the gap between counter and popcount never changes |
| SlotRegistry.PopcountFlip | src/include/memory_pool/slot_status_registry.hpp:111-118 | clearing one raised flag lowers the popcount by one, matching `unset`'s decrement |
| RegistryProperties.FetchFirstFit | src/include/memory_pool/slot_status_registry.hpp:44-59 | a successful fetch returns `qty` ascending slots that were free. It skips no lower free slot, marks them, counts them and touches nothing else |
| RegistryProperties.FetchSucceedsIff | src/include/memory_pool/slot_status_registry.hpp:35-60 | on a consistent registry, fetch(qty ≥ 1) succeeds iff used + qty ≤ N; otherwise it changes nothing and reports NotEnoughSpaceInAllocator (BadLogic is unreachable) |
| RegistryProperties.FetchOnPrefix | src/include/memory_pool/slot_status_registry.hpp:35-60 | with the first k slots in use, fetch(qty) hands out slots k..k+qty-1 when they exist, and fails with no change when they do not |
| RegistryProperties.FetchOnesOnPrefix | src/include/memory_pool/slot_status_registry.hpp:35-60 | with the first k slots in use, m successive fetch() calls put exactly the first k + m slots in use |
| RegistryProperties.FetchOnesFill | src/include/memory_pool/slot_status_registry.hpp:35-60 | N successive fetch() calls on a new registry of N slots put every slot in use, counter N |
| RegistryProperties.ReleaseIdempotent | src/include/memory_pool/slot_status_registry.hpp:62-69 | releasing the same index twice equals releasing it once |
| RegistryProperties.ReleaseAllSpec | src/include/memory_pool/slot_status_registry.hpp:65-69 | releasing distinct in-use slots clears exactly their flags and subtracts their number from the counter |
| RegistryProperties.FetchReleaseRoundTrip | src/include/memory_pool/slot_status_registry.hpp:35-69 | releasing everything a fetch returned restores the registry exactly |
| RegistryProperties.ReleaseFetchRoundTrip | src/include/memory_pool/slot_status_registry.hpp:35-69 | releasing an in-use slot below which every slot is in use (it becomes the lowest free slot) and fetching one slot returns that slot and restores the registry |
| RegistryProperties.ResetThenFetch | src/include/memory_pool/slot_status_registry.hpp:71-81 | after a reset, fetch() returns slot 0 and status is (1, N-1) |
| RegistryProperties.CreationStatus | src/test/slot_status_registry_test.cpp:9-25 | new registries of 1 and 10 slots report (0, 1) and (0, 10) |
| RegistryProperties.FetchOneConsecutively | src/test/slot_status_registry_test.cpp:27-67 | three single fetches on 10 slots return 0, 1 and 2, and status is (3, 7) |
| RegistryProperties.FetchBucketFail | src/test/slot_status_registry_test.cpp:69-82 | on 10 slots fetch(11) fails with NotEnoughSpaceInAllocator, fetch(6) succeeds, then fetch(5) fails |
| RegistryProperties.TenFetchesFill | src/test/slot_status_registry_test.cpp:84-100 | ten fetch() calls on 10 slots leave all ten in use with status (10, 0), the registry the rest of the test starts from |
| RegistryProperties.FetchBucketNotContiguous | src/test/slot_status_registry_test.cpp:102-124 | from the full registry of TenFetchesFill, after releasing 2, 3, 5, 7, 9, status is (5, 5), fetch(4) returns [2, 3, 5, 7], and status is (9, 1) |
| RegistryProperties.FetchBucketContiguous | src/test/slot_status_registry_test.cpp:126-145 | two single fetches, then fetch(5) returns [2..6], and status is (7, 3) |
| RegistryProperties.ResetScenario | src/test/slot_status_registry_test.cpp:147-172 | fetch(10) fills the registry and a further fetch fails; after a reset status is (0, 10) and fetch returns slot 0 with status (1, 9) |
| RegistryProperties.ScanBoundMissesSlots | src/include/memory_pool/slot_status_registry.hpp:39-58 | from N = 2 on, the as-written fetch(N) on a new registry reports BadLogic, while the documented fetch returns 0..N-1 |
| RegistryProperties.SecondFetchFailsAsWritten | src/include/memory_pool/slot_status_registry.hpp:39-58 | for 2 ≤ N ≤ 32 the as-written registry hands out slot 0, then reports BadLogic for the next single slot although status shows N-1 free |
| RegistryProperties.ResetKeepsCounter | src/include/memory_pool/slot_status_registry.hpp:74-81 | the as-written reset of a full registry still reports (N, 0) and refuses fetch; the documented reset reports (0, N) and serves slot 0 |
| RegistryProperties.ResetKeepsCounterOneSlot | src/include/memory_pool/slot_status_registry.hpp:74-81 | on 1 slot, with the as-written fetch and reset: fetch() gives slot 0; after reset() the flag is clear, status stays (1, 0) and fetch() is refused with NotEnoughSpaceInAllocator |
| Buckets.PushBack | src/include/memory_pool/allocator.hpp:85-91 | push succeeds iff size < capacity; the new entry reads back at the old size, earlier entries are kept, and a full bucket is unchanged |
| Buckets.At | src/include/memory_pool/allocator.hpp:75-80 | `operator[]` fails exactly from size() on, with OutOfBounds |
| Buckets.Size | src/include/memory_pool/allocator.hpp:71 | `size()` is the entry count, so on a bucket within its capacity it is at most the capacity; that every bucket stays within it is Buckets.PushAllKeepsBound |
| Buckets.PushAllKeepsBound | src/include/memory_pool/allocator.hpp:85-91 | pushing any handles into a bucket within its capacity keeps it within; `size()` ends at the smaller of the old size plus the pushes and the capacity, the excess pushes being refused |
| Buckets.PushAllThenAt | src/include/memory_pool/Allocator.hpp:63-81 | pushing handles into a bucket with room and reading by index returns them in order, keeps earlier entries, and is out of bounds after the last |
| Pool.New | src/include/memory_pool/allocator.hpp:32-34 | a new allocator (N > 0) is not initialized, has N slots and an N-slot registry, and satisfies the invariant |
| Pool.LegacyNew | src/include/memory_pool/SlotStatusRegistry.hpp:29-31 | the older draft's allocator of N slots has a registry of only kMaxIndex = min(ceil(N/32), N) slots |
| Pool.Initialize | src/include/memory_pool/allocator.hpp:104-113 | a second initialize gives AlreadyInitialized and a failed system allocation gives CannotReserveSystemMemory, both with no change; otherwise Ok(true) and initialized; registry and storage are untouched |
| Pool.Deinitialize | src/include/memory_pool/allocator.hpp:115-121 | the allocator ends not initialized with an all-free registry reporting (0, N), and the invariant is kept |
| Pool.Allocate | src/include/memory_pool/allocator.hpp:124-147 | NotInitialized with no change when uninitialized; otherwise the registry is the one fetch(1) leaves; a success points into the registry's slots; the invariant is kept |
| Pool.AllocateAsWritten | src/include/memory_pool/allocator.hpp:128-146 | the as-written allocate leaves the same state as Allocate but never reports NotEnoughSpaceInAllocator |
| Pool.BucketFrom | src/include/memory_pool/Allocator.hpp:166-187 | NotInitialized with no change when uninitialized; the registry afterwards is the fetch's; a failed fetch is reported as NotEnoughSpaceInAllocator with only the registry changed; the invariant is kept |
| Pool.Fill | src/include/memory_pool/allocator.hpp:162-171 | the construct-and-push loop changes neither the initialized flag nor the registry, and keeps N; its results are stated by PoolProperties.FillSucceeds, FillConstructs and FillThrows |
| Pool.AllocateBucket | src/include/memory_pool/Allocator.hpp:164-188 | allocate<SIZE>: a successful bucket has capacity SIZE, and the invariant is kept |
| Pool.AllocateBucketAsWritten | src/include/memory_pool/allocator.hpp:153-176 | allocate_bucket<SIZE> as written: a successful bucket has capacity N, and the invariant is kept |
| Pool.Deallocate | src/include/memory_pool/allocator.hpp:178-194 | NotInitialized with no change when uninitialized; success always carries `true`; N is kept, and the invariant is kept |
| Pool.DeallocateBucket | src/include/memory_pool/allocator.hpp:196-205 | bucket deallocation keeps N and the invariant, and success always carries `true` |
| Pool.Status | src/include/memory_pool/allocator.hpp:207 | used + free is the registry's slot count (N, or kMaxIndex for `LegacyNew`); on a consistent registry used is the number of flags raised |
| PoolProperties.Lifecycle | src/include/memory_pool/allocator.hpp:104-121 | a new allocator reports (0, N); a failed reservation changes nothing; initialize succeeds once and is then refused; deinitialize returns the allocator to New(N) |
| PoolProperties.DeinitializeIdempotent | src/include/memory_pool/allocator.hpp:115-121 | deinitializing twice equals deinitializing once |
| PoolProperties.ReinitializeStartsOver | src/include/memory_pool/allocator.hpp:104-147 | whatever was allocated, deinitialize then initialize gives an allocator whose first allocation is slot 0 |
| PoolProperties.AllocateSucceedsIff | src/include/memory_pool/allocator.hpp:124-147 | an initialized allocator allocates iff used < N; otherwise nothing changes and the error is NotEnoughSpaceInAllocator |
| PoolProperties.AllocateFirstFit | src/include/memory_pool/allocator.hpp:128-138 | a successful allocation returns the lowest free slot, constructs the value there, marks it in use, and changes no other slot or flag |
| PoolProperties.CtorFailureKeepsSlot | src/include/memory_pool/allocator.hpp:137-144 | when the constructor throws the error is ExceptionCaughtInCtor, and the fetched slot stays counted in use |
| PoolProperties.AllocateDeallocateRoundTrip | src/include/memory_pool/allocator.hpp:124-194 | deallocating what allocate returned succeeds, restores the registry, and leaves a default object in the slot |
| PoolProperties.DeallocateAllocateRoundTrip | src/include/memory_pool/allocator.hpp:124-194 | deallocating an in-use slot below which every slot is in use (it becomes the lowest free slot), then allocating, returns that slot and restores the registry |
| PoolProperties.DeallocateNoEffect | src/include/memory_pool/allocator.hpp:178-194 | an address outside the storage changes nothing and succeeds, and NotInitialized when uninitialized; a throwing destructor gives ExceptionCaughtInDctor with nothing changed |
| PoolProperties.DeallocateFrame | src/include/memory_pool/allocator.hpp:182-193 | a successful deallocate of slot i returns true, puts a default object in slot i, releases i in the registry, and leaves every other slot as it was |
| PoolProperties.DeallocateTwice | src/include/memory_pool/allocator.hpp:178-194 | deallocating the same pointer a second time changes nothing and reports the same result |
| PoolProperties.AllocateAsWrittenFull | src/include/memory_pool/allocator.hpp:146 | on a full allocator the documented allocate reports NotEnoughSpaceInAllocator, the as-written one BadLogic, neither changing anything |
| PoolProperties.FillSucceeds | src/include/memory_pool/allocator.hpp:161-171 | with room in the bucket and no throwing constructor, the fill pushes the handles of the fetched slots in order |
| PoolProperties.FillConstructs | src/include/memory_pool/allocator.hpp:162-164 | the fill constructs a default object in exactly the fetched slots and leaves every other slot as it was |
| PoolProperties.FillThrows | src/include/memory_pool/allocator.hpp:163-170 | a constructor throwing at the j-th fetched slot ends the fill with ExceptionCaughtInCtor |
| PoolProperties.AllocateBucketSpec | src/include/memory_pool/Allocator.hpp:164-188 | an initialized allocator gives a bucket of SIZE iff used + SIZE ≤ N. The bucket holds the lowest SIZE free slots ascending, each constructed and marked in use. Otherwise nothing changes and the error is NotEnoughSpaceInAllocator |
| PoolProperties.BucketFromFills | src/include/memory_pool/Allocator.hpp:170-187 | a successful fetch and no throwing constructor give a bucket of exactly the fetched handles, the fetch's registry, and default objects in those slots only |
| PoolProperties.AllocateBucketCtorFailure | src/include/memory_pool/Allocator.hpp:173-182 | a constructor that throws during the fill gives ExceptionCaughtInCtor, and all SIZE fetched slots stay counted in use |
| PoolProperties.DeallocateAll | src/include/memory_pool/allocator.hpp:196-205 | deallocating a bucket of slot handles, with no destructor throwing, releases those slots in order and succeeds |
| PoolProperties.DeallocateBucketStops | src/include/memory_pool/allocator.hpp:196-205 | when entry j's destructor throws, bucket deallocation equals deallocating entries 0..j-1 and then reporting ExceptionCaughtInDctor; later entries are not visited |
| PoolProperties.BucketRoundTrip | src/include/memory_pool/allocator.hpp:153-205 | deallocating a bucket just handed out succeeds and restores the registry |
| PoolProperties.AllocateOnPrefix | src/include/memory_pool/allocator.hpp:124-147 | with the first k slots in use, allocate returns slot k, or fails with no change when k = N |
| PoolProperties.BucketOnPrefix | src/include/memory_pool/Allocator.hpp:164-188 | with the first k slots in use, a bucket of SIZE holds slots k..k+SIZE-1, or fails with no change when they do not fit |
| PoolProperties.AsWrittenFetchesAll | src/include/memory_pool/allocator.hpp:159-161 | the as-written allocate_bucket<SIZE> is a bucket allocation of all N slots, whatever SIZE is |
| PoolProperties.BasicCreation | src/test/allocator_test.cpp:20-30 | a new allocator of 7 slots reports none used |
| PoolProperties.AllocateOneThenNoSpace | src/test/allocator_test.cpp:32-58 | on 1 slot the first allocate returns slot 0 holding the value; the second fails with NotEnoughSpaceInAllocator (BadLogic as written) |
| PoolProperties.BucketOfThree | src/test/allocator_test.cpp:60-85 | on 5 initialized slots a bucket of 3 holds slots 0, 1, 2 in order, has size 3, is out of bounds at 3, and deallocating it frees every slot |
| PoolProperties.BucketWithoutInitialize | src/test/allocator_test.cpp:60-63 | the test's allocator is never initialized, so its bucket allocation is refused with NotInitialized in both drafts |
| PoolProperties.BucketAsWrittenTakesAll | src/include/memory_pool/allocator.hpp:153-176 | with the ignored SIZE and a full-range scan (the as-written scan bound would refuse fetch(5) first), allocate_bucket<3> on 5 fresh slots returns a bucket of all five slots, size 5 |
| PoolProperties.BucketAsWrittenOneSlot | src/include/memory_pool/allocator.hpp:153-176 | on 1 slot, where no other defect interferes, allocate_bucket<3> returns a bucket holding slot 0 only, where a bucket of 3 does not fit (NotEnoughSpaceInAllocator) |
| PoolProperties.BucketAsWrittenAfterOne | src/include/memory_pool/allocator.hpp:153-176 | with the ignored SIZE, with one slot of five in use, allocate_bucket<3> fails with NotEnoughSpaceInAllocator although four slots are free, enough for a bucket of three |
| PoolProperties.LegacySevenSlots | src/test/Allocator_test.cpp:17-87 | the older draft with 7 slots: the first allocate gives slot 0; the second gives InternalLogicError (BadLogic); allocate<3> gives NoFreeSpace (NotEnoughSpaceInAllocator) |
| PoolProperties.SevenSlots | src/test/Allocator_test.cpp:17-87 | the same test with a registry of all 7 slots: slots 0 and 1, then a bucket holding slots 2, 3 and 4 |

## Left out

- Atomics and memory ordering: `initialized_` and the registry counter are
  plain fields. Every operation is one atomic step, and no interleaving is
  modelled.
- The `static` end pointers in `fetch` and `reset` are modelled as
  ordinary bounds. They are computed once per template instance and are
  only wrong across objects of the same instance.
- The newer `reset()` writes N words into a bitmap of ceil(N/32) words.
  This is out of bounds from N = 2 on, and the model clears exactly the N
  flags.
- `std::aligned_alloc` and `std::free` are the `reserved` parameter of
  `Initialize`. The storage leaked by an initialize after a deinitialize is
  not modelled.
- Constructors and destructors are opaque user code. Whether they throw is
  a boolean or `Option<nat>` parameter. The stored value is the
  constructor's argument (`Allocate`) or a caller-given default object
  `dflt` (buckets, and the `TAlloc{}` assignment in `deallocate`).
- Pool.Deallocate: assumes that re-creating the object (`storage_[i] =
  TAlloc{}`) never throws. That assignment is outside the try block of a
  `noexcept` function, so a throw there ends the program through
  `std::terminate` instead of returning an error. Only the destructor's
  throw is the `dtorThrows` parameter.
- Pool.Allocate: the `out_of_range` handler of `allocate` is not
  modelled. A successful `fetch(1)` always returns one index, so that
  handler cannot run.
- Diagnostic strings, `std::format` and source locations in errors are
  dropped. Errors are their codes only.
- Bucket iterators (`begin`, `end`) are modelled as the entry sequence,
  which is what the range-for in `deallocate(bucket)` walks.
- Deleted copy and move operations, and the destructor `~allocator`
  (deinitialize, then free), have no counterpart in a value model.
- Integer widths: the counter (`unsigned int`) and `size_t` are unbounded.
  `N - used` is never negative for a consistent registry.
- Pool.DeallocateBucket: the source's overload carries
  `requires same_as<TAlloc, TBucket>`. That constraint never holds for a
  bucket of pointers, so `deallocate(bucket)` would not compile as written.
  It is modelled as evidently intended: every entry is handed to
  `deallocate(ptr)` in turn.
- Pool.Deinitialize: models the reset as the documented one (flags and
  counter cleared), which both drafts' callers rely on. The as-written
  reset is `SlotRegistry.ResetAsWritten` (see Findings). All N slots
  become raw memory, as `std::destroy` runs over all of them, whether or
  not they hold an object. A destructor that throws inside `deinitialize`
  is not modelled. There is no try/catch there, so the exception would
  escape with `initialized_` still true and the registry not reset. The
  model's deinitialize always completes.
- SlotRegistry.Scan: its own contract states only that the number of flags
  is kept. What it records and marks is stated by `SlotRegistry.ScanSpec`.
- Pool.Fill: its own contract states only what it leaves alone. What it
  pushes and constructs is stated by `PoolProperties.FillSucceeds`,
  `PoolProperties.FillConstructs` and `PoolProperties.FillThrows`.
- SlotRegistry.Release: requires a counter that covers the raised flags
  (`WellFormed`). Every reachable registry satisfies this. Without it the
  source's unsigned decrement could wrap, which is not modelled.
- SlotRegistry.Fetch: its own contract states only that consistency is
  preserved. What it returns is stated by `SlotRegistry.FetchWithin` and
  `RegistryProperties.FetchFirstFit`.
- RegistryProperties.FetchSucceedsIff: stated for qty ≥ 1. For `fetch(0)`
  the model keeps the code's behaviour: it marks every free slot in the
  scan range and reports BadLogic unless none was free. No caller in the
  repository fetches 0 slots.
- The storage of the allocator holds slots by index, and pointers are
  `Into(index)` or `Elsewhere`. Pointer arithmetic and aliasing are not
  modelled.
- The registry in `SlotRegistry` works on the flag sequence. The link to
  the packed 32-bit words is `Packing.UnpackSetBit`,
  `Packing.UnpackClearBit` and `Packing.UnpackZeros`. The registry does
  not carry the words themselves.
- types.hpp (error structures and `unexp` helpers) is represented only by
  the `Errors` module's codes and `Result` type.

## Findings

| source | as written | input that shows it | evidently intended | confidence | as-written member | corrected member |
|---|---|---|---|---|---|---|
| src/include/memory_pool/slot_status_registry.hpp:39-58 | the scan advances a word pointer once per slot and stops after max_index_ = min(ceil(N/32), N) steps, so only the first max_index_ slots are ever considered (same in SlotStatusRegistry.hpp:44-60) | N = 10: `fetch(10)` on a new registry reports bad_logic; `fetch()` twice gives 0, then bad_logic | the scan covers all N slots, as the registry tests at slot_status_registry_test.cpp:42-172 expect | not executed | SlotRegistry.FetchAsWritten (shown by RegistryProperties.ScanBoundMissesSlots, RegistryProperties.SecondFetchFailsAsWritten) | SlotRegistry.Fetch (RegistryProperties.FetchSucceedsIff, RegistryProperties.FetchFirstFit) |
| src/include/memory_pool/slot_status_registry.hpp:74-81 | `reset()` zeroes the bitmap but never the in-use counter (same in SlotStatusRegistry.hpp:73-80) | N = 1, `fetch()` then `reset()`: the flag is clear, but status stays (1, 0) and `fetch()` reports not_enough_space_in_allocator. For larger N the scan bound of the previous row interferes first, and the newer reset also overruns its bitmap | reset frees every slot: status (0, N) and `fetch()` returns 0, as slot_status_registry_test.cpp:158-171 expects | not executed | SlotRegistry.ResetAsWritten (RegistryProperties.ResetKeepsCounterOneSlot, RegistryProperties.ResetKeepsCounter) | SlotRegistry.Reset (RegistryProperties.ResetThenFetch) |
| src/include/memory_pool/allocator.hpp:146 | every failed fetch in `allocate` is reported as bad_logic, also a full allocator (Allocator.hpp:158: InternalLogicError) | allocator of 1 slot, two `allocate()` calls: the second reports bad_logic | not_enough_space_in_allocator, as allocator_test.cpp:55-57 expects | not executed | Pool.AllocateAsWritten (PoolProperties.AllocateAsWrittenFull) | Pool.Allocate (PoolProperties.AllocateSucceedsIff) |
| src/include/memory_pool/allocator.hpp:159-161 | `allocate_bucket<SIZE>` fetches NAlloc slots into a bucket of capacity NAlloc, ignoring SIZE | allocator of 1 slot, `allocate_bucket<3>()` returns a bucket of size 1 holding slot 0, where not_enough_space_in_allocator is due. For N ≥ 2 the scan bound refuses fetch(N) first | fetch SIZE slots into a bucket of SIZE, as the older Allocator.hpp:170-172 does and allocator_test.cpp:78 expects | not executed | Pool.AllocateBucketAsWritten (PoolProperties.BucketAsWrittenOneSlot, PoolProperties.BucketAsWrittenTakesAll) | Pool.AllocateBucket (PoolProperties.AllocateBucketSpec) |
| src/include/memory_pool/SlotStatusRegistry.hpp:29-31 | the older registry sizes its scan, space check, release and status by kMaxIndex = min(ceil(N/32), N), so an `Allocator<T, 7>` has one usable slot | `Allocator<Person, 7>`: the second `allocate()` fails and `allocate<3>()` fails, where Allocator_test.cpp:63-64 expects a bucket | every one of the N slots is usable | not executed | Pool.LegacyNew (PoolProperties.LegacySevenSlots) | Pool.New (PoolProperties.SevenSlots) |
