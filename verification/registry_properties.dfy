/** What the slot status registry promises its callers: first-fit fetching,
    success exactly when the counter leaves room, fetch and release undoing
    each other, and the behaviour its unit tests check. The last part states
    what the as-written scan bound and reset do instead. */
module RegistryProperties {

  import opened Errors
  import opened SlotRegistry
  import Packing

  /** The indices lo, lo + 1, ..., hi - 1. */
  function Range(lo: nat, hi: nat): (s: seq<nat>)
    requires lo <= hi
    ensures |s| == hi - lo
    ensures forall k :: 0 <= k < |s| ==> s[k] == lo + k
    ensures forall x :: x in s <==> lo <= x < hi
    decreases hi - lo
  {
    if lo == hi then [] else [lo] + Range(lo + 1, hi)
  }

  /** A registry of `n` slots whose first `k` are in use. */
  function Prefix(n: nat, k: nat): (r: Registry)
    requires k <= n
    ensures |r.bits| == n && r.used == k
    ensures forall i :: 0 <= i < n ==> r.bits[i] == (i < k)
  {
    Registry(seq(n, i => i < k), k)
  }

  // ---------------------------------------------------------------------
  // Fetch

  /** A successful fetch hands out exactly `qty` slots, in ascending order,
      each of them free before and in use after, skipping no free slot below
      the last one handed out, touching no other slot, and counting each. */
  lemma FetchFirstFit(r: Registry, qty: nat)
    requires Fetch(r, qty).indices.Ok?
    ensures var f := Fetch(r, qty); var ids := f.indices.value;
      && |ids| == qty
      && f.registry.used == r.used + qty
      && FirstFree(r.bits, ids)
      && (forall x :: x in ids ==> f.registry.bits[x])
      && (forall i :: 0 <= i < |r.bits| && i !in ids ==> f.registry.bits[i] == r.bits[i])
  {
    var f := Fetch(r, qty);
    var ids := f.indices.value;
    assert ids == Take(FreeFrom(r.bits, 0, |r.bits|), qty);
    TakeIsFirstFree(r.bits, qty);
  }

  /** `ids` lists, in ascending order, free slots of `bits` such that no free
      slot below the last of them is left out. */
  predicate FirstFree(bits: seq<bool>, ids: seq<nat>) {
    && (forall k, l :: 0 <= k < l < |ids| ==> ids[k] < ids[l])
    && (forall x :: x in ids ==> x < |bits| && !bits[x])
    && (forall i, k :: 0 <= k < |ids| && 0 <= i < ids[k] && i < |bits| && !bits[i] ==> i in ids)
  }

  lemma TakeIsFirstFree(bits: seq<bool>, qty: nat)
    ensures FirstFree(bits, Take(FreeFrom(bits, 0, |bits|), qty))
  {
    var free := FreeFrom(bits, 0, |bits|);
    var ids := Take(free, qty);
    FreeFromSpec(bits, 0, |bits|);
    forall k, l | 0 <= k < l < |ids|
      ensures ids[k] < ids[l]
    {
      assert ids[k] == free[k] && ids[l] == free[l];
    }
    forall i, k | 0 <= k < |ids| && 0 <= i < ids[k] && i < |bits| && !bits[i]
      ensures i in ids
    {
      SortedPrefixKeepsLower(free, ids, i, k);
    }
  }

  /** In an ascending sequence, a prefix holds every element smaller than
      one of its own. */
  lemma SortedPrefixKeepsLower(free: seq<nat>, ids: seq<nat>, i: nat, k: nat)
    requires ids <= free
    requires forall a, b :: 0 <= a < b < |free| ==> free[a] < free[b]
    requires k < |ids| && i in free && i < ids[k]
    ensures i in ids
  {
    var j :| 0 <= j < |free| && free[j] == i;
    assert j < k;
    assert ids[j] == i;
  }

  /** On a valid registry, fetching at least one slot succeeds exactly when
      the counter leaves room for it; otherwise nothing changes and the
      error is NotEnoughSpaceInAllocator. The BadLogic outcome never
      happens. */
  lemma FetchSucceedsIff(r: Registry, qty: nat)
    requires Valid(r) && qty >= 1
    ensures Fetch(r, qty).indices.Ok? <==> r.used + qty <= |r.bits|
    ensures !Fetch(r, qty).indices.Ok? ==> Fetch(r, qty) == Fetched(r, Err(NotEnoughSpaceInAllocator))
  {
    var n := |r.bits|;
    if HasFreeSpace(r, qty) {
      assert |FreeFrom(r.bits, 0, n)| == n - r.used;
    }
  }

  lemma {:induction false} FreeFromOfPrefix(n: nat, k: nat, lo: nat)
    requires k <= n && lo <= n
    ensures FreeFrom(Prefix(n, k).bits, lo, n) == Range(if lo < k then k else lo, n)
    decreases n - lo
  {
    var bits := Prefix(n, k).bits;
    if lo < n {
      FreeFromOfPrefix(n, k, lo + 1);
      if lo >= k {
        assert Range(lo, n) == [lo] + Range(lo + 1, n);
      }
    }
  }

  /** A registry whose first `k` slots are in use counts `k`. */
  lemma PrefixValid(n: nat, k: nat)
    requires k <= n
    ensures Valid(Prefix(n, k))
  {
    FreeFromOfPrefix(n, k, 0);
  }

  /** Fetching from a registry whose first `k` slots are in use hands out
      the next `qty` slots when they exist, and fails without a change when
      they do not. */
  lemma FetchOnPrefix(n: nat, k: nat, qty: nat)
    requires k <= n && qty >= 1
    ensures k + qty <= n ==> Fetch(Prefix(n, k), qty) == Fetched(Prefix(n, k + qty), Ok(Range(k, k + qty)))
    ensures k + qty > n ==> Fetch(Prefix(n, k), qty) == Fetched(Prefix(n, k), Err(NotEnoughSpaceInAllocator))
  {
    if k + qty <= n {
      FreeFromOfPrefix(n, k, 0);
      assert Range(k, n)[..qty] == Range(k, k + qty);
      var f := Fetch(Prefix(n, k), qty);
      assert f.registry.bits == Prefix(n, k + qty).bits;
    }
  }

  lemma FreshIsEmptyPrefix(n: nat)
    ensures Fresh(n) == Prefix(n, 0)
  {
    assert Fresh(n).bits == Prefix(n, 0).bits;
  }

  // ---------------------------------------------------------------------
  // Release

  /** Releasing the same index twice is the same as releasing it once. */
  lemma ReleaseIdempotent(r: Registry, idx: nat)
    requires WellFormed(r)
    ensures Release(Release(r, idx), idx) == Release(r, idx)
  {
  }

  /** Releases of several indices, one after the other. */
  function ReleaseAll(r: Registry, ids: seq<nat>): (r': Registry)
    requires WellFormed(r)
    ensures WellFormed(r') && |r'.bits| == |r.bits|
    decreases |ids|
  {
    if ids == [] then r else ReleaseAll(Release(r, ids[0]), ids[1..])
  }

  /** Releasing distinct slots that are all in use lowers exactly their
      flags and takes their number off the counter. */
  lemma {:induction false} ReleaseAllSpec(r: Registry, ids: seq<nat>)
    requires WellFormed(r)
    requires forall k, l :: 0 <= k < l < |ids| ==> ids[k] != ids[l]
    requires forall x :: x in ids ==> x < |r.bits| && r.bits[x]
    ensures var r' := ReleaseAll(r, ids);
      && r'.used + |ids| == r.used
      && forall i :: 0 <= i < |r.bits| ==> r'.bits[i] == (r.bits[i] && i !in ids)
    decreases |ids|
  {
    if ids != [] {
      var r1 := Release(r, ids[0]);
      assert ids[0] in ids;
      forall x | x in ids[1..]
        ensures x < |r1.bits| && r1.bits[x]
      {
        var j :| 0 <= j < |ids| - 1 && ids[1..][j] == x;
        assert ids[j + 1] == x;
        assert x in ids && x != ids[0];
      }
      ReleaseAllSpec(r1, ids[1..]);
      forall i | 0 <= i < |r.bits|
        ensures ReleaseAll(r, ids).bits[i] == (r.bits[i] && i !in ids)
      {
        assert i in ids <==> i == ids[0] || i in ids[1..];
      }
    }
  }

  /** Releasing what a fetch handed out gives back the registry as it was
      before the fetch. */
  lemma FetchReleaseRoundTrip(r: Registry, qty: nat)
    requires WellFormed(r) && Fetch(r, qty).indices.Ok?
    ensures ReleaseAll(Fetch(r, qty).registry, Fetch(r, qty).indices.value) == r
  {
    var f := Fetch(r, qty);
    var ids := f.indices.value;
    FetchFirstFit(r, qty);
    ReleaseAllSpec(f.registry, ids);
    var r' := ReleaseAll(f.registry, ids);
    assert r'.bits == r.bits;
  }

  /** Releasing an in-use slot below which every slot is in use (so that it
      becomes the lowest free slot) and fetching one slot hands out that
      same slot and restores the registry. */
  lemma ReleaseFetchRoundTrip(r: Registry, idx: nat)
    requires Valid(r) && idx < |r.bits| && r.bits[idx]
    requires forall j :: 0 <= j < idx ==> r.bits[j]
    ensures Fetch(Release(r, idx), 1) == Fetched(r, Ok([idx]))
  {
    var r1 := Release(r, idx);
    var n := |r.bits|;
    FreeFromSpec(r1.bits, 0, n);
    var free := FreeFrom(r1.bits, 0, n);
    assert idx in free;
    assert free[0] == idx by {
      var j :| 0 <= j < |free| && free[j] == idx;
      assert free[0] <= free[j] && !r1.bits[free[0]];
    }
    assert HasFreeSpace(r1, 1);
    assert Take(free, 1) == [idx];
    var f := Fetch(r1, 1);
    assert f.indices == Ok([idx]);
    assert f.registry.bits == r.bits;
  }

  // ---------------------------------------------------------------------
  // Reset and status

  /** After a reset the first fetch hands out slot 0 and status reports one
      slot in use. */
  lemma ResetThenFetch(r: Registry)
    requires |r.bits| >= 1
    ensures Fetch(Reset(r), 1).indices == Ok([0])
    ensures Status(Fetch(Reset(r), 1).registry) == Report(1, |r.bits| - 1)
  {
    FreshIsEmptyPrefix(|r.bits|);
    FetchOnPrefix(|r.bits|, 0, 1);
  }

  // ---------------------------------------------------------------------
  // The unit tests of the registry, as lemmas about the model

  /** A new registry of one or of ten slots reports all of them free. */
  lemma CreationStatus()
    ensures Status(Fresh(1)) == Report(0, 1)
    ensures Status(Fresh(10)) == Report(0, 10)
  {
  }

  /** Three single fetches hand out slots 0, 1 and 2. */
  lemma FetchOneConsecutively()
    ensures var f1 := Fetch(Fresh(10), 1);
      var f2 := Fetch(f1.registry, 1);
      var f3 := Fetch(f2.registry, 1);
      && f1.indices == Ok([0]) && f2.indices == Ok([1]) && f3.indices == Ok([2])
      && Status(f3.registry) == Report(3, 7)
  {
    FreshIsEmptyPrefix(10);
    FetchOnPrefix(10, 0, 1);
    FetchOnPrefix(10, 1, 1);
    FetchOnPrefix(10, 2, 1);
  }

  /** Eleven slots never fit into ten; six do; five more no longer do. */
  lemma FetchBucketFail()
    ensures Fetch(Fresh(10), 11).indices == Err(NotEnoughSpaceInAllocator)
    ensures Fetch(Fresh(10), 6).indices.Ok?
    ensures Fetch(Fetch(Fresh(10), 6).registry, 5).indices == Err(NotEnoughSpaceInAllocator)
  {
    FreshIsEmptyPrefix(10);
    FetchOnPrefix(10, 0, 11);
    FetchOnPrefix(10, 0, 6);
    FetchOnPrefix(10, 6, 5);
  }

  /** After two single fetches, a fetch of five hands out slots 2 to 6. */
  lemma FetchBucketContiguous()
    ensures var f2 := Fetch(Fetch(Fresh(10), 1).registry, 1);
      var f3 := Fetch(f2.registry, 5);
      && f3.indices == Ok([2, 3, 4, 5, 6])
      && Status(f3.registry) == Report(7, 3)
  {
    TwoSingleFetches();
    FetchOnPrefix(10, 2, 5);
    RangeTwoToSeven();
  }

  lemma TwoSingleFetches()
    ensures Fetch(Fetch(Fresh(10), 1).registry, 1).registry == Prefix(10, 2)
  {
    FreshIsEmptyPrefix(10);
    FetchOnPrefix(10, 0, 1);
    FetchOnPrefix(10, 1, 1);
  }

  lemma RangeTwoToSeven()
    ensures Range(2, 7) == [2, 3, 4, 5, 6]
  {
    var ids := Range(2, 7);
    assert |ids| == 5 && ids[0] == 2 && ids[1] == 3 && ids[2] == 4 && ids[3] == 5 && ids[4] == 6;
  }

  /** A full registry refuses one more slot; after a reset it reports all
      slots free and hands out slot 0 again. */
  lemma ResetScenario()
    ensures var full := Fetch(Fresh(10), 10).registry;
      && Status(full) == Report(10, 0)
      && Fetch(full, 1).indices == Err(NotEnoughSpaceInAllocator)
      && Status(Reset(full)) == Report(0, 10)
      && Fetch(Reset(full), 1).indices == Ok([0])
      && Status(Fetch(Reset(full), 1).registry) == Report(1, 9)
  {
    FreshIsEmptyPrefix(10);
    FetchOnPrefix(10, 0, 10);
    FetchOnPrefix(10, 10, 1);
    ResetThenFetch(Prefix(10, 10));
  }

  /** `m` calls of `fetch()`, one after the other. */
  function FetchOnes(r: Registry, m: nat): (r': Registry)
    ensures |r'.bits| == |r.bits|
    decreases m
  {
    if m == 0 then r else FetchOnes(Fetch(r, 1).registry, m - 1)
  }

  /** With the first k slots in use, m single fetches put the next m slots
      in use. */
  lemma {:induction false} FetchOnesOnPrefix(n: nat, k: nat, m: nat)
    requires k + m <= n
    ensures FetchOnes(Prefix(n, k), m) == Prefix(n, k + m)
    decreases m
  {
    if m > 0 {
      FetchOnPrefix(n, k, 1);
      FetchOnesOnPrefix(n, k + 1, m - 1);
    }
  }

  /** N single fetches on a new registry of N slots fill it. */
  lemma FetchOnesFill(n: nat)
    ensures FetchOnes(Fresh(n), n) == Prefix(n, n)
    ensures WellFormed(FetchOnes(Fresh(n), n))
  {
    FreshIsEmptyPrefix(n);
    FetchOnesOnPrefix(n, 0, n);
    PrefixValid(n, n);
  }

  /** Ten slots in use (what ten single fetches leave, by FetchOnesFill),
      then slots 2, 3, 5, 7 and 9 released. */
  function Holes(): (r: Registry)
    ensures WellFormed(r)
  {
    PrefixValid(10, 10);
    Release(Release(Release(Release(Release(Prefix(10, 10), 2), 3), 5), 7), 9)
  }

  lemma HolesShape()
    ensures Holes() == Registry(Prefix(10, 10).bits[2 := false][3 := false][5 := false][7 := false][9 := false], 5)
  {
    PrefixValid(10, 10);
    ReleaseFive(Prefix(10, 10));
  }

  lemma ReleaseFive(r: Registry)
    requires WellFormed(r) && |r.bits| == 10 && r.used >= 5
    requires r.bits[2] && r.bits[3] && r.bits[5] && r.bits[7] && r.bits[9]
    ensures Release(Release(Release(Release(Release(r, 2), 3), 5), 7), 9)
         == Registry(r.bits[2 := false][3 := false][5 := false][7 := false][9 := false], r.used - 5)
  {
    ReleaseInUse(r, 2);
    var r1 := Release(r, 2);
    ReleaseInUse(r1, 3);
    var r2 := Release(r1, 3);
    ReleaseInUse(r2, 5);
    var r3 := Release(r2, 5);
    ReleaseInUse(r3, 7);
    var r4 := Release(r3, 7);
    ReleaseInUse(r4, 9);
  }

  /** Releasing a slot in use lowers its flag and the counter. */
  lemma ReleaseInUse(r: Registry, idx: nat)
    requires WellFormed(r) && idx < |r.bits| && r.bits[idx]
    ensures Release(r, idx) == Registry(r.bits[idx := false], r.used - 1)
  {
  }

  /** From ten slots in use (TenFetchesFill), release slots 2, 3, 5, 7 and
      9, then fetch four: the fetch hands out 2, 3, 5 and 7, leaving only
      slot 9 free. */
  lemma FetchBucketNotContiguous()
    ensures Status(Holes()) == Report(5, 5)
    ensures Fetch(Holes(), 4).indices == Ok([2, 3, 5, 7])
    ensures Status(Fetch(Holes(), 4).registry) == Report(9, 1)
  {
    HolesShape();
    HolesBits();
    FetchFromHoles();
  }

  /** Ten single fetches on a new registry of ten slots leave all ten in
      use, status (10, 0): the registry Holes starts from. */
  lemma TenFetchesFill()
    ensures FetchOnes(Fresh(10), 10) == Prefix(10, 10)
    ensures Status(Prefix(10, 10)) == Report(10, 0)
  {
    FetchOnesFill(10);
  }

  lemma HolesBits()
    ensures Prefix(10, 10).bits[2 := false][3 := false][5 := false][7 := false][9 := false]
         == [true, true, false, false, true, false, true, false, true, false]
  {
  }

  lemma FetchFromHoles()
    ensures var r := Registry([true, true, false, false, true, false, true, false, true, false], 5);
      Fetch(r, 4).indices == Ok([2, 3, 5, 7]) && Fetch(r, 4).registry.used == 9
  {
    var r := Registry([true, true, false, false, true, false, true, false, true, false], 5);
    FreeOfHoles();
    assert HasFreeSpace(r, 4);
    assert Take([2, 3, 5, 7, 9], 4) == [2, 3, 5, 7];
  }

  lemma FreeOfHoles()
    ensures FreeFrom([true, true, false, false, true, false, true, false, true, false], 0, 10) == [2, 3, 5, 7, 9]
  {
  }

  // ---------------------------------------------------------------------
  // The code as written

  /** From two slots on, the as-written scan cannot hand out every slot of a
      new registry: it stops after max_index_ < N slots and reports
      BadLogic, leaving the slots it did visit marked. The documented fetch
      hands out all of them. */
  lemma ScanBoundMissesSlots(n: nat)
    requires n >= 2
    ensures FetchAsWritten(Fresh(n), n).indices == Err(BadLogic)
    ensures Fetch(Fresh(n), n).indices == Ok(Range(0, n))
  {
    Packing.MaxIndexIsWordCount(n);
    var bound := Packing.MaxIndex(n);
    NoneUsedFresh(n, bound);
    FreshIsEmptyPrefix(n);
    FetchOnPrefix(n, 0, n);
  }

  /** On one slot the scan bound does not interfere, and the as-written
      reset shows alone: after `fetch()` and `reset()` the status is still
      (1, 0) and `fetch()` is refused, although the flag is clear. */
  lemma ResetKeepsCounterOneSlot()
    ensures FetchAsWritten(Fresh(1), 1) == Fetched(Prefix(1, 1), Ok([0]))
    ensures !ResetAsWritten(Prefix(1, 1)).bits[0]
    ensures Status(ResetAsWritten(Prefix(1, 1))) == Report(1, 0)
    ensures FetchAsWritten(ResetAsWritten(Prefix(1, 1)), 1).indices == Err(NotEnoughSpaceInAllocator)
  {
    assert Packing.MaxIndex(1) == 1;
    FreshIsEmptyPrefix(1);
    FetchOnPrefix(1, 0, 1);
    assert Range(0, 1) == [0];
  }

  lemma NoneUsedFresh(n: nat, bound: nat)
    requires bound <= n
    ensures |FreeFrom(Fresh(n).bits, 0, bound)| == bound
  {
    NoneUsed(Fresh(n).bits, 0, bound);
  }

  /** With the as-written scan, a registry of 2 to 32 slots hands out slot 0
      once and then reports BadLogic for the next single slot, although the
      counter shows room. */
  lemma SecondFetchFailsAsWritten(n: nat)
    requires 2 <= n <= 32
    ensures FetchAsWritten(Fresh(n), 1).indices == Ok([0])
    ensures Status(FetchAsWritten(Fresh(n), 1).registry) == Report(1, n - 1)
    ensures FetchAsWritten(FetchAsWritten(Fresh(n), 1).registry, 1).indices == Err(BadLogic)
  {
    assert Packing.MaxIndex(n) == 1;
    var f1 := FetchAsWritten(Fresh(n), 1);
    assert FreeFrom(Fresh(n).bits, 0, 1) == [0];
    assert f1.registry.bits[0];
    assert FreeFrom(f1.registry.bits, 0, 1) == [];
  }

  /** The as-written reset leaves the counter of a full registry at N: the
      registry reports no free slot and refuses a fetch although every flag
      is clear. The documented reset reports N free slots and serves the
      fetch. */
  lemma ResetKeepsCounter(n: nat)
    requires n >= 1
    ensures Status(ResetAsWritten(Prefix(n, n))) == Report(n, 0)
    ensures Fetch(ResetAsWritten(Prefix(n, n)), 1).indices == Err(NotEnoughSpaceInAllocator)
    ensures Status(Reset(Prefix(n, n))) == Report(0, n)
    ensures Fetch(Reset(Prefix(n, n)), 1).indices == Ok([0])
  {
    ResetThenFetch(Prefix(n, n));
  }
}
