/** The slot status registry: which of a pool's N slots are handed out, and a
    running count of handed-out slots.

    The flags are viewed here as one boolean per slot; module Packing shows
    how the source stores them in 32-bit words. The counter is kept apart
    from the flags, as in the source, so the model can tell when the two
    disagree. */
module SlotRegistry {

  import opened Errors
  import Packing

  /** `bits[i]` says whether slot i is in use; `used` is the registry's own
      count of slots in use. The capacity N is |bits|. */
  datatype Registry = Registry(bits: seq<bool>, used: nat)

  /** The status report. `free` is N - used, which the source computes on
      unsigned integers. */
  datatype Report = Report(used: nat, free: int)

  /** The registry after a fetch, with the fetched indices or the error. */
  datatype Fetched = Fetched(registry: Registry, indices: Result<seq<nat>>)

  /** The counter agrees with the flags. */
  predicate Valid(r: Registry) {
    r.used == Popcount(r.bits)
  }

  /** The counter covers at least every raised flag, so releasing a raised
      flag never takes the counter below zero. Every registry the operations
      below produce from a fresh one is well formed, also when the counter
      is not zeroed on reset. */
  predicate WellFormed(r: Registry) {
    Popcount(r.bits) <= r.used
  }

  /** Number of raised flags among slots lo..hi-1. */
  function UsedIn(bits: seq<bool>, lo: nat, hi: nat): (c: nat)
    requires lo <= hi <= |bits|
    ensures c <= hi - lo
    decreases hi - lo
  {
    if lo == hi then 0 else (if bits[lo] then 1 else 0) + UsedIn(bits, lo + 1, hi)
  }

  function Popcount(bits: seq<bool>): nat {
    UsedIn(bits, 0, |bits|)
  }

  /** The free slots among lo..hi-1, in ascending order: the reference list
      against which the registry's scan is checked (see FreeFromSpec). */
  function FreeFrom(bits: seq<bool>, lo: nat, hi: nat): (s: seq<nat>)
    requires lo <= hi <= |bits|
    ensures |s| + UsedIn(bits, lo, hi) == hi - lo
    decreases hi - lo
  {
    if lo == hi then []
    else if bits[lo] then FreeFrom(bits, lo + 1, hi)
    else [lo] + FreeFrom(bits, lo + 1, hi)
  }

  /** FreeFrom lists every free slot of the range, only those, each once,
      in ascending order; there are as many as the range has slots not in
      use. */
  lemma FreeFromSpec(bits: seq<bool>, lo: nat, hi: nat)
    requires lo <= hi <= |bits|
    ensures var s := FreeFrom(bits, lo, hi);
      && (forall x :: x in s ==> lo <= x < hi && !bits[x])
      && (forall k :: 0 <= k < |s| ==> lo <= s[k] < hi)
      && (forall k, l :: 0 <= k < l < |s| ==> s[k] < s[l])
      && (forall i :: lo <= i < hi && !bits[i] ==> i in s)
      && |s| == (hi - lo) - UsedIn(bits, lo, hi)
  {
    FreeFromSound(bits, lo, hi);
    FreeFromComplete(bits, lo, hi);
    FreeFromAscending(bits, lo, hi);
    var s := FreeFrom(bits, lo, hi);
    assert forall k :: 0 <= k < |s| ==> s[k] in s;
  }

  lemma {:induction false} FreeFromSound(bits: seq<bool>, lo: nat, hi: nat)
    requires lo <= hi <= |bits|
    ensures forall x :: x in FreeFrom(bits, lo, hi) ==> lo <= x < hi && !bits[x]
    decreases hi - lo
  {
    if lo < hi {
      FreeFromSound(bits, lo + 1, hi);
    }
  }

  lemma {:induction false} FreeFromComplete(bits: seq<bool>, lo: nat, hi: nat)
    requires lo <= hi <= |bits|
    ensures forall i :: lo <= i < hi && !bits[i] ==> i in FreeFrom(bits, lo, hi)
    decreases hi - lo
  {
    if lo < hi {
      FreeFromComplete(bits, lo + 1, hi);
    }
  }

  lemma {:induction false} FreeFromAscending(bits: seq<bool>, lo: nat, hi: nat)
    requires lo <= hi <= |bits|
    ensures forall k, l :: 0 <= k < l < |FreeFrom(bits, lo, hi)| ==> FreeFrom(bits, lo, hi)[k] < FreeFrom(bits, lo, hi)[l]
    decreases hi - lo
  {
    if lo < hi {
      FreeFromAscending(bits, lo + 1, hi);
      FreeFromSound(bits, lo + 1, hi);
      var rest := FreeFrom(bits, lo + 1, hi);
      if !bits[lo] {
        var s := [lo] + rest;
        assert FreeFrom(bits, lo, hi) == s;
        forall k, l | 0 <= k < l < |s|
          ensures s[k] < s[l]
        {
          assert s[l] == rest[l - 1] && rest[l - 1] in rest;
          if k > 0 {
            assert s[k] == rest[k - 1] && rest[k - 1] < rest[l - 1];
          }
        }
      }
    }
  }

  /** What a scan asked for `n` slots picks out of the candidates `s`: the
      first n of them, or all of them when there are fewer, or when n is zero
      (the scan stops right after its n-th pick, which never happens for
      n == 0). */
  function Take(s: seq<nat>, n: nat): (t: seq<nat>)
    ensures t <= s
    ensures forall x :: x in t ==> x in s
    ensures |t| == if 0 < n <= |s| then n else |s|
  {
    if 0 < n <= |s| then s[..n] else s
  }

  /** A registry of `n` free slots with a zero counter. */
  function Fresh(n: nat): (r: Registry)
    ensures |r.bits| == n && r.used == 0
    ensures forall i :: 0 <= i < n ==> !r.bits[i]
    ensures Valid(r)
  {
    var bits := seq(n, _ => false);
    NoneUsed(bits, 0, n);
    Registry(bits, 0)
  }

  /** The source's `has_free_space`: `qty` more slots fit under the counter.
      On a consistent registry that is: there are at least `qty` free slots. */
  predicate HasFreeSpace(r: Registry, qty: nat)
    ensures Valid(r) ==> (HasFreeSpace(r, qty) <==> qty <= |FreeFrom(r.bits, 0, |r.bits|)|)
  {
    qty <= |r.bits| - r.used
  }

  /** The scan loop of `fetch`, from slot `idx` up to (not including) slot
      `bound`: every free slot met is marked and recorded until `need` have
      been recorded; `need == 0` never stops the scan early. Returns the
      flags afterwards and the recorded slots. */
  function Scan(bits: seq<bool>, idx: nat, bound: nat, need: nat): (res: (seq<bool>, seq<nat>))
    requires idx <= bound <= |bits|
    ensures |res.0| == |bits|
    decreases bound - idx
  {
    if idx == bound then (bits, [])
    else if bits[idx] then Scan(bits, idx + 1, bound, need)
    else if need == 1 then (bits[idx := true], [idx])
    else
      var rest := Scan(bits[idx := true], idx + 1, bound, if need == 0 then 0 else need - 1);
      (rest.0, [idx] + rest.1)
  }

  /** What the scan from `idx` is meant to do: record the first `need` free
      slots from `idx` on (all of them if there are fewer, or if need is 0),
      raise exactly those flags, and so add exactly their number to the
      count of the scanned range. */
  predicate ScanMeets(bits: seq<bool>, idx: nat, bound: nat, need: nat, res: (seq<bool>, seq<nat>))
    requires idx <= bound <= |bits| && |res.0| == |bits|
  {
    && res.1 == Take(FreeFrom(bits, idx, bound), need)
    && MarksPicked(bits, res)
    && UsedIn(res.0, idx, bound) == UsedIn(bits, idx, bound) + |res.1|
  }

  /** The flags after a scan are the flags before, plus the recorded slots. */
  predicate MarksPicked(bits: seq<bool>, res: (seq<bool>, seq<nat>))
    requires |res.0| == |bits|
  {
    forall i :: 0 <= i < |bits| ==> res.0[i] == (bits[i] || i in res.1)
  }

  lemma {:induction false} ScanSpec(bits: seq<bool>, idx: nat, bound: nat, need: nat)
    requires idx <= bound <= |bits|
    ensures ScanMeets(bits, idx, bound, need, Scan(bits, idx, bound, need))
    decreases bound - idx
  {
    if idx == bound {
    } else if bits[idx] {
      ScanSpec(bits, idx + 1, bound, need);
    } else if need == 1 {
      var marked := bits[idx := true];
      UsedInFrame(marked, bits, idx + 1, bound);
      assert FreeFrom(bits, idx, bound) == [idx] + FreeFrom(bits, idx + 1, bound);
    } else {
      var marked := bits[idx := true];
      var need' := if need == 0 then 0 else need - 1;
      var rest := Scan(marked, idx + 1, bound, need');
      ScanSpec(marked, idx + 1, bound, need');
      assert Scan(bits, idx, bound, need) == (rest.0, [idx] + rest.1);
      PickMoreTakes(bits, idx, bound, need, rest.1);
      PickMoreMarks(bits, idx, rest);
      PickMoreCounts(bits, idx, bound, rest);
    }
  }

  lemma PickMoreTakes(bits: seq<bool>, idx: nat, bound: nat, need: nat, picked: seq<nat>)
    requires idx < bound <= |bits| && !bits[idx] && need != 1
    requires picked == Take(FreeFrom(bits[idx := true], idx + 1, bound), if need == 0 then 0 else need - 1)
    ensures [idx] + picked == Take(FreeFrom(bits, idx, bound), need)
  {
    FreeFromFrame(bits[idx := true], bits, idx + 1, bound);
    assert FreeFrom(bits, idx, bound) == [idx] + FreeFrom(bits, idx + 1, bound);
    TakeCons(idx, FreeFrom(bits, idx + 1, bound), need);
  }

  lemma PickMoreMarks(bits: seq<bool>, idx: nat, rest: (seq<bool>, seq<nat>))
    requires idx < |bits| && |rest.0| == |bits|
    requires MarksPicked(bits[idx := true], rest)
    ensures MarksPicked(bits, (rest.0, [idx] + rest.1))
  {
  }

  lemma PickMoreCounts(bits: seq<bool>, idx: nat, bound: nat, rest: (seq<bool>, seq<nat>))
    requires idx < bound <= |bits| && !bits[idx] && |rest.0| == |bits|
    requires MarksPicked(bits[idx := true], rest)
    requires UsedIn(rest.0, idx + 1, bound) == UsedIn(bits[idx := true], idx + 1, bound) + |rest.1|
    ensures UsedIn(rest.0, idx, bound) == UsedIn(bits, idx, bound) + |[idx] + rest.1|
  {
    UsedInFrame(bits[idx := true], bits, idx + 1, bound);
    assert rest.0[idx];
  }

  lemma TakeCons(x: nat, s: seq<nat>, n: nat)
    requires n != 1
    ensures Take([x] + s, n) == [x] + Take(s, if n == 0 then 0 else n - 1)
  {
    if 0 < n <= |s| + 1 {
      assert ([x] + s)[..n] == [x] + s[..n - 1];
    }
  }

  /** `fetch(qty)` with the scan ending before slot `bound`. Without room
      under the counter nothing changes and the error is
      NotEnoughSpaceInAllocator; otherwise the free slots met by the scan
      are marked (and counted) even when fewer than `qty` were found, which
      is reported as BadLogic. */
  function FetchWithin(r: Registry, qty: nat, bound: nat): (f: Fetched)
    requires bound <= |r.bits|
    ensures !HasFreeSpace(r, qty) ==> f == Fetched(r, Err(NotEnoughSpaceInAllocator))
    ensures HasFreeSpace(r, qty) ==>
      var picked := Take(FreeFrom(r.bits, 0, bound), qty);
      && |f.registry.bits| == |r.bits|
      && (forall i :: 0 <= i < |r.bits| ==> f.registry.bits[i] == (r.bits[i] || i in picked))
      && f.registry.used == r.used + |picked|
      && f.indices == if |picked| == qty then Ok(picked) else Err(BadLogic)
  {
    if !HasFreeSpace(r, qty) then
      Fetched(r, Err(NotEnoughSpaceInAllocator))
    else
      var scanned := Scan(r.bits, 0, bound, qty);
      ScanSpec(r.bits, 0, bound, qty);
      var r' := Registry(scanned.0, r.used + |scanned.1|);
      Fetched(r', if |scanned.1| == qty then Ok(scanned.1) else Err(BadLogic))
  }

  /** `fetch` as its documentation and tests describe it: the scan covers all
      N slots. */
  function Fetch(r: Registry, qty: nat): (f: Fetched)
    ensures Valid(r) ==> Valid(f.registry)
    ensures WellFormed(r) ==> WellFormed(f.registry)
    ensures |f.registry.bits| == |r.bits|
  {
    var f := FetchWithin(r, qty, |r.bits|);
    FetchCounts(r, qty, |r.bits|);
    f
  }

  /** `fetch` as written: the loop advances one word pointer per slot and
      stops after max_index_ = min(ceil(N / 32), N) steps, so only the first
      max_index_ slots are ever scanned. */
  function FetchAsWritten(r: Registry, qty: nat): (f: Fetched)
    ensures Valid(r) ==> Valid(f.registry)
    ensures WellFormed(r) ==> WellFormed(f.registry)
    ensures f.indices.Ok? ==> forall x :: x in f.indices.value ==> x < Packing.MaxIndex(|r.bits|)
  {
    var f := FetchWithin(r, qty, Packing.MaxIndex(|r.bits|));
    FetchCounts(r, qty, Packing.MaxIndex(|r.bits|));
    FreeFromSpec(r.bits, 0, Packing.MaxIndex(|r.bits|));
    f
  }

  /** `release(idx)`: a slot in range that is in use becomes free and the
      counter drops by one; anything else is a no-op. */
  function Release(r: Registry, idx: nat): (r': Registry)
    requires WellFormed(r)
    ensures |r'.bits| == |r.bits|
    ensures forall i :: 0 <= i < |r.bits| && i != idx ==> r'.bits[i] == r.bits[i]
    ensures idx < |r.bits| ==> !r'.bits[idx]
    ensures WellFormed(r')
    ensures Valid(r) ==> Valid(r')
    ensures r'.used == r.used - (if idx < |r.bits| && r.bits[idx] then 1 else 0)
  {
    if idx < |r.bits| && r.bits[idx] then
      var bits := r.bits[idx := false];
      PopcountFlip(r.bits, idx);
      Registry(bits, r.used - 1)
    else
      r
  }

  /** `reset()` as its documentation and tests describe it: every slot free
      and the counter back to zero. */
  function Reset(r: Registry): (r': Registry)
    ensures Valid(r')
    ensures |r'.bits| == |r.bits|
    ensures forall i :: 0 <= i < |r.bits| ==> !r'.bits[i]
    ensures Status(r') == Report(0, |r.bits|)
  {
    Fresh(|r.bits|)
  }

  /** `reset()` as written: the flags are cleared but the counter is not
      touched, so status and the space check still see the old count. */
  function ResetAsWritten(r: Registry): (r': Registry)
    ensures |r'.bits| == |r.bits| && r'.used == r.used
    ensures forall i :: 0 <= i < |r.bits| ==> !r'.bits[i]
    ensures WellFormed(r')
  {
    var bits := seq(|r.bits|, _ => false);
    NoneUsed(bits, 0, |bits|);
    Registry(bits, r.used)
  }

  /** `status()`: the counter, and the slots left under it. For a valid
      registry both numbers agree with the flags. */
  function Status(r: Registry): (s: Report)
    ensures s.used + s.free == |r.bits|
    ensures Valid(r) ==> s.used == Popcount(r.bits) && s.free == |FreeFrom(r.bits, 0, |r.bits|)|
  {
    Report(r.used, |r.bits| - r.used)
  }

  // ---------------------------------------------------------------------
  // Counting lemmas

  lemma {:induction false} UsedInFrame(a: seq<bool>, b: seq<bool>, lo: nat, hi: nat)
    requires lo <= hi <= |a| && hi <= |b|
    requires forall i :: lo <= i < hi ==> a[i] == b[i]
    ensures UsedIn(a, lo, hi) == UsedIn(b, lo, hi)
    decreases hi - lo
  {
    if lo < hi {
      UsedInFrame(a, b, lo + 1, hi);
    }
  }

  lemma {:induction false} FreeFromFrame(a: seq<bool>, b: seq<bool>, lo: nat, hi: nat)
    requires lo <= hi <= |a| && hi <= |b|
    requires forall i :: lo <= i < hi ==> a[i] == b[i]
    ensures FreeFrom(a, lo, hi) == FreeFrom(b, lo, hi)
    decreases hi - lo
  {
    if lo < hi {
      FreeFromFrame(a, b, lo + 1, hi);
      var rest := FreeFrom(a, lo + 1, hi);
      if a[lo] {
        assert FreeFrom(a, lo, hi) == rest && FreeFrom(b, lo, hi) == rest;
      } else {
        assert FreeFrom(a, lo, hi) == [lo] + rest && FreeFrom(b, lo, hi) == [lo] + rest;
      }
    }
  }

  lemma {:induction false} UsedInSplit(bits: seq<bool>, lo: nat, mid: nat, hi: nat)
    requires lo <= mid <= hi <= |bits|
    ensures UsedIn(bits, lo, hi) == UsedIn(bits, lo, mid) + UsedIn(bits, mid, hi)
    decreases mid - lo
  {
    if lo < mid {
      UsedInSplit(bits, lo + 1, mid, hi);
    }
  }

  lemma {:induction false} NoneUsed(bits: seq<bool>, lo: nat, hi: nat)
    requires lo <= hi <= |bits|
    requires forall i :: lo <= i < hi ==> !bits[i]
    ensures UsedIn(bits, lo, hi) == 0
    decreases hi - lo
  {
    if lo < hi {
      NoneUsed(bits, lo + 1, hi);
    }
  }

  /** Lowering one raised flag lowers the count by one. */
  lemma PopcountFlip(bits: seq<bool>, idx: nat)
    requires idx < |bits| && bits[idx]
    ensures Popcount(bits[idx := false]) + 1 == Popcount(bits)
  {
    var b := bits[idx := false];
    UsedInSplit(bits, 0, idx, |bits|);
    UsedInSplit(b, 0, idx, |bits|);
    UsedInFrame(b, bits, 0, idx);
    UsedInFrame(b, bits, idx + 1, |bits|);
  }

  /** The counter grows by exactly as many flags as the fetch raises. */
  lemma FetchCounts(r: Registry, qty: nat, bound: nat)
    requires bound <= |r.bits|
    ensures var f := FetchWithin(r, qty, bound);
      Popcount(f.registry.bits) - f.registry.used == Popcount(r.bits) - r.used
  {
    var f := FetchWithin(r, qty, bound);
    if HasFreeSpace(r, qty) {
      var scanned := Scan(r.bits, 0, bound, qty);
      ScanSpec(r.bits, 0, bound, qty);
      var n := |r.bits|;
      FreeFromSpec(r.bits, 0, bound);
      assert forall i :: bound <= i < n ==> i !in scanned.1;
      UsedInSplit(scanned.0, 0, bound, n);
      UsedInSplit(r.bits, 0, bound, n);
      UsedInFrame(scanned.0, r.bits, bound, n);
    }
  }
}
