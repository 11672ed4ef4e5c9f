/** The bucket an allocator hands out for a multi-slot allocation: a
    fixed-capacity list of handles, filled in order and read by index. */
module Buckets {

  import opened Errors

  /** At most `capacity` entries, in the order they were pushed. */
  datatype Bucket<H> = Bucket(capacity: nat, entries: seq<H>)

  predicate Valid<H>(b: Bucket<H>) {
    |b.entries| <= b.capacity
  }

  function Empty<H>(capacity: nat): (b: Bucket<H>)
    ensures Valid(b) && Size(b) == 0 && b.capacity == capacity
  {
    Bucket(capacity, [])
  }

  /** `size()`: the number of entries pushed so far. */
  function Size<H>(b: Bucket<H>): (n: nat)
    ensures Valid(b) ==> n <= b.capacity
  {
    |b.entries|
  }

  /** `push_back(h)`: appends `h` when the bucket has room and reports
      whether it did; a full bucket is left as it was. */
  function PushBack<H>(b: Bucket<H>, h: H): (res: (Bucket<H>, bool))
    ensures res.1 <==> Size(b) < b.capacity
    ensures res.0.capacity == b.capacity
    ensures res.1 ==> Size(res.0) == Size(b) + 1 && At(res.0, Size(b)) == Ok(h)
    ensures res.1 ==> forall i :: 0 <= i < Size(b) ==> At(res.0, i) == At(b, i)
    ensures !res.1 ==> res.0 == b
    ensures Valid(b) ==> Valid(res.0)
  {
    if |b.entries| < b.capacity then (Bucket(b.capacity, b.entries + [h]), true) else (b, false)
  }

  /** `operator[](idx)`: the entry at `idx`, or OutOfBounds from `size()` on. */
  function At<H>(b: Bucket<H>, idx: nat): (r: Result<H>)
    ensures r.Err? <==> idx >= Size(b)
    ensures r.Err? ==> r.code == OutOfBounds
  {
    if idx >= |b.entries| then Err(OutOfBounds) else Ok(b.entries[idx])
  }

  /** Pushes each handle of `hs` in turn. */
  function PushAll<H>(b: Bucket<H>, hs: seq<H>): (b': Bucket<H>)
    ensures b'.capacity == b.capacity
    decreases |hs|
  {
    if hs == [] then b else PushAll(PushBack(b, hs[0]).0, hs[1..])
  }

  /** Pushing any handles, whether or not they fit, never takes a bucket
      past its capacity: the handles that fit are kept and the rest are
      dropped, so `size()` ends at the smaller of the two counts. */
  lemma {:induction false} PushAllKeepsBound<H>(b: Bucket<H>, hs: seq<H>)
    requires Valid(b)
    ensures Valid(PushAll(b, hs))
    ensures Size(PushAll(b, hs)) == if Size(b) + |hs| <= b.capacity then Size(b) + |hs| else b.capacity
    decreases |hs|
  {
    if hs != [] {
      PushAllKeepsBound(PushBack(b, hs[0]).0, hs[1..]);
    }
  }

  /** Pushing handles into an empty bucket with room for all of them, then
      reading it by index, gives the handles back in order; every index from
      their number on is out of bounds. */
  lemma {:induction false} PushAllThenAt<H>(b: Bucket<H>, hs: seq<H>)
    requires Size(b) + |hs| <= b.capacity
    ensures Size(PushAll(b, hs)) == Size(b) + |hs|
    ensures forall i :: 0 <= i < Size(b) ==> At(PushAll(b, hs), i) == At(b, i)
    ensures forall i :: 0 <= i < |hs| ==> At(PushAll(b, hs), Size(b) + i) == Ok(hs[i])
    ensures forall i: nat :: i >= Size(b) + |hs| ==> At(PushAll(b, hs), i) == Err(OutOfBounds)
    decreases |hs|
  {
    if hs != [] {
      var b1 := PushBack(b, hs[0]).0;
      PushAllThenAt(b1, hs[1..]);
      forall i | 0 <= i < |hs|
        ensures At(PushAll(b, hs), Size(b) + i) == Ok(hs[i])
      {
        if i > 0 {
          assert hs[1..][i - 1] == hs[i];
          assert Size(b1) + (i - 1) == Size(b) + i;
        }
      }
    }
  }
}
