/** One 32-bit word of the bitmap. The source raises bit `b` of word `w` with
    `w | (1 << b)` and lowers it with `w & ~(1 << b)`. The model lowers a bit by
    flipping it when it is raised and leaving the word alone otherwise;
    ClearWord shows that this is the source's `w & ~(1 << b)`. */
module Words {

  /** A one-bit mask picks either nothing or exactly itself out of a word. */
  lemma SingleBit(w: bv32, a: bv5)
    ensures w & (1 << a) == 0 || w & (1 << a) == 1 << a
  {
  }

  lemma AndNotWhenSet(w: bv32, m: bv32)
    requires w & m == m
    ensures w & !m == w ^ m
  {
  }

  lemma AndNotWhenUnset(w: bv32, m: bv32)
    requires w & m == 0
    ensures w & !m == w
  {
  }

  /** For a one-bit mask, flipping a raised bit and keeping a clear one is
      the source's `w & ~m`. */
  lemma ClearWord(w: bv32, m: bv32)
    requires w & m == 0 || w & m == m
    ensures (if w & m != 0 then w ^ m else w) == w & !m
  {
    if w & m != 0 {
      AndNotWhenSet(w, m);
    } else {
      AndNotWhenUnset(w, m);
    }
  }

  /** Raising bit `a` makes bit `a` raised and keeps every other bit. */
  lemma RaiseWord(w: bv32, a: bv5, b: bv5)
    ensures (w | (1 << a)) & (1 << b) != 0 <==> (a == b || w & (1 << b) != 0)
  {
  }

  /** Flipping bit `a` inverts bit `a` and keeps every other bit. */
  lemma FlipWord(w: bv32, a: bv5, b: bv5)
    ensures (w ^ (1 << a)) & (1 << b) != 0 <==> (if a == b then w & (1 << b) == 0 else w & (1 << b) != 0)
  {
  }
}

/** The packed layout of the slot registry's bitmap: one flag per slot, stored
    in 32-bit unsigned words, the flag of slot `idx` at bit `idx % 32` of word
    `idx / 32`. */
module Packing {

  import opened Words


  /** Words needed for `n` flags: the ceiling of n / 32. */
  function DataSize(n: nat): (words: nat)
    ensures n <= 32 * words < n + 32
  {
    (n + 31) / 32
  }

  /** The bound both drafts use for their scans: min(DataSize(n), n). */
  function MaxIndex(n: nat): (bound: nat)
    ensures bound <= n && bound <= DataSize(n)
    ensures bound == n || bound == DataSize(n)
  {
    if DataSize(n) < n then DataSize(n) else n
  }

  /** The position of slot `idx` inside its word. */
  function Pos(idx: nat): bv5 {
    (idx % 32) as bv5
  }

  function Zeros(n: nat): (ws: seq<bv32>)
    ensures |ws| == DataSize(n)
    ensures forall k :: 0 <= k < |ws| ==> ws[k] == 0
  {
    seq(DataSize(n), _ => 0)
  }

  predicate InWords(ws: seq<bv32>, idx: nat) {
    idx / 32 < |ws|
  }

  /** Flag `b` of word `k`. */
  predicate TestAt(ws: seq<bv32>, k: nat, b: bv5)
    requires k < |ws|
  {
    ws[k] & (1 << b) != 0
  }

  function SetAt(ws: seq<bv32>, k: nat, b: bv5): (ws': seq<bv32>)
    requires k < |ws|
    ensures |ws'| == |ws|
  {
    ws[k := ws[k] | (1 << b)]
  }

  /** Lowers flag `b` of word `k`; on the word this is the source's
      `w & ~(1 << b)` (Words.ClearWord with Words.SingleBit). */
  function ClearAt(ws: seq<bv32>, k: nat, b: bv5): (ws': seq<bv32>)
    requires k < |ws|
    ensures |ws'| == |ws|
  {
    if TestAt(ws, k, b) then ws[k := ws[k] ^ (1 << b)] else ws
  }

  /** The flag of slot `idx`: `is_in_use` masks exactly that one bit. */
  predicate TestBit(ws: seq<bv32>, idx: nat)
    requires InWords(ws, idx)
    ensures TestBit(ws, idx) <==> ws[idx / 32] & (1 << Pos(idx)) == 1 << Pos(idx)
    ensures !TestBit(ws, idx) <==> ws[idx / 32] & (1 << Pos(idx)) == 0
  {
    SingleBit(ws[idx / 32], Pos(idx));
    TestAt(ws, idx / 32, Pos(idx))
  }

  /** `set(idx)`: raises the flag of `idx`, touching only its word. */
  function SetBit(ws: seq<bv32>, idx: nat): (ws': seq<bv32>)
    requires InWords(ws, idx)
    ensures |ws'| == |ws|
    ensures TestBit(ws', idx)
    ensures forall k :: 0 <= k < |ws| && k != idx / 32 ==> ws'[k] == ws[k]
  {
    RaiseWord(ws[idx / 32], Pos(idx), Pos(idx));
    SetAt(ws, idx / 32, Pos(idx))
  }

  /** `unset(idx)`: lowers the flag of `idx` by `&= ~mask` on its word. */
  function ClearBit(ws: seq<bv32>, idx: nat): (ws': seq<bv32>)
    requires InWords(ws, idx)
    ensures |ws'| == |ws|
    ensures !TestBit(ws', idx)
    ensures forall k :: 0 <= k < |ws| && k != idx / 32 ==> ws'[k] == ws[k]
  {
    TestClearAt(ws, idx / 32, Pos(idx), idx / 32, Pos(idx));
    ClearAt(ws, idx / 32, Pos(idx))
  }

  lemma WordOfIndex(idx: nat, words: nat)
    requires idx < 32 * words
    ensures idx / 32 < words
  {
  }

  /** The flags held by the first `n` bit positions of `ws`. */
  function Unpack(ws: seq<bv32>, n: nat): (bits: seq<bool>)
    requires n <= 32 * |ws|
    ensures |bits| == n
  {
    seq(n, i requires 0 <= i < n => WordOfIndex(i, |ws|); TestBit(ws, i))
  }

  /** DataSize(n) words hold every flag of slots 0..n-1, and no word is wasted. */
  lemma DataSizeCovers(n: nat)
    ensures n <= 32 * DataSize(n) < n + 32
    ensures forall idx: nat :: idx < n ==> idx / 32 < DataSize(n)
  {
  }

  /** The scan bound equals the word count, which is smaller than the slot count
      from two slots on: a scan to MaxIndex(n) cannot visit every slot. */
  lemma MaxIndexIsWordCount(n: nat)
    ensures n >= 1 ==> MaxIndex(n) == DataSize(n)
    ensures n >= 2 ==> MaxIndex(n) < n
    ensures n <= 1 ==> MaxIndex(n) == n
  {
  }

  /** Distinct slots have distinct (word, position) addresses. */
  lemma AddressInjective(i: nat, j: nat)
    ensures (i / 32 == j / 32 && Pos(i) == Pos(j)) <==> i == j
  {
    if i / 32 == j / 32 && Pos(i) == Pos(j) {
      assert i % 32 == j % 32;
      assert i == 32 * (i / 32) + i % 32;
    }
  }

  lemma TestSetAt(ws: seq<bv32>, k: nat, b: bv5, k': nat, b': bv5)
    requires k < |ws| && k' < |ws|
    ensures TestAt(SetAt(ws, k, b), k', b') <==> (k == k' && b == b') || TestAt(ws, k', b')
  {
    if k == k' {
      RaiseWord(ws[k], b, b');
    }
  }

  lemma TestClearAt(ws: seq<bv32>, k: nat, b: bv5, k': nat, b': bv5)
    requires k < |ws| && k' < |ws|
    ensures TestAt(ClearAt(ws, k, b), k', b') <==> !(k == k' && b == b') && TestAt(ws, k', b')
  {
    if k == k' && TestAt(ws, k, b) {
      FlipWord(ws[k], b, b');
    }
  }

  /** Setting the bit of `i` raises that flag and leaves every other one. */
  lemma TestSetBit(ws: seq<bv32>, i: nat, j: nat)
    requires InWords(ws, i) && InWords(ws, j)
    ensures TestBit(SetBit(ws, i), j) <==> (j == i || TestBit(ws, j))
  {
    TestSetAt(ws, i / 32, Pos(i), j / 32, Pos(j));
    AddressInjective(i, j);
  }

  /** Clearing the bit of `i` lowers that flag and leaves every other one. */
  lemma TestClearBit(ws: seq<bv32>, i: nat, j: nat)
    requires InWords(ws, i) && InWords(ws, j)
    ensures TestBit(ClearBit(ws, i), j) <==> (j != i && TestBit(ws, j))
  {
    TestClearAt(ws, i / 32, Pos(i), j / 32, Pos(j));
    AddressInjective(i, j);
  }

  /** Viewed as flags, setting a bit is a sequence update. */
  lemma UnpackSetBit(ws: seq<bv32>, n: nat, i: nat)
    requires n <= 32 * |ws| && i < n
    ensures Unpack(SetBit(ws, i), n) == Unpack(ws, n)[i := true]
  {
    WordOfIndex(i, |ws|);
    forall j | 0 <= j < n
      ensures Unpack(SetBit(ws, i), n)[j] == Unpack(ws, n)[i := true][j]
    {
      WordOfIndex(j, |ws|);
      TestSetBit(ws, i, j);
    }
  }

  /** Viewed as flags, clearing a bit is a sequence update. */
  lemma UnpackClearBit(ws: seq<bv32>, n: nat, i: nat)
    requires n <= 32 * |ws| && i < n
    ensures Unpack(ClearBit(ws, i), n) == Unpack(ws, n)[i := false]
  {
    WordOfIndex(i, |ws|);
    forall j | 0 <= j < n
      ensures Unpack(ClearBit(ws, i), n)[j] == Unpack(ws, n)[i := false][j]
    {
      WordOfIndex(j, |ws|);
      TestClearBit(ws, i, j);
    }
  }

  /** All-zero words hold no raised flag. */
  lemma UnpackZeros(n: nat)
    ensures n <= 32 * DataSize(n)
    ensures Unpack(Zeros(n), n) == seq(n, _ => false)
  {
    DataSizeCovers(n);
    forall j | 0 <= j < n
      ensures !TestBit(Zeros(n), j)
    {
      WordOfIndex(j, DataSize(n));
    }
  }
}

/** The two ways the source computes the bit position of a 64-bit index: with
    `idx % 32` in general, and with `idx & 31` when the capacity is a power of
    two. The choice is a speed-up with no observable difference. */
module MaskBranch {

  /** The mask of the general branch: exactly one bit is raised. */
  function MaskModulo(idx: bv64): (m: bv32)
    ensures m != 0 && m & (m - 1) == 0
  {
    1 << ((idx % 32) as bv5)
  }

  /** The mask of the power-of-two branch: the same one-bit mask. */
  function MaskPow2(idx: bv64): (m: bv32)
    ensures m == MaskModulo(idx)
  {
    1 << ((idx & 31) as bv5)
  }

  /** The power-of-two branch and the modulo branch select the same bit
      position, and so build the same mask. */
  lemma MaskBranchAgrees(idx: bv64)
    ensures (idx & 31) as bv5 == (idx % 32) as bv5
    ensures (1 as bv32) << ((idx & 31) as bv5) == (1 as bv32) << ((idx % 32) as bv5)
  {
  }

}
