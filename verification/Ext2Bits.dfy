/**
 Bitmaps as libkosext2fs keeps them: tables of 32-bit words, with the bit operations of
 utils.h and the word-skipping search of bitops.c.
 */
module Ext2Bits {
  const FULL_WORD := 0xFFFF_FFFF

  /** Bit `j` of a word: `w & (1u << j)`. */
  predicate Bit(w: nat, j: nat)
  {
    if j == 0 then w % 2 == 1 else Bit(w / 2, j - 1)
  }

  function Pow2(k: nat): (r: nat)
    ensures r >= 1
  {
    if k == 0 then 1 else 2 * Pow2(k - 1)
  }

  /** `w | 1 << j`, for one of the low `k` bits. */
  function WithBit(w: nat, j: nat): (r: nat)
  {
    if j == 0 then w / 2 * 2 + 1 else WithBit(w / 2, j - 1) * 2 + w % 2
  }

  /** `w & ~(1 << j)`. */
  function WithoutBit(w: nat, j: nat): (r: nat)
  {
    if j == 0 then w / 2 * 2 else WithoutBit(w / 2, j - 1) * 2 + w % 2
  }

  lemma {:induction false} WithBitIs(w: nat, j: nat, k: nat)
    ensures Bit(WithBit(w, j), k) == (k == j || Bit(w, k))
  {
    if j > 0 && k > 0 { WithBitIs(w / 2, j - 1, k - 1); }
  }

  lemma {:induction false} WithoutBitIs(w: nat, j: nat, k: nat)
    ensures Bit(WithoutBit(w, j), k) == (k != j && Bit(w, k))
  {
    if j > 0 && k > 0 { WithoutBitIs(w / 2, j - 1, k - 1); }
  }

  /** Neither leaves 32 bits. */
  lemma {:induction false} StaysAWord(w: nat, j: nat, n: nat)
    requires w < Pow2(n) && j < n
    ensures WithBit(w, j) < Pow2(n) && WithoutBit(w, j) < Pow2(n)
  {
    var low := w % 2;
    assert w == 2 * (w / 2) + low;
    assert Pow2(n) == 2 * Pow2(n - 1);
    if j > 0 {
      Halved(w / 2, Pow2(n - 1), low);
      StaysAWord(w / 2, j - 1, n - 1);
      Doubled(WithBit(w / 2, j - 1), Pow2(n - 1), low);
      Doubled(WithoutBit(w / 2, j - 1), Pow2(n - 1), low);
    } else {
      Halved(w / 2, Pow2(n - 1), low);
    }
  }

  lemma Halved(h: nat, p: nat, low: nat)
    requires 2 * h + low < 2 * p
    ensures h < p
  {
  }

  lemma Doubled(h: nat, p: nat, low: nat)
    requires h < p && low < 2
    ensures h * 2 + low < 2 * p
  {
  }

  lemma Pow2Of32()
    ensures Pow2(32) == FULL_WORD + 1
  {
    assert Pow2(8) == 256;
    assert Pow2(16) == 65536;
    assert Pow2(24) == 16777216;
  }

  /** A word of ones has no clear bit, so it may be skipped. */
  lemma {:induction false} AllOnes(w: nat, k: nat, j: nat)
    requires w == Pow2(k) - 1 && j < k
    ensures Bit(w, j)
  {
    if j > 0 { AllOnes(w / 2, k - 1, j - 1); }
  }

  // ---------------------------------------------------------------- tables

  /** ext2_bit_is_set. */
  predicate IsSet(t: seq<nat>, i: nat)
    requires i < 32 * |t|
  {
    Bit(t[i / 32], i % 32)
  }

  /** The bits of a table. */
  ghost function Bits(t: seq<nat>): (r: seq<bool>)
    ensures |r| == 32 * |t| && forall i :: 0 <= i < |r| ==> r[i] == IsSet(t, i)
  {
    seq(32 * |t|, i requires 0 <= i < 32 * |t| => IsSet(t, i))
  }

  /** ext2_bit_set. */
  function SetBit(t: seq<nat>, i: nat): (r: seq<nat>)
    requires i < 32 * |t|
    ensures |r| == |t| && Bits(r) == Bits(t)[i := true]
  {
    var r := t[i / 32 := WithBit(t[i / 32], i % 32)];
    SetBitIs(t, i, r);
    r
  }

  lemma SetBitIs(t: seq<nat>, i: nat, r: seq<nat>)
    requires i < 32 * |t| && r == t[i / 32 := WithBit(t[i / 32], i % 32)]
    ensures Bits(r) == Bits(t)[i := true]
  {
    forall k | 0 <= k < 32 * |t|
      ensures IsSet(r, k) == (k == i || IsSet(t, k))
    {
      SamePlace(i, k);
      WithBitIs(t[i / 32], i % 32, k % 32);
    }
  }

  lemma SamePlace(i: nat, k: nat)
    ensures i / 32 == k / 32 && i % 32 == k % 32 ==> i == k
  {
  }

  /** ext2_bit_clear. */
  function ClearBit(t: seq<nat>, i: nat): (r: seq<nat>)
    requires i < 32 * |t|
    ensures |r| == |t| && Bits(r) == Bits(t)[i := false]
  {
    var r := t[i / 32 := WithoutBit(t[i / 32], i % 32)];
    ClearBitIs(t, i, r);
    r
  }

  lemma ClearBitIs(t: seq<nat>, i: nat, r: seq<nat>)
    requires i < 32 * |t| && r == t[i / 32 := WithoutBit(t[i / 32], i % 32)]
    ensures Bits(r) == Bits(t)[i := false]
  {
    forall k | 0 <= k < 32 * |t|
      ensures IsSet(r, k) == (k != i && IsSet(t, k))
    {
      SamePlace(i, k);
      WithoutBitIs(t[i / 32], i % 32, k % 32);
    }
  }

  /** Bits `from` up to `end` are set. */
  ghost predicate AllSet(t: seq<nat>, from: nat, end: int)
  {
    forall i :: from <= i < end ==> i < 32 * |t| && IsSet(t, i)
  }

  /** The inner loop: the first clear bit of a word from `j` up to `end`; 32 when there is none. */
  method FirstClear(w: nat, j: nat, end: nat) returns (r: nat)
    requires j <= 32 && end <= 32
    ensures r < 32 ==> j <= r < end && !Bit(w, r)
    ensures forall k :: j <= k < (if r < 32 then r else end) ==> Bit(w, k)
  {
    r := j;
    if w == FULL_WORD {
      Pow2Of32();
      forall k | 0 <= k < 32
        ensures Bit(w, k)
      {
        AllOnes(w, 32, k);
      }
      return 32;
    }
    while r < end
      invariant j <= r && forall k :: j <= k < r ==> Bit(w, k)
    {
      if !Bit(w, r) { return; }
      r := r + 1;
    }
    r := 32;
  }

  /**
   ext2_bit_find_zero: the first clear bit from `start` up to but not including `end`, and
   `end + 1` when there is none.
   */
  method FindZero(t: seq<nat>, start: nat, end: nat) returns (r: nat)
    requires end <= 32 * |t|
    ensures r == end + 1 || (start <= r < end && !IsSet(t, r))
    ensures AllSet(t, start, if r == end + 1 then end else r)
  {
    var i, j, b := start / 32, start % 32, 32;
    while end / 32 > i
      invariant start / 32 <= i && 32 * i + j >= start && j < 32 && (end / 32 < i ==> i == start / 32)
      invariant i > start / 32 ==> j == 0
      invariant i == start / 32 ==> j == start % 32
      invariant AllSet(t, start, if i <= end / 32 then 32 * i + j else start)
    {
      b := FirstClear(t[i], j, 32);
      Within(t, start, i, j, if b < 32 then b else 32);
      if b < 32 { return 32 * i + b; }
      i, j := i + 1, 0;
    }
    if end / 32 == i && end % 32 != 0 {
      b := FirstClear(t[i], j, end % 32);
      Within(t, start, i, j, if b < 32 then b else end % 32);
      if b < 32 { return 32 * i + b; }
    }
    r := end + 1;
  }

  /** What is known of one word continues what is known of the table before it. */
  lemma Within(t: seq<nat>, start: nat, i: nat, j: nat, b: nat)
    requires i < |t| && j < 32 && b <= 32 && AllSet(t, start, 32 * i + j)
    requires forall k :: j <= k < b ==> Bit(t[i], k)
    ensures AllSet(t, start, 32 * i + b)
  {
    forall k | start <= k < 32 * i + b
      ensures IsSet(t, k)
    {
      if k >= 32 * i + j { assert k / 32 == i && k % 32 == k - 32 * i; }
    }
  }
}
