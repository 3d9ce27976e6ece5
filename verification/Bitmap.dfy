/** Range writes in the page bitmap (memory/paging_physical.c, fillBits and BitmapWriteOne/Zero). */
module Bitmap {
  import opened Words

  const BITS: nat := 64 // BITMAP_BITS

  ghost predicate WellFormed(b: seq<Word>) { forall i | 0 <= i < |b| :: |b[i]| == BITS }

  /** Frame k is marked allocated. */
  ghost predicate Used(b: seq<Word>, k: nat) { k / BITS < |b| && k % BITS < |b[k / BITS]| && b[k / BITS][k % BITS] }

  /** fillBits; last may be -1. */
  function FillBits(begin: nat, last: int): Word
    requires begin < BITS && -1 <= last < BITS
  {
    if last == BITS - 1 then Not(Dec(Bit(BITS, begin)))
    else if begin == 0 then Dec(Bit(BITS, last + 1))
    else And(Not(Dec(Bit(BITS, begin))), Dec(Bit(BITS, last + 1)))
  }

  /** 1 << k, less one, is the k low bits. */
  lemma LowBits(k: nat, i: nat)
    requires i < BITS
    ensures Dec(Bit(BITS, k))[i] <==> i < k || k >= BITS
  {
    DecBits(Bit(BITS, k), i);
    if k < i { assert Bit(BITS, k)[k]; }
  }

  lemma FillBitsSpec(begin: nat, last: int, i: nat)
    requires begin < BITS && -1 <= last < BITS && i < BITS
    ensures |FillBits(begin, last)| == BITS && (FillBits(begin, last)[i] <==> begin <= i <= last)
  {
    LowBits(begin, i);
    LowBits(last + 1, i);
  }

  // ----- the words a range write touches -----

  /** C division and remainder of end - 1 by the word size. */
  function LastWord(end: nat): nat { if end == 0 then 0 else (end - 1) / BITS }

  function LastBit(end: nat): int { if end == 0 then -1 else (end - 1) % BITS }

  /** What the write ors into (or clears from) word i. */
  function Mask(begin: nat, end: nat, i: nat): Word {
    var first, last := begin / BITS, LastWord(end);
    if first == last then if i == first then FillBits(begin % BITS, LastBit(end)) else Zero(BITS)
    else if i == first then FillBits(begin % BITS, BITS - 1)
    else if i == last then FillBits(0, LastBit(end))
    else if first < i < last then Not(Zero(BITS))
    else Zero(BITS)
  }

  /** A range that starts and ends at the same word boundary, other than 0, is not empty to the code. */
  predicate Misread(begin: nat, end: nat) { begin == end && begin % BITS == 0 && begin > 0 }

  lemma MaskSpec(begin: nat, end: nat, k: nat)
    requires begin <= end
    ensures |Mask(begin, end, k / BITS)| == BITS
    ensures Mask(begin, end, k / BITS)[k % BITS] <==>
            if Misread(begin, end) then k / BITS == begin / BITS || k / BITS == begin / BITS - 1 else begin <= k < end
  {
    var i, j := k / BITS, k % BITS;
    FillBitsSpec(begin % BITS, LastBit(end), j);
    FillBitsSpec(begin % BITS, BITS - 1, j);
    FillBitsSpec(0, LastBit(end), j);
  }

  function Written(b: seq<Word>, begin: nat, end: nat, one: bool): (r: seq<Word>)
    requires forall i | 0 <= i < |b| :: |b[i]| == BITS
  {
    seq(|b|, i requires 0 <= i < |b| =>
      var m := Mask(begin, end, i);
      if |m| != BITS then b[i] else if one then Or(b[i], m) else And(b[i], Not(m)))
  }

  lemma WrittenAt(b: seq<Word>, begin: nat, end: nat, one: bool, k: nat)
    requires WellFormed(b) && begin <= end && k < BITS * |b|
    ensures WellFormed(Written(b, begin, end, one))
    ensures Used(Written(b, begin, end, one), k) <==> if Mask(begin, end, k / BITS)[k % BITS] then one else Used(b, k)
    ensures |Mask(begin, end, k / BITS)| == BITS
  {
    var r := Written(b, begin, end, one);
    forall i | 0 <= i < |b|
      ensures |r[i]| == BITS
    {
      MaskSpec(begin, end, i * BITS);
    }
    MaskSpec(begin, end, k);
  }

  /** The write sets (or clears) exactly the bits of the range. */
  ghost predicate WritesRange(b: seq<Word>, begin: nat, end: nat, one: bool) 
    requires WellFormed(b)
  {
    forall k: nat :: k < BITS * |b| ==> (Used(Written(b, begin, end, one), k) <==> if begin <= k < end then one else Used(b, k))
  }

  lemma RangeWritten(b: seq<Word>, begin: nat, end: nat, one: bool)
    requires WellFormed(b) && begin <= end && !Misread(begin, end)
    ensures WellFormed(Written(b, begin, end, one)) && WritesRange(b, begin, end, one)
  {
    forall k: nat | k < BITS * |b|
      ensures Used(Written(b, begin, end, one), k) <==> if begin <= k < end then one else Used(b, k)
    {
      WrittenAt(b, begin, end, one, k);
      MaskSpec(begin, end, k);
    }
    if b != [] { WrittenAt(b, begin, end, one, 0); }
  }

  /** Range writes are right on every bitmap of n words exactly when the code does not misread the
      range: an empty range at a word boundary overwrites the words on both sides of it. */
  lemma RangeWriteIff(n: nat, begin: nat, end: nat, one: bool)
    requires begin <= end <= BITS * n && begin < BITS * n
    ensures (forall b | WellFormed(b) && |b| == n :: WritesRange(b, begin, end, one)) <==> !Misread(begin, end)
  {
    if Misread(begin, end) {
      var b := seq(n, _ => if one then Zero(BITS) else Not(Zero(BITS)));
      assert WellFormed(b);
      WrittenAt(b, begin, end, one, begin);
      MaskSpec(begin, end, begin);
      assert !WritesRange(b, begin, end, one);
    } else {
      forall b | WellFormed(b) && |b| == n ensures WritesRange(b, begin, end, one) { RangeWritten(b, begin, end, one); }
    }
  }
}
