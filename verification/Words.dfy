/** Machine words as little-endian bit lists, with the bit tricks of extlib/dlmalloc/malloc.c
    (bin maps) and memory/paging_physical.c (page bitmap). Bit i of w is w[i]. */
module Words {
  type Word = seq<bool>

  function And(a: Word, b: Word): (r: Word)
    requires |a| == |b|
    ensures |r| == |a| && forall i | 0 <= i < |r| :: r[i] == (a[i] && b[i])
  {
    seq(|a|, i requires 0 <= i < |a| => a[i] && b[i])
  }

  function Or(a: Word, b: Word): (r: Word)
    requires |a| == |b|
    ensures |r| == |a| && forall i | 0 <= i < |r| :: r[i] == (a[i] || b[i])
  {
    seq(|a|, i requires 0 <= i < |a| => a[i] || b[i])
  }

  function Not(a: Word): (r: Word)
    ensures |r| == |a| && forall i | 0 <= i < |r| :: r[i] == !a[i]
  {
    seq(|a|, i requires 0 <= i < |a| => !a[i])
  }

  /** The word of n bits that is 1 << k; a shift by n or more would lose the bit. */
  function Bit(n: nat, k: nat): (r: Word)
    ensures |r| == n && forall i | 0 <= i < n :: r[i] == (i == k)
  {
    seq(n, i => i == k)
  }

  function Zero(n: nat): (r: Word)
    ensures |r| == n && forall i | 0 <= i < n :: !r[i]
  {
    seq(n, _ => false)
  }

  /** w << 1 within the width of w. */
  function Double(w: Word): (r: Word)
    ensures |r| == |w| && forall i | 0 <= i < |r| :: r[i] == (i > 0 && w[i - 1])
  {
    seq(|w|, i requires 0 <= i < |w| => i > 0 && w[i - 1])
  }

  /** w >> k. */
  function Shr(w: Word, k: nat): (r: Word)
    ensures |r| == |w| && forall i | 0 <= i < |r| :: r[i] == (i + k < |w| && w[i + k])
  {
    seq(|w|, i requires 0 <= i < |w| => i + k < |w| && w[i + k])
  }

  /** w + 1, by ripple carry, wrapping around. */
  function Inc(w: Word): (r: Word)
    ensures |r| == |w|
  {
    if w == [] then [] else if w[0] then [false] + Inc(w[1..]) else [true] + w[1..]
  }

  /** w - 1, by ripple borrow, wrapping around. */
  function Dec(w: Word): (r: Word)
    ensures |r| == |w|
  {
    if w == [] then [] else if w[0] then [false] + w[1..] else [true] + Dec(w[1..])
  }

  /** -w in two's complement. */
  function Neg(w: Word): (r: Word)
    ensures |r| == |w|
  {
    Inc(Not(w))
  }

  /** w << k within the width of w. */
  function Shl(w: Word, k: nat): (r: Word)
    ensures |r| == |w| && forall i | 0 <= i < |r| :: r[i] == (i >= k && w[i - k])
  {
    seq(|w|, i requires 0 <= i < |w| => i >= k && w[i - k])
  }

  /** The low n bits of a number. */
  function FromNat(s: nat, n: nat): (r: Word)
    ensures |r| == n
  {
    if n == 0 then [] else [s % 2 == 1] + FromNat(s / 2, n - 1)
  }

  /** The number a word stands for. */
  function Value(w: Word): nat {
    if w == [] then 0 else (if w[0] then 1 else 0) + 2 * Value(w[1..])
  }

  function Pow2(n: nat): (r: nat)
    ensures r > 0
  {
    if n == 0 then 1 else 2 * Pow2(n - 1)
  }

  lemma {:induction false} ValueBound(w: Word)
    ensures Value(w) < Pow2(|w|)
  {
    if w != [] {
      ValueBound(w[1..]);
    }
  }

  /** Inc and Dec are addition and subtraction of one on the numbers, modulo the width. */
  lemma {:induction false} IncValue(w: Word)
    ensures Value(Inc(w)) == if Value(w) + 1 == Pow2(|w|) then 0 else Value(w) + 1
  {
    if w != [] {
      ValueBound(w);
      assert Inc(w)[1..] == if w[0] then Inc(w[1..]) else w[1..];
      if w[0] {
        IncValue(w[1..]);
      } else {
        ValueBound(w[1..]);
      }
    }
  }

  lemma {:induction false} DecValue(w: Word)
    ensures Value(Dec(w)) == if Value(w) == 0 then Pow2(|w|) - 1 else Value(w) - 1
  {
    if w != [] {
      assert Dec(w)[1..] == if w[0] then w[1..] else Dec(w[1..]);
      if !w[0] {
        DecValue(w[1..]);
      }
    }
  }

  lemma {:induction false} IncBits(w: Word, i: nat)
    requires i < |w|
    ensures Inc(w)[i] == (w[i] != forall k | 0 <= k < i :: w[k])
  {
    if i > 0 {
      var t := w[1..];
      if w[0] {
        IncBits(t, i - 1);
        assert (forall k | 0 <= k < i :: w[k]) <==> (forall k | 0 <= k < i - 1 :: t[k]) by {
          if forall k | 0 <= k < i - 1 :: t[k] {
            forall k | 0 <= k < i ensures w[k] { if k > 0 { assert t[k - 1]; } }
          }
        }
      }
    }
  }

  lemma {:induction false} DecBits(w: Word, i: nat)
    requires i < |w|
    ensures Dec(w)[i] == (w[i] == exists k | 0 <= k < i :: w[k])
  {
    if i > 0 {
      var t := w[1..];
      if !w[0] {
        DecBits(t, i - 1);
        assert (exists k | 0 <= k < i :: w[k]) <==> (exists k | 0 <= k < i - 1 :: t[k]) by {
          if k :| 0 <= k < i && w[k] { assert t[k - 1]; }
        }
      }
    }
  }

  // ----- dlmalloc's bin maps -----

  function LeastBit(x: Word): Word { And(x, Neg(x)) }

  function LeftBits(x: Word): Word { Or(Double(x), Neg(Double(x))) }

  /** Index of the least set bit: count of trailing zeros. */
  function Ctz(w: Word): (r: nat)
    ensures r <= |w|
    ensures forall k | 0 <= k < r :: !w[k]
    ensures r < |w| ==> w[r]
  {
    if w == [] || w[0] then 0
    else
      var r := 1 + Ctz(w[1..]);
      assert forall k | 0 <= k < r :: !w[k] by {
        forall k | 0 <= k < r ensures !w[k] { if k > 0 { assert !w[1..][k - 1]; } }
      }
      r
  }

  lemma CtzZero(w: Word)
    ensures Ctz(w) == |w| <==> w == Zero(|w|)
  {
    if Ctz(w) == |w| { assert w == Zero(|w|); }
  }

  lemma NegBits(w: Word, i: nat)
    requires i < |w|
    ensures Neg(w)[i] == (w[i] != exists k | 0 <= k < i :: w[k])
  {
    var v := Not(w);
    IncBits(v, i);
    if k :| 0 <= k < i && w[k] {
      assert !v[k];
    } else {
      assert forall k | 0 <= k < i :: v[k];
    }
  }

  /** The least bit of a word is its lowest set bit and nothing else. */
  lemma LeastBitIsolates(x: Word)
    ensures Ctz(x) < |x| ==> LeastBit(x) == Bit(|x|, Ctz(x))
    ensures Ctz(LeastBit(x)) == Ctz(x)
  {
    var r := Ctz(x);
    forall i | 0 <= i < |x|
      ensures LeastBit(x)[i] == (i == r)
    {
      NegBits(x, i);
      if i > r { assert x[r]; }
    }
  }

  /** The bits to the left of a single bit are the higher ones. */
  lemma LeftBitsSpec(n: nat, k: nat, i: nat)
    requires i < n
    ensures LeftBits(Bit(n, k))[i] <==> k < i
  {
    var d := Double(Bit(n, k));
    NegBits(d, i);
    if k + 1 < i { assert d[k + 1]; }
  }

  /** Setting and clearing one bit of a bin map. */
  lemma MapBit(w: Word, i: nat)
    requires i < |w|
    ensures Or(w, Bit(|w|, i)) == w[i := true]
    ensures And(w, Not(Bit(|w|, i))) == w[i := false]
  {
  }
}
