/** Which tree bin a size belongs to, and which bit of the size a node at each height looks at
    (extlib/dlmalloc/malloc.c, compute_tree_index and its companions; size_t has 64 bits, int 32). */
module BinIndex {
  import opened Words
  import opened Tries

  const NTREEBINS: nat := 32
  const SIZE_LIMIT: nat := 0x100_0000_0000 // 2^40

  /** Position of the highest set bit. */
  function Log2(x: nat): (k: nat)
    requires x > 0
    ensures Prefix(x, k) == 1
    decreases x
  {
    if x == 1 then 0
    else
      var k := 1 + Log2(x / 2);
      PrefixAdd(x, 1, k - 1);
      k
  }

  lemma {:induction false} PrefixAdd(s: nat, a: nat, b: nat)
    ensures Prefix(s, a + b) == Prefix(Prefix(s, a), b)
  {
    if b > 0 {
      PrefixAdd(s, a, b - 1);
    }
  }

  /** compute_tree_index: the shifted size is narrowed to a 32-bit unsigned. */
  function TreeIndex(s: nat): nat {
    var x := Prefix(s, 8) % 0x1_0000_0000;
    if x == 0 then 0
    else if x > 0xFFFF then NTREEBINS - 1
    else
      var k := Log2(x);
      2 * k + Prefix(s, k + 7) % 2
  }

  /** Number of low bits in which sizes of a bin may differ. */
  function Height(i: nat): nat { if i == NTREEBINS - 1 then 64 else i / 2 + 7 }

  /** The bits above those. */
  function Key(i: nat): nat { if i == NTREEBINS - 1 then 0 else 2 + i % 2 }

  /** leftshift_for_tree_index. */
  function LeftShift(i: nat): nat { if i < NTREEBINS - 1 then 63 - (i / 2 + 6) else 0 }

  lemma {:induction false} PrefixOfSmall(s: nat, w: nat, v: nat)
    requires w <= v && Prefix(s, w) == 0
    ensures Prefix(s, v) == 0
    decreases v
  {
    if w < v {
      PrefixOfSmall(s, w, v - 1);
    }
  }

  lemma {:induction false} PrefixPositive(s: nat, w: nat, v: nat)
    requires w <= v && Prefix(s, v) > 0
    ensures Prefix(s, w) > 0
    decreases v
  {
    if w < v {
      PrefixPositive(s, w, v - 1);
    }
  }

  /** Shifts by the constants that matter, as divisions. */
  lemma Div8(y: nat)
    ensures Prefix(y, 7) == y / 0x80 && Prefix(y, 8) == y / 0x100
  {
    assert Prefix(y, 1) == y / 2;
    assert Prefix(y, 2) == y / 4;
    assert Prefix(y, 4) == y / 0x10;
    assert Prefix(y, 6) == y / 0x40;
    assert Prefix(y, 7) == y / 0x80;
  }

  lemma Div14(y: nat)
    ensures Prefix(y, 14) == y / 0x4000
  {
    Div8(y);
    Div8(y / 0x80);
    PrefixAdd(y, 7, 7);
  }

  lemma Div16(y: nat)
    ensures Prefix(y, 15) == y / 0x8000 && Prefix(y, 16) == y / 0x1_0000
  {
    Div8(y);
    Div8(y / 0x100);
    PrefixAdd(y, 8, 7);
    PrefixAdd(y, 8, 8);
  }

  lemma Div40(y: nat)
    ensures Prefix(y, 40) == y / SIZE_LIMIT
  {
    Div16(y);
    PrefixAdd(y, 16, 16);
    Div16(y / 0x1_0000);
    PrefixAdd(y, 32, 8);
    Div8(y / 0x1_0000_0000);
  }

  lemma Log2Small(x: nat)
    requires x > 0
    ensures Log2(x) >= 16 <==> x > 0xFFFF
    ensures Log2(x) >= 15 <==> x > 0x7FFF
  {
    var k := Log2(x);
    Div16(x);
    if k < 15 { PrefixOfSmall(x, k + 1, 15); }
    if k < 16 { PrefixOfSmall(x, k + 1, 16); }
    if k >= 15 { PrefixPositive(x, 15, k); }
    if k >= 16 { PrefixPositive(x, 16, k); }
  }

  /** The shifted size and its leading bits, for a size that a tree bin may hold. */
  lemma LeadingBits(s: nat) returns (x: nat, k: nat)
    requires 256 <= s < SIZE_LIMIT
    ensures x == Prefix(s, 8) && 0 < x < 0x1_0000_0000
    ensures k == Log2(x) && k < 32 && Prefix(s, k + 8) == 1
    ensures x > 0xFFFF <==> k >= 16
    ensures Prefix(s, 64) == 0
  {
    x := Prefix(s, 8);
    Div8(s);
    k := Log2(x);
    PrefixAdd(s, 8, k);
    Div40(s);
    PrefixOfSmall(s, 40, 64);
    if k >= 32 { PrefixOfSmall(s, 40, k + 8); }
    Log2Small(x);
  }

  lemma TreeIndexIs(s: nat) returns (k: nat)
    requires 256 <= s < SIZE_LIMIT
    ensures Prefix(s, k + 8) == 1 && Prefix(s, 64) == 0
    ensures TreeIndex(s) == if k < 16 then 2 * k + Prefix(s, k + 7) % 2 else NTREEBINS - 1
  {
    var x;
    x, k := LeadingBits(s);
    assert x % 0x1_0000_0000 == x;
  }

  /** The index places a size in the bin whose sizes share its leading bits. */
  lemma TreeIndexSpec(s: nat)
    requires 256 <= s < SIZE_LIMIT
    ensures TreeIndex(s) < NTREEBINS && Prefix(s, Height(TreeIndex(s))) == Key(TreeIndex(s))
    ensures TreeIndex(s) == NTREEBINS - 1 <==> Prefix(s, 22) >= 3
    ensures TreeIndex(s) < NTREEBINS - 1 ==> Prefix(s, TreeIndex(s) / 2 + 8) == 1
  {
    var k := TreeIndexIs(s);
    if k < 16 {
      var bit := Prefix(s, k + 7) % 2;
      Halves(k, bit);
      LastBin(s, k);
      assert Prefix(s, k + 7) == 2 + bit;
    } else {
      PrefixAdd(s, 22, k + 8 - 22);
      PrefixOfTwo(Prefix(s, 22), k - 14);
    }
  }

  lemma Halves(k: nat, bit: nat)
    requires bit < 2
    ensures (2 * k + bit) / 2 == k && (2 * k + bit) % 2 == bit
  {
  }

  lemma LastBin(s: nat, k: nat)
    requires k < 16 && Prefix(s, k + 8) == 1
    ensures Prefix(s, 22) >= 3 <==> k == 15 && Prefix(s, k + 7) % 2 == 1
  {
    if k < 15 {
      PrefixOfSmall(s, k + 9, 23);
      assert Prefix(s, 23) == 0;
    }
  }

  lemma {:induction false} PrefixOfTwo(y: nat, w: nat)
    requires w >= 2 && Prefix(y, w) == 1
    ensures y >= 4
  {
    assert Prefix(y, 1) == y / 2;
    PrefixPositive(y, 2, w);
  }

  /** A bin of smaller index holds only smaller sizes. */
  lemma BinOrder(s: nat, z: nat)
    requires 256 <= s < SIZE_LIMIT && 256 <= z < SIZE_LIMIT && TreeIndex(s) < TreeIndex(z)
    ensures s < z
  {
    var i, j := TreeIndex(s), TreeIndex(z);
    TreeIndexSpec(s);
    TreeIndexSpec(z);
    if j == NTREEBINS - 1 {
      PrefixOrder(s, z, 22);
    } else if i / 2 == j / 2 {
      PrefixOrder(s, z, i / 2 + 7);
    } else {
      PrefixOfSmall(s, i / 2 + 9, j / 2 + 8);
      PrefixOrder(s, z, j / 2 + 8);
    }
  }

  /** Past 2^40 the narrowing drops the leading bits: the index is still right exactly when the low
      32 bits of the shifted size reach the last bin on their own. */
  lemma TreeIndexOfHugeSizes(s: nat)
    requires s >= SIZE_LIMIT
    ensures TreeIndex(s) == NTREEBINS - 1 <==> Prefix(s, 8) % 0x1_0000_0000 >= 0xC000
    ensures TreeIndex(SIZE_LIMIT) == 0
  {
    hide Prefix, Log2;
    IndexAtLimit();
    var x := Prefix(s, 8) % 0x1_0000_0000;
    if 0 < x <= 0xFFFF {
      NarrowIndex(s, x);
    }
  }

  lemma IndexAtLimit()
    ensures TreeIndex(SIZE_LIMIT) == 0
  {
    hide Prefix, Log2;
    Div8(SIZE_LIMIT);
  }

  lemma NarrowIndex(s: nat, x: nat)
    requires x == Prefix(s, 8) % 0x1_0000_0000 && 0 < x <= 0xFFFF
    ensures 2 * Log2(x) + Prefix(s, Log2(x) + 7) % 2 == NTREEBINS - 1 <==> x >= 0xC000
  {
    var k := Log2(x);
    Log2Small(x);
    if k == 15 {
      Div14(x);
      LowBits(s, x);
    }
  }

  lemma LowBits(s: nat, x: nat)
    requires x == Prefix(s, 8) % 0x1_0000_0000
    ensures Prefix(s, 22) % 2 == Prefix(x, 14) % 2
  {
    PrefixAdd(s, 8, 14);
    var y := Prefix(s, 8);
    Div14(y);
    Div14(x);
    assert y / 0x4000 == x / 0x4000 + (y / 0x1_0000_0000) * 0x40000;
  }

  // ----- the register that walks down the bits -----

  lemma {:induction false} FromNatBit(s: nat, n: nat, i: nat)
    requires i < n
    ensures FromNat(s, n)[i] <==> Prefix(s, i) % 2 == 1
  {
    if i > 0 {
      FromNatBit(s / 2, n - 1, i - 1);
      PrefixAdd(s, 1, i - 1);
    }
  }

  /** At height h the sign bit of the shifted size is the bit that selects the side. */
  lemma SignBit(s: nat, h: nat)
    requires 0 < h <= 64
    ensures Shl(FromNat(s, 64), 64 - h)[63] <==> Side(s, h) == 1
    ensures Double(Shl(FromNat(s, 64), 64 - h)) == Shl(FromNat(s, 64), 64 - (h - 1))
  {
    FromNatBit(s, 64, h - 1);
  }

  /** The index is that of a bin, also for sizes that are narrowed. */
  lemma TreeIndexBound(s: nat)
    ensures TreeIndex(s) < NTREEBINS
  {
    var x := Prefix(s, 8) % 0x1_0000_0000;
    if 0 < x <= 0xFFFF { Log2Small(x); }
  }

  lemma LeftShiftHeight(i: nat)
    requires i < NTREEBINS
    ensures LeftShift(i) == 64 - Height(i) && Height(i) <= 64
  {
  }
}
