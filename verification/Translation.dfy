/** The address translation of the processor in numbers, bit field by bit field (Intel SDM volume 3A,
    section 4.5), and its agreement with the walk over words that the page tables are proved about. */
module Translation {
  import opened Words
  import opened PageEntry
  import opened PageTables

  // ----- the bits of a number -----

  lemma Quotient(n: int, d: int, q: int, r: int)
    requires d > 0 && n == d * q + r && 0 <= r < d
    ensures n / d == q && n % d == r
  {
    var k := n / d - q;
    assert n == d * (n / d) + n % d;
    assert d * k == d * (n / d) - d * q;
    Multiple(d, k);
  }

  lemma Multiple(d: int, k: int)
    requires d > 0
    ensures (k > 0 ==> d * k >= d) && (k < 0 ==> d * k <= -d)
  {
  }

  /** Dropping the lowest bit. */
  lemma Halved(b: nat, x: nat, p: nat)
    requires b < 2 && p > 0
    ensures (b + 2 * x) / (2 * p) == x / p && (b + 2 * x) % (2 * p) == b + 2 * (x % p)
  {
    var q, r := x / p, x % p;
    assert x == p * q + r;
    assert b + 2 * x == (2 * p) * q + (b + 2 * r);
    Quotient(b + 2 * x, 2 * p, q, b + 2 * r);
  }

  lemma {:induction false} ValueBit(w: Word, i: nat)
    requires i < |w|
    ensures w[i] <==> Value(w) / Pow2(i) % 2 == 1
  {
    hide Value, Pow2;
    ValueParts(w);
    PowStep(i);
    if i > 0 {
      ValueBit(w[1..], i - 1);
      Halved(if w[0] then 1 else 0, Value(w[1..]), Pow2(i - 1));
    }
  }

  /** The bits lo to hi - 1 of a word, where they are. */
  function Field(w: Word, lo: nat, hi: nat): (r: Word)
    ensures |r| == |w|
  {
    seq(|w|, i requires 0 <= i < |w| => w[i] && lo <= i < hi)
  }

  lemma FieldTail(w: Word, lo: nat, hi: nat)
    requires w != []
    ensures Field(w, lo, hi)[1..] == Field(w[1..], if lo == 0 then 0 else lo - 1, if hi == 0 then 0 else hi - 1)
    ensures Field(w, lo, hi)[0] <==> w[0] && lo == 0 < hi
  {
  }

  lemma ValueParts(w: Word)
    ensures if w == [] then Value(w) == 0 else Value(w) == (if w[0] then 1 else 0) + 2 * Value(w[1..])
  {
  }

  lemma Shifted(b: nat, x: nat, p: nat, q: nat)
    requires b < 2 && p > 0 && q > 0
    ensures 2 * (x / p % q * p) == (b + 2 * x) / (2 * p) % q * (2 * p)
  {
    Halved(b, x, p);
  }

  lemma {:induction false} FieldValue(w: Word, lo: nat, hi: nat)
    requires lo <= hi
    ensures Value(Field(w, lo, hi)) == Value(w) / Pow2(lo) % Pow2(hi - lo) * Pow2(lo)
  {
    hide Field, Value, Pow2;
    ValueParts(w);
    ValueParts(Field(w, lo, hi));
    if w == [] {
      Quotient(0, Pow2(lo), 0, 0);
      Quotient(0, Pow2(hi - lo), 0, 0);
    } else {
      var b, t, v := if w[0] then 1 else 0, w[1..], Value(w[1..]);
      FieldTail(w, lo, hi);
      if lo > 0 {
        FieldValue(t, lo - 1, hi - 1);
        PowStep(lo);
        Shifted(b, v, Pow2(lo - 1), Pow2(hi - lo));
      } else if hi > 0 {
        FieldValue(t, 0, hi - 1);
        PowStep(0);
        PowStep(hi);
        Halved(b, v, Pow2(hi - 1));
      } else {
        FieldValue(t, 0, 0);
        PowStep(0);
      }
    }
  }

  lemma PowStep(k: nat)
    ensures if k == 0 then Pow2(k) == 1 else Pow2(k) == 2 * Pow2(k - 1)
  {
  }

  lemma FieldIsMasked(e: Word, low: nat)
    requires |e| == 64
    ensures And(e, AddrMask(low)) == Field(e, low, 52)
  {
  }

  /** The bit fields of an entry as the code's and the processor's masks read them. */
  lemma EntryNumbers(e: Word)
    requires |e| == 64
    ensures (IsPresent(e) <==> Value(e) % 2 == 1) && (IsWriteable(e) <==> Value(e) / 2 % 2 == 1)
    ensures (IsBig(e) <==> Value(e) / 128 % 2 == 1) && (IsNoExecute(e) <==> Value(e) / 0x8000_0000_0000_0000 % 2 == 1)
    ensures Addr(e, 12) == Value(e) / 0x1000 % 0x100_0000_0000 * 0x1000
    ensures Addr(e, 21) == Value(e) / 0x20_0000 % 0x8000_0000 * 0x20_0000
    ensures Addr(e, 30) == Value(e) / 0x4000_0000 % 0x40_0000 * 0x4000_0000
  {
    hide Value, Field, AddrMask, Pow2;
    Powers();
    BitNumber(e, 0, 1);
    BitNumber(e, 1, 2);
    BitNumber(e, 7, 128);
    BitNumber(e, 63, 0x8000_0000_0000_0000);
    AddrNumber(e, 12, 0x1000, 0x100_0000_0000);
    AddrNumber(e, 21, 0x20_0000, 0x8000_0000);
    AddrNumber(e, 30, 0x4000_0000, 0x40_0000);
  }

  lemma BitNumber(e: Word, i: nat, p: nat)
    requires i < |e| && p == Pow2(i)
    ensures p > 0 && (e[i] <==> Value(e) / p % 2 == 1)
  {
    ValueBit(e, i);
  }

  lemma AddrNumber(e: Word, low: nat, p: nat, q: nat)
    requires |e| == 64 && low <= 52 && p == Pow2(low) && q == Pow2(52 - low)
    ensures p > 0 && q > 0 && Addr(e, low) == Value(e) / p % q * p
  {
    hide Value, Field, AddrMask, Pow2;
    FieldIsMasked(e, low);
    FieldValue(e, low, 52);
  }

  lemma {:induction false} PowSum(a: nat, b: nat)
    ensures Pow2(a + b) == Pow2(a) * Pow2(b)
  {
    if a > 0 { PowSum(a - 1, b); }
  }

  lemma Powers()
    ensures Pow2(0) == 1 && Pow2(1) == 2 && Pow2(7) == 128 && Pow2(12) == 0x1000 && Pow2(21) == 0x20_0000 && Pow2(22) == 0x40_0000
    ensures Pow2(30) == 0x4000_0000 && Pow2(31) == 0x8000_0000 && Pow2(40) == 0x100_0000_0000 && Pow2(63) == 0x8000_0000_0000_0000
  {
    PageSizes();
    assert Pow2(7) == 128;
    assert Pow2(10) == 1024;
    PowSum(10, 30);
    PowSum(1, 21);
    PowSum(1, 30);
    PowSum(21, 42);
    PowSum(21, 21);
  }

  // ----- entries as they are stored -----

  lemma {:induction false} SetBit(w: Word, k: nat)
    requires k < |w| && !w[k]
    ensures Value(w[k := true]) == Value(w) + Pow2(k)
  {
    if k > 0 {
      SetBit(w[1..], k - 1);
      assert w[k := true][1..] == w[1..][k - 1 := true];
    }
  }

  /** What the code stores: the address with the bits for present, writeable, big and no execution. */
  lemma StoredEntry(physical: nat, big: bool, write: bool, noExecute: bool)
    requires physical % 4096 == 0 && physical < 0x10_0000_0000_0000
    ensures Value(MakeEntry(physical, big, write, noExecute)) ==
            physical + 1 + (if write then 2 else 0) + (if big then 128 else 0) + (if noExecute then 0x8000_0000_0000_0000 else 0)
  {
    hide MakeEntry, Value, FromNat, Pow2;
    var a := FromNat(physical, 64);
    Powers();
    AddressBits(physical);
    FlagsSet(physical, big, write, noExecute);
    var b := a[0 := true];
    var c := if write then b[1 := true] else b;
    var d := if big then c[7 := true] else c;
    SetBit(a, 0);
    SetBit(b, 1);
    SetBit(c, 7);
    SetBit(d, 63);
  }

  lemma AddressBits(physical: nat)
    requires physical % 4096 == 0 && physical < 0x10_0000_0000_0000
    ensures var a := FromNat(physical, 64); Value(a) == physical && !a[0] && !a[1] && !a[7] && !a[63]
  {
    hide Value, FromNat, Pow2;
    PageSizes();
    FromNatLow(physical, 64, 12, physical / 4096, 0);
    FromNatLow(physical, 64, 12, physical / 4096, 1);
    FromNatLow(physical, 64, 12, physical / 4096, 7);
    FromNatHigh(physical, 64, 52, 63);
    PowMono(52, 64);
    ValueFromNat(physical, 64);
  }

  lemma FlagsSet(physical: nat, big: bool, write: bool, noExecute: bool)
    ensures var b := FromNat(physical, 64)[0 := true];
            var c := if write then b[1 := true] else b;
            var d := if big then c[7 := true] else c;
            MakeEntry(physical, big, write, noExecute) == if noExecute then d[63 := true] else d
  {
    hide MakeEntry, FromNat;
    EntryBits(physical, big, write, noExecute);
  }

  // ----- translation of a byte address -----

  datatype Access = Fault | Physical(address: nat, write: bool, noExecute: bool)

  /** Entry i of the table at a physical address; nothing is present where there is no table. */
  function EntryAt(m: Memory, table: nat, i: nat): nat {
    if table / 4096 in m && |m[table / 4096]| == 512 && i < 512 && |m[table / 4096][i]| == 64 then Value(m[table / 4096][i]) else 0
  }

  /** Bits 51 to 12. */
  function NextTable(e: nat): nat { e / 0x1000 % 0x100_0000_0000 * 0x1000 }

  predicate Writes(e: nat) { e / 2 % 2 == 1 }

  predicate Forbids(e: nat) { e / 0x8000_0000_0000_0000 % 2 == 1 }

  /** The four tables are indexed by bits 47 to 39, 38 to 30, 29 to 21 and 20 to 12 of the address. */
  function Translate(m: Memory, cr3: nat, a: nat): Access {
    var e4 := EntryAt(m, cr3, a / 0x80_0000_0000 % 512);
    if e4 % 2 == 0 then Fault
    else
      var e3 := EntryAt(m, NextTable(e4), a / 0x4000_0000 % 512);
      var w3, x3 := Writes(e4) && Writes(e3), Forbids(e4) || Forbids(e3);
      if e3 % 2 == 0 then Fault
      else if e3 / 128 % 2 == 1 then Physical(e3 / 0x4000_0000 % 0x40_0000 * 0x4000_0000 + a % 0x4000_0000, w3, x3)
      else
        var e2 := EntryAt(m, NextTable(e3), a / 0x20_0000 % 512);
        var w2, x2 := w3 && Writes(e2), x3 || Forbids(e2);
        if e2 % 2 == 0 then Fault
        else if e2 / 128 % 2 == 1 then Physical(e2 / 0x20_0000 % 0x8000_0000 * 0x20_0000 + a % 0x20_0000, w2, x2)
        else
          var e1 := EntryAt(m, NextTable(e2), a / 0x1000 % 512);
          if e1 % 2 == 0 then Fault
          else Physical(e1 / 0x1000 % 0x100_0000_0000 * 0x1000 + a % 0x1000, w2 && Writes(e1), x2 || Forbids(e1))
  }

  /** The fields of an address are those of its page. */
  lemma Fields(a: nat)
    ensures var v := a / 4096;
            && Index(v, 4) == a / 0x80_0000_0000 % 512 && Index(v, 3) == a / 0x4000_0000 % 512
            && Index(v, 2) == a / 0x20_0000 % 512 && Index(v, 1) == a / 0x1000 % 512
  {
    hide Up;
    var v := a / 4096;
    Ups(v);
    Divided(a, 4096, 512);
    Divided(a, 0x20_0000, 512);
    Divided(a, 0x4000_0000, 512);
  }

  lemma Ups(v: nat)
    ensures Up(v, 0) == v && Up(v, 1) == v / 512 && Up(v, 2) == v / 512 / 512 && Up(v, 3) == v / 512 / 512 / 512
  {
    assert Up(v, 1) == Up(v, 0) / 512;
    assert Up(v, 2) == Up(v, 1) / 512;
  }

  lemma Divided(a: nat, c: nat, d: nat)
    requires c > 0 && d > 0
    ensures c * d > 0 && a / c / d == a / (c * d)
  {
    var q := a / c;
    var r, t := a % c, q % d;
    assert a == c * q + r && q == d * (q / d) + t;
    assert a == c * (d * (q / d) + t) + r == (c * d) * (q / d) + (c * t + r);
    assert c * t <= c * (d - 1);
    Quotient(a, c * d, q / d, c * t + r);
  }

  /** One level of the walk in numbers. */
  lemma LevelNumbers(m: Memory, f: nat, l: nat, a: nat)
    requires 1 <= l <= 4
    ensures var v := a / 4096;
            var e, r := EntryAt(m, f * 4096, Index(v, l)), Walk(m, f, l, v);
            && (e % 2 == 0 ==> r == Unmapped)
            && (e % 2 == 1 && (l == 1 || (l <= 3 && e / 128 % 2 == 1)) ==>
                  r.Mapped? && r.write == Writes(e) && r.noExecute == Forbids(e) && r.frame * 4096 + a % 4096 == LeafAddress(e, l, a))
            && (e % 2 == 1 && (l == 4 || (l > 1 && e / 128 % 2 == 0)) ==>
                  r == Combined(Walk(m, NextTable(e) / 4096, l - 1, v), Writes(e), Forbids(e)))
  {
    hide Value, Addr, Index, Up;
    var v := a / 4096;
    assert f * 4096 / 4096 == f;
    if f in m && |m[f]| == 512 && |m[f][Index(v, l)]| == 64 {
      var e := m[f][Index(v, l)];
      EntryNumbers(e);
      LeafNumbers(Value(e), l, a);
    }
  }

  /** The byte address that a leaf entry of a level gives. */
  function LeafAddress(e: nat, l: nat, a: nat): nat {
    if l == 1 then e / 0x1000 % 0x100_0000_0000 * 0x1000 + a % 0x1000
    else if l == 2 then e / 0x20_0000 % 0x8000_0000 * 0x20_0000 + a % 0x20_0000
    else e / 0x4000_0000 % 0x40_0000 * 0x4000_0000 + a % 0x4000_0000
  }

  function Combined(r: Mapping, write: bool, noExecute: bool): Mapping {
    if r.Unmapped? then r else Mapped(r.frame, r.size, r.write && write, r.noExecute || noExecute)
  }

  lemma LeafNumbers(e: nat, l: nat, a: nat)
    requires 1 <= l <= 4
    ensures var base := if l == 1 then e / 0x1000 % 0x100_0000_0000 * 0x1000
                        else if l == 2 then e / 0x20_0000 % 0x8000_0000 * 0x20_0000 else e / 0x4000_0000 % 0x40_0000 * 0x4000_0000;
            (base / 4096 + Offset(a / 4096, l)) * 4096 + a % 4096 == LeafAddress(e, l, a)
  {
    if l == 1 {
      SmallAddress(e / 0x1000 % 0x100_0000_0000, a);
    } else if l == 2 {
      BigAddress(e / 0x20_0000 % 0x8000_0000, a);
    } else {
      GiantAddress(e / 0x4000_0000 % 0x40_0000, a);
    }
  }

  lemma SmallAddress(k: nat, a: nat)
    ensures k * 0x1000 / 4096 * 4096 + a % 4096 == k * 0x1000 + a % 0x1000
  {
  }

  /** The offset into a page of n small ones. */
  lemma OffsetParts(a: nat, n: nat)
    requires n > 0
    ensures 4096 * n > 0 && a / 4096 % n * 4096 + a % 4096 == a % (4096 * n)
  {
    var q, r := a / 4096, a % 4096;
    var t, u := q / n, q % n;
    assert a == 4096 * q + r && q == n * t + u;
    assert a == 4096 * (n * t + u) + r == (4096 * n) * t + (4096 * u + r);
    Quotient(a, 4096 * n, t, 4096 * u + r);
  }

  lemma BigAddress(k: nat, a: nat)
    ensures (k * 0x20_0000 / 4096 + a / 4096 % 512) * 4096 + a % 4096 == k * 0x20_0000 + a % 0x20_0000
  {
    OffsetParts(a, 512);
    assert k * 0x20_0000 / 4096 == k * 512;
  }

  lemma GiantAddress(k: nat, a: nat)
    ensures (k * 0x4000_0000 / 4096 + a / 4096 % 0x4_0000) * 4096 + a % 4096 == k * 0x4000_0000 + a % 0x4000_0000
  {
    OffsetParts(a, 0x4_0000);
    assert k * 0x4000_0000 / 4096 == k * 0x4_0000;
  }

  lemma TablesAligned(e: nat)
    ensures NextTable(e) / 4096 * 4096 == NextTable(e)
  {
  }

  /** The processor's translation of every byte address is the walk for its page: the frame's address
      and the offset into the page, with the rights of all levels taken together. */
  lemma TranslateIsWalk(m: Memory, root: nat, a: nat)
    ensures var r := Walk(m, root, 4, a / 4096);
            Translate(m, root * 4096, a) ==
            if r.Unmapped? then Fault else Physical(r.frame * 4096 + a % 4096, r.write, r.noExecute)
  {
    hide EntryAt, Walk, Writes, Forbids, Index, NextTable;
    var v := a / 4096;
    Fields(a);
    LevelNumbers(m, root, 4, a);
    var e4 := EntryAt(m, root * 4096, Index(v, 4));
    if e4 % 2 == 1 {
      var f3 := NextTable(e4) / 4096;
      TablesAligned(e4);
      LevelNumbers(m, f3, 3, a);
      var e3 := EntryAt(m, f3 * 4096, Index(v, 3));
      if e3 % 2 == 1 && e3 / 128 % 2 == 0 {
        var f2 := NextTable(e3) / 4096;
        TablesAligned(e3);
        LevelNumbers(m, f2, 2, a);
        var e2 := EntryAt(m, f2 * 4096, Index(v, 2));
        if e2 % 2 == 1 && e2 / 128 % 2 == 0 {
          TablesAligned(e2);
          LevelNumbers(m, NextTable(e2) / 4096, 1, a);
        }
      }
    }
  }
}
