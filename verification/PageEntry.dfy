/** Page table entries: how memory/paging_map.c builds and takes apart the 64-bit words that 4-level
    paging reads (memory/paging_internal.h, PML_ constants). */
module PageEntry {
  import opened Words

  const PRESENT: Word := Bit(64, 0)
  const WRITEABLE: Word := Bit(64, 1)
  const PAGE_SIZE: Word := Bit(64, 7)
  const EXECUTE_DISABLE: Word := Bit(64, 63)
  const NO_FLAG: Word := Zero(64)

  predicate IsPresent(e: Word) { |e| == 64 && e[0] }

  predicate IsWriteable(e: Word) { |e| == 64 && e[1] }

  predicate IsBig(e: Word) { |e| == 64 && e[7] }

  predicate IsNoExecute(e: Word) { |e| == 64 && e[63] }

  /** The address mask with bits low to 51 set. */
  function AddrMask(low: nat): Word { seq(64, i => low <= i < 52) }

  /** e & mask, as an address. */
  function Addr(e: Word, low: nat): nat
    requires |e| == 64
  {
    Value(And(e, AddrMask(low)))
  }

  /** physical | PRESENT | ... */
  function MakeEntry(physical: nat, big: bool, write: bool, noExecute: bool): (e: Word)
    ensures |e| == 64
  {
    Or(Or(Or(Or(FromNat(physical, 64), PRESENT), if big then PAGE_SIZE else NO_FLAG),
          if write then WRITEABLE else NO_FLAG), if noExecute then EXECUTE_DISABLE else NO_FLAG)
  }

  /** A multiple q of 2^k has k clear low bits. */
  lemma {:induction false} FromNatLow(s: nat, n: nat, k: nat, q: nat, i: nat)
    requires s == Pow2(k) * q && i < k && i < n
    ensures !FromNat(s, n)[i]
  {
    assert s == 2 * (Pow2(k - 1) * q);
    if i > 0 { FromNatLow(s / 2, n - 1, k - 1, q, i - 1); }
  }

  lemma {:induction false} FromNatHigh(s: nat, n: nat, k: nat, i: nat)
    requires s < Pow2(k) && k <= i < n
    ensures !FromNat(s, n)[i]
  {
    if i > 0 {
      if k == 0 {
        FromNatHigh(s / 2, n - 1, 0, i - 1);
      } else {
        FromNatHigh(s / 2, n - 1, k - 1, i - 1);
      }
    }
  }

  lemma {:induction false} ValueFromNat(s: nat, n: nat)
    requires s < Pow2(n)
    ensures Value(FromNat(s, n)) == s
  {
    if n > 0 {
      ValueFromNat(s / 2, n - 1);
      assert FromNat(s, n)[1..] == FromNat(s / 2, n - 1);
    }
  }

  lemma {:induction false} PowMono(a: nat, b: nat)
    requires a <= b
    ensures Pow2(a) <= Pow2(b)
  {
    if a < b { PowMono(a, b - 1); }
  }

  lemma EntryBits(physical: nat, big: bool, write: bool, noExecute: bool)
    ensures var e, a := MakeEntry(physical, big, write, noExecute), FromNat(physical, 64);
            forall i: nat | i < 64 :: e[i] == (a[i] || i == 0 || (big && i == 7) || (write && i == 1) || (noExecute && i == 63))
  {
  }

  /** Reading back an entry gives the address and the flags it was made of. */
  lemma EntryRoundTrip(physical: nat, big: bool, write: bool, noExecute: bool, low: nat, q: nat)
    requires 12 <= low < 52 && physical == Pow2(low) * q && physical < Pow2(52)
    ensures var e := MakeEntry(physical, big, write, noExecute);
            && Addr(e, low) == physical && IsPresent(e) && IsBig(e) == big && IsWriteable(e) == write && IsNoExecute(e) == noExecute
  {
    hide MakeEntry, Pow2, Value, FromNat;
    var e, a := MakeEntry(physical, big, write, noExecute), FromNat(physical, 64);
    EntryBits(physical, big, write, noExecute);
    forall i: nat | i < 64
      ensures i < low || i >= 52 ==> !a[i]
    {
      if i < low { FromNatLow(physical, 64, low, q, i); }
      if i >= 52 { FromNatHigh(physical, 64, 52, i); }
    }
    assert And(e, AddrMask(low)) == a;
    PowMono(52, 64);
    ValueFromNat(physical, 64);
  }

  /** The page sizes as powers of two. */
  lemma PageSizes()
    ensures Pow2(12) == 4096 && Pow2(21) == 4096 * 512 && Pow2(30) == 4096 * 512 * 512 && Pow2(52) == 0x10_0000_0000_0000
  {
    assert Pow2(6) == 64;
    assert Pow2(12) == 4096;
    assert Pow2(18) == 64 * 4096;
    assert Pow2(21) == 4096 * 512;
    assert Pow2(27) == 64 * 4096 * 512;
    assert Pow2(30) == 4096 * 512 * 512;
    assert Pow2(36) == 64 * 4096 * 512 * 512;
    assert Pow2(42) == 4096 * 4096 * 512 * 512;
    assert Pow2(48) == 64 * 4096 * 4096 * 512 * 512;
    assert Pow2(52) == 0x10_0000_0000_0000;
  }

  /** An address read from an entry is aligned to what the mask leaves out, whatever the word is. */
  lemma AddrAligned(e: Word, low: nat) returns (q: nat)
    requires |e| == 64 && low <= 52
    ensures Addr(e, low) == Pow2(low) * q
  {
    q := LowZeros(And(e, AddrMask(low)), low);
  }

  lemma {:induction false} LowZeros(w: Word, k: nat) returns (q: nat)
    requires k <= |w| && forall i | 0 <= i < k :: !w[i]
    ensures Value(w) == Pow2(k) * q
  {
    if k > 0 {
      q := LowZeros(w[1..], k - 1);
    } else {
      q := Value(w);
    }
  }
}
