/** The terminal's UTF-8 (extlib/libvterm/utf8.h, encoding.c): an encoder that writes backwards and an
    incremental decoder, against section 3 of RFC 3629. Bytes and codepoints are numbers. */
module Utf8 {

  const INVALID: nat := 0xFFFD

  // ----- encoding -----

  /** utf8_seqlen. */
  function SeqLen(cp: nat): (n: nat)
    ensures 1 <= n <= 6
  {
    if cp < 0x80 then 1 else if cp < 0x800 then 2 else if cp < 0x1_0000 then 3
    else if cp < 0x20_0000 then 4 else if cp < 0x400_0000 then 5 else 6
  }

  /** cp >> 6k. */
  function High(cp: nat, k: nat): nat { if k == 0 then cp else High(cp / 64, k - 1) }

  /** The k low groups of six bits, as continuation bytes. */
  function Tail(cp: nat, k: nat): (s: seq<nat>)
    ensures |s| == k
  {
    if k == 0 then [] else Tail(cp / 64, k - 1) + [0x80 + cp % 64]
  }

  /** The marker of a lead byte and the number of payload values it leaves room for. */
  function Marker(n: nat): nat {
    if n == 1 then 0 else if n == 2 then 0xC0 else if n == 3 then 0xE0 else if n == 4 then 0xF0 else if n == 5 then 0xF8 else 0xFC
  }

  function Room(n: nat): (r: nat)
    ensures r > 0
  {
    if n == 1 then 0x80 else if n == 2 then 0x20 else if n == 3 then 0x10 else if n == 4 then 8 else if n == 5 then 4 else 2
  }

  function Encode(cp: nat): seq<nat> {
    var n := SeqLen(cp);
    [Marker(n) + High(cp, n - 1) % Room(n)] + Tail(cp, n - 1)
  }

  /** fill_utf8. */
  method FillUtf8(codepoint: nat, str: array<nat>) returns (nbytes: nat)
    requires str.Length >= SeqLen(codepoint)
    modifies str
    ensures nbytes == SeqLen(codepoint) && str[..nbytes] == Encode(codepoint) && str[nbytes..] == old(str[nbytes..])
  {
    nbytes := SeqLen(codepoint);
    var cp: nat, b: nat := codepoint, nbytes;
    while b > 1
      invariant 1 <= b <= nbytes && str[nbytes..] == old(str[nbytes..])
      invariant High(cp, b - 1) == High(codepoint, nbytes - 1)
      invariant Tail(codepoint, nbytes - 1) == Tail(cp, b - 1) + str[b..nbytes]
    {
      b := b - 1;
      str[b] := 0x80 + cp % 64;
      assert str[b..nbytes] == [0x80 + cp % 64] + str[b + 1..nbytes];
      cp := cp / 64;
    }
    str[0] := Marker(nbytes) + cp % Room(nbytes);
    assert str[..nbytes] == [str[0]] + str[1..nbytes];
  }

  // ----- decoding -----

  datatype Dec = Dec(remaining: nat, total: nat, cp: nat)

  /** C0 and DEL stop the decoder. */
  predicate IsControl(c: nat) { c < 0x20 || c == 0x7F }

  /** A finished codepoint, with overlong and plain invalid ones replaced. */
  function Checked(cp: nat, total: nat): nat {
    if (total == 2 && cp < 0x80) || (total == 3 && cp < 0x800) || (total == 4 && cp < 0x1_0000)
       || (total == 5 && cp < 0x20_0000) || (total == 6 && cp < 0x400_0000) then INVALID
    else if 0xD800 <= cp <= 0xDFFF || cp == 0xFFFE || cp == 0xFFFF then INVALID
    else cp
  }

  function Broken(d: Dec): seq<nat> { if d.remaining > 0 then [INVALID] else [] }

  /** The effect of one byte: the new state and the codepoints put out. */
  function Step(d: Dec, c: nat): (Dec, seq<nat>) {
    if IsControl(c) then (d, [])
    else if c < 0x7F then (d.(remaining := 0), Broken(d) + [c])
    else if c < 0xC0 then
      if d.remaining == 0 then (d, [INVALID])
      else
        var cp := d.cp * 64 + c % 64;
        if d.remaining > 1 then (Dec(d.remaining - 1, d.total, cp), [])
        else (Dec(0, d.total, Checked(cp, d.total)), [Checked(cp, d.total)])
    else if c < 0xE0 then (Dec(1, 2, c % 0x20), Broken(d))
    else if c < 0xF0 then (Dec(2, 3, c % 0x10), Broken(d))
    else if c < 0xF8 then (Dec(3, 4, c % 8), Broken(d))
    else if c < 0xFC then (Dec(4, 5, c % 4), Broken(d))
    else if c < 0xFE then (Dec(5, 6, c % 2), Broken(d))
    else (d, [INVALID])
  }

  /** The effect of several bytes, in order. */
  function Feed(d: Dec, bs: seq<nat>): (r: (Dec, seq<nat>))
    decreases |bs|
  {
    if bs == [] then (d, [])
    else
      var p := Feed(d, bs[..|bs| - 1]);
      var q := Step(p.0, bs[|bs| - 1]);
      (q.0, p.1 + q.1)
  }

  predicate IsText(bs: seq<nat>) { forall b <- bs :: !IsControl(b) }

  /** A call that stops when `room` codepoints are out keeps to its `slots` slots: no byte that it
      reaches, the output not being full before, takes the output past them. */
  ghost predicate Fits(d: Dec, bs: seq<nat>, room: int, slots: int) {
    forall n: nat | 0 < n <= |bs| && IsText(bs[..n]) && |Feed(d, bs[..n - 1]).1| < room :: |Feed(d, bs[..n]).1| <= slots
  }

  lemma NextFits(d: Dec, bs: seq<nat>, room: int, slots: int, n: nat)
    requires Fits(d, bs, room, slots) && n < |bs| && IsText(bs[..n]) && !IsControl(bs[n]) && |Feed(d, bs[..n]).1| < room
    ensures |Feed(d, bs[..n]).1| + |Step(Feed(d, bs[..n]).0, bs[n]).1| <= slots
  {
    assert bs[..n + 1] == bs[..n] + [bs[n]];
    FeedMore(d, bs[..n], bs[n]);
  }

  class Decoder {
    var bytesRemaining: nat
    var bytesTotal: nat
    var thisCp: nat

    function State(): Dec
      reads this
    {
      Dec(bytesRemaining, bytesTotal, thisCp)
    }

    /** init_utf8. */
    constructor ()
      ensures State().remaining == 0
    {
      bytesRemaining, bytesTotal := 0, 0;
    }

    /** decode_utf8 from position pos on: consumes bytes up to a control byte, the end, or until the
        output is full. A byte may put out two codepoints, and nothing in the code stops the second
        one: Fits is what keeps it inside the array. */
    method Decode(cp: array<nat>, cpi: nat, cplen: nat, bytes: seq<nat>, pos: nat) returns (cpi': nat, pos': nat)
      requires cpi <= cplen && cpi <= cp.Length && pos <= |bytes|
      requires Fits(State(), bytes[pos..], cplen - cpi, cp.Length - cpi)
      modifies this, cp
      ensures pos <= pos' <= |bytes| && cpi <= cpi' <= cp.Length && cp[..cpi] == old(cp[..cpi])
      ensures State() == Feed(old(State()), bytes[pos..pos']).0 && cp[cpi..cpi'] == Feed(old(State()), bytes[pos..pos']).1
      ensures forall i | pos <= i < pos' :: bytes[i] >= 0x20 && bytes[i] != 0x7F
      ensures pos' == |bytes| || bytes[pos'] < 0x20 || bytes[pos'] == 0x7F || cpi' >= cplen
    {
      hide Step, Fits, Feed;
      cpi', pos' := cpi, pos;
      assert bytes[pos..pos] == [];
      FeedNone(State());
      while pos' < |bytes| && cpi' < cplen
        invariant pos <= pos' <= |bytes| && cpi <= cpi' <= cp.Length && cp[..cpi] == old(cp[..cpi])
        invariant State() == Feed(old(State()), bytes[pos..pos']).0 && cp[cpi..cpi'] == Feed(old(State()), bytes[pos..pos']).1
        invariant forall i | pos <= i < pos' :: bytes[i] >= 0x20 && bytes[i] != 0x7F
        decreases |bytes| - pos'
      {
        var c := bytes[pos'];
        if IsControl(c) { return; }
        ghost var out, n := cp[cpi..cpi'], cpi';
        assert bytes[pos..pos' + 1] == bytes[pos..pos'] + [c];
        assert bytes[pos..][..pos' - pos] == bytes[pos..pos'];
        assert IsText(bytes[pos..pos']);
        NextFits(old(State()), bytes[pos..], cplen - cpi, cp.Length - cpi, pos' - pos);
        cpi' := Take(c, cp, cpi');
        assert cp[cpi..cpi'] == cp[cpi..n] + cp[n..cpi'];
        assert cp[cpi..n] == out;
        FeedMore(old(State()), bytes[pos..pos'], c);
        pos' := pos' + 1;
      }
    }

    /** How on_text calls the decoder: with one slot for each byte of the chunk. */
    method DecodeChunk(bytes: seq<nat>) returns (out: seq<nat>, eaten: nat)
      requires Fits(State(), bytes, |bytes|, |bytes|)
      modifies this
      ensures eaten <= |bytes| && State() == Feed(old(State()), bytes[..eaten]).0 && out == Feed(old(State()), bytes[..eaten]).1
      ensures IsText(bytes[..eaten]) && (eaten == |bytes| || IsControl(bytes[eaten]) || |out| >= |bytes|)
    {
      hide Fits;
      assert bytes[0..] == bytes;
      var cp := new nat[|bytes|];
      var n: nat;
      n, eaten := Decode(cp, 0, |bytes|, bytes, 0);
      assert bytes[0..eaten] == bytes[..eaten] && cp[0..n] == cp[..n];
      assert IsText(bytes[..eaten]);
      out := cp[..n];
    }

    /** Text of scalar values, cut into chunks at any byte and decoded call by call. */
    method DecodeText(chunks: seq<seq<nat>>, ghost cps: seq<nat>) returns (out: seq<nat>)
      requires State().remaining == 0 && (forall cp <- cps :: Survives(cp) && cp < 0x11_0000)
      requires Flatten(chunks) == EncodeAll(cps)
      modifies this
      ensures out == cps && State().remaining == 0
    {
      hide Feed, Step, Encode, EncodeAll, Survives, Fits;
      ghost var d := State();
      out := [];
      var i := 0;
      assert chunks[..0] == [];
      FeedNone(d);
      while i < |chunks|
        invariant i <= |chunks| && State() == Feed(d, Flatten(chunks[..i])).0 && out == Feed(d, Flatten(chunks[..i])).1
      {
        ghost var done := Flatten(chunks[..i]);
        FlattenMore(chunks, i);
        TextFits(d, cps, done, chunks[i]);
        FeedAppend(d, done, chunks[i]);
        var more, eaten := DecodeChunk(chunks[i]);
        TextEaten(d, cps, done, chunks[i], eaten);
        assert chunks[i][..eaten] == chunks[i];
        out := out + more;
        i := i + 1;
      }
      assert chunks[..i] == chunks;
      AllRoundTrip(d, cps);
    }

    /** The loop body of decode_utf8. */
    method Take(c: nat, cp: array<nat>, cpi: nat) returns (cpi': nat)
      requires !IsControl(c) && cpi + |Step(State(), c).1| <= cp.Length
      modifies this, cp
      ensures cpi <= cpi' <= cp.Length && cp[..cpi] == old(cp[..cpi])
      ensures State() == Step(old(State()), c).0 && cp[cpi..cpi'] == Step(old(State()), c).1
    {
      cpi' := cpi;
      if c < 0x7F {
        if bytesRemaining > 0 { cp[cpi'] := INVALID; cpi' := cpi' + 1; }
        cp[cpi'] := c;
        cpi' := cpi' + 1;
        bytesRemaining := 0;
      } else if c < 0xC0 {
        if bytesRemaining == 0 { cp[cpi'] := INVALID; return cpi' + 1; }
        thisCp := thisCp * 64 + c % 64;
        bytesRemaining := bytesRemaining - 1;
        if bytesRemaining == 0 {
          thisCp := Checked(thisCp, bytesTotal);
          cp[cpi'] := thisCp;
          cpi' := cpi' + 1;
        }
      } else if c < 0xFE {
        if bytesRemaining > 0 { cp[cpi'] := INVALID; cpi' := cpi' + 1; }
        if c < 0xE0 { thisCp, bytesTotal, bytesRemaining := c % 0x20, 2, 1; }
        else if c < 0xF0 { thisCp, bytesTotal, bytesRemaining := c % 0x10, 3, 2; }
        else if c < 0xF8 { thisCp, bytesTotal, bytesRemaining := c % 8, 4, 3; }
        else if c < 0xFC { thisCp, bytesTotal, bytesRemaining := c % 4, 5, 4; }
        else { thisCp, bytesTotal, bytesRemaining := c % 2, 6, 5; }
      } else {
        cp[cpi'] := INVALID;
        cpi' := cpi' + 1;
      }
    }
  }

  // ----- how much a call puts out -----

  lemma FeedMore(d: Dec, bs: seq<nat>, c: nat)
    ensures Feed(d, bs + [c]).0 == Step(Feed(d, bs).0, c).0
    ensures Feed(d, bs + [c]).1 == Feed(d, bs).1 + Step(Feed(d, bs).0, c).1
  {
    assert (bs + [c])[..|bs|] == bs;
  }

  lemma FeedNone(d: Dec)
    ensures Feed(d, []).0 == d && Feed(d, []).1 == []
  {
  }

  /** 1 while a sequence is unfinished: it may still put out a replacement of its own. */
  function Pending(d: Dec): nat { if d.remaining > 0 then 1 else 0 }

  /** Every byte pays for one codepoint, and an unfinished sequence for one more. */
  lemma {:induction false} FeedBound(d: Dec, bs: seq<nat>)
    ensures |Feed(d, bs).1| + Pending(Feed(d, bs).0) <= |bs| + Pending(d)
    decreases |bs|
  {
    if bs != [] {
      FeedBound(d, bs[..|bs| - 1]);
    }
  }

  /** A spare slot is enough, and so is one slot for each byte and one for an unfinished sequence. */
  lemma EnoughSlots(d: Dec, bs: seq<nat>, room: int, slots: int)
    requires room < slots || |bs| + Pending(d) <= slots
    ensures Fits(d, bs, room, slots)
  {
    hide Feed;
    forall n: nat | 0 < n <= |bs| && IsText(bs[..n]) && |Feed(d, bs[..n - 1]).1| < room
      ensures |Feed(d, bs[..n]).1| <= slots
    {
      FeedBound(d, bs[..n]);
      assert bs[..n] == bs[..n - 1] + [bs[n - 1]];
      FeedMore(d, bs[..n - 1], bs[n - 1]);
      if room < slots { StepTwo(Feed(d, bs[..n - 1]).0, bs[n - 1]); }
    }
  }

  lemma StepTwo(d: Dec, c: nat)
    ensures |Step(d, c).1| <= 2
  {
  }

  /** One slot for each byte, as on_text provides, is enough for all chunks exactly when nothing was
      left unfinished by the chunk before. on_text comes here only with a high first byte. */
  lemma OnTextFitsIff(d: Dec)
    ensures (forall bs: seq<nat> | bs != [] && bs[0] >= 0x80 :: Fits(d, bs, |bs|, |bs|)) <==> d.remaining == 0
  {
    if d.remaining == 0 {
      forall bs: seq<nat>
        ensures Fits(d, bs, |bs|, |bs|)
      {
        EnoughSlots(d, bs, |bs|, |bs|);
      }
    } else {
      TwoBytesThree(d);
    }
  }

  /** With a sequence unfinished, the chunk [0xC3, 0x41] needs three slots and gets two. */
  lemma TwoBytesThree(d: Dec)
    requires d.remaining > 0
    ensures Feed(d, [0xC3, 0x41]).1 == [INVALID, INVALID, 0x41] && !Fits(d, [0xC3, 0x41], 2, 2)
  {
    var bs := [0xC3, 0x41];
    FeedOne(d, 0xC3);
    assert [0xC3] + [0x41] == bs;
    FeedMore(d, [0xC3], 0x41);
    assert bs[..2] == bs && bs[..1] == [0xC3];
  }

  // ----- round trip -----

  lemma FeedLast(d: Dec, bs: seq<nat>)
    requires bs != []
    ensures var p := Feed(d, bs[..|bs| - 1]);
            Feed(d, bs).0 == Step(p.0, bs[|bs| - 1]).0 && Feed(d, bs).1 == p.1 + Step(p.0, bs[|bs| - 1]).1
  {
  }

  lemma {:induction false} FeedAppend(d: Dec, a: seq<nat>, b: seq<nat>)
    ensures Feed(d, a + b).0 == Feed(Feed(d, a).0, b).0
    ensures Feed(d, a + b).1 == Feed(d, a).1 + Feed(Feed(d, a).0, b).1
    decreases |b|
  {
    hide Step;
    if b == [] {
      assert a + b == a;
    } else {
      var n := |b| - 1;
      FeedAppend(d, a, b[..n]);
      var ab := a + b;
      assert ab[..|ab| - 1] == a + b[..n] && ab[|ab| - 1] == b[n];
      FeedLast(d, ab);
      FeedLast(Feed(d, a).0, b);
    }
  }

  /** Continuation bytes shift their six bits in, until the last but one. */
  lemma {:induction false} FeedTail(d: Dec, cp: nat, k: nat)
    requires d.remaining > k && d.cp == High(cp, k)
    ensures Feed(d, Tail(cp, k)).0 == Dec(d.remaining - k, d.total, cp) && Feed(d, Tail(cp, k)).1 == []
    decreases k
  {
    if k > 0 {
      FeedTail(d, cp / 64, k - 1);
      assert Tail(cp, k)[..k - 1] == Tail(cp / 64, k - 1);
    }
  }

  lemma HighStep(x: nat, k: nat)
    requires k > 0
    ensures High(x, k) == High(x / 64, k - 1)
  {
  }

  /** The top part of a codepoint fits the lead byte. */
  lemma HighFits(cp: nat)
    requires cp < 0x8000_0000
    ensures High(cp, SeqLen(cp) - 1) < Room(SeqLen(cp))
  {
    var n := SeqLen(cp);
    var a := cp / 64;
    var b := a / 64;
    var c := b / 64;
    var d := c / 64;
    if n > 1 { HighStep(cp, n - 1); }
    if n > 2 { HighStep(a, n - 2); }
    if n > 3 { HighStep(b, n - 3); }
    if n > 4 { HighStep(c, n - 4); }
    if n > 5 { HighStep(d, n - 5); }
  }

  lemma FeedOne(d: Dec, c: nat)
    ensures Feed(d, [c]).0 == Step(d, c).0 && Feed(d, [c]).1 == Step(d, c).1
  {
    assert [c][..0] == [];
  }

  /** What decoding the encoding of a codepoint gives. */
  lemma DecodeEncode(d: Dec, cp: nat)
    requires d.remaining == 0 && cp < 0x8000_0000 && !IsControl(cp)
    ensures Feed(d, Encode(cp)).0.remaining == 0 && Feed(d, Encode(cp)).1 == [Checked(cp, SeqLen(cp))]
    ensures forall b <- Encode(cp) :: !IsControl(b)
  {
    hide Feed, Step, High, Tail, Marker, Room;
    var n := SeqLen(cp);
    HighFits(cp);
    TailBytes(cp, n - 1);
    if n == 1 {
      OneByte(d, cp);
    } else {
      LeadStep(d, n, High(cp, n - 1));
      RestOf(d, n, cp);
    }
  }

  lemma OneByte(d: Dec, cp: nat)
    requires d.remaining == 0 && cp < 0x80 && !IsControl(cp)
    ensures Encode(cp) == [cp] && Feed(d, [cp]).0.remaining == 0 && Feed(d, [cp]).1 == [Checked(cp, 1)]
  {
    FeedOne(d, cp);
  }

  /** The bytes after the lead byte. */
  lemma RestOf(d: Dec, n: nat, cp: nat)
    requires d.remaining == 0 && 2 <= n <= 6 && High(cp, n - 1) < Room(n)
    ensures var s := [Marker(n) + High(cp, n - 1)] + Tail(cp, n - 1);
            Feed(d, s).0.remaining == 0 && Feed(d, s).1 == [Checked(cp, n)]
  {
    hide Feed, High, Tail, Marker, Room, Step;
    var lead, top := Marker(n) + High(cp, n - 1), High(cp, n - 1);
    var d1 := Dec(n - 1, n, top);
    LeadStep(d, n, top);
    FeedOne(d, lead);
    FeedAppend(d, [lead], Tail(cp, n - 1));
    HighStep(cp, n - 1);
    FeedTail(d1, cp / 64, n - 2);
    TailLast(cp, n - 1);
    FeedAppend(d1, Tail(cp / 64, n - 2), [0x80 + cp % 64]);
    FeedOne(Dec(1, n, cp / 64), 0x80 + cp % 64);
    LastStep(n, cp);
  }

  lemma TailLast(cp: nat, k: nat)
    requires k > 0
    ensures Tail(cp, k) == Tail(cp / 64, k - 1) + [0x80 + cp % 64]
  {
  }

  lemma LastStep(n: nat, cp: nat)
    ensures var r := Step(Dec(1, n, cp / 64), 0x80 + cp % 64); r.0.remaining == 0 && r.1 == [Checked(cp, n)]
  {
    assert cp / 64 * 64 + (0x80 + cp % 64) % 64 == cp;
  }

  lemma LeadStep(d: Dec, n: nat, top: nat)
    requires d.remaining == 0 && 2 <= n <= 6 && top < Room(n)
    ensures Step(d, Marker(n) + top).0 == Dec(n - 1, n, top) && Step(d, Marker(n) + top).1 == [] && !IsControl(Marker(n) + top)
  {
  }

  lemma {:induction false} TailBytes(cp: nat, k: nat)
    ensures forall b <- Tail(cp, k) :: 0x80 <= b < 0xC0
  {
    if k > 0 { TailBytes(cp / 64, k - 1); }
  }

  /** The codepoints that survive: not C0, DEL, a surrogate, U+FFFE or U+FFFF. */
  predicate Survives(cp: nat) { cp >= 0x20 && cp != 0x7F && !(0xD800 <= cp <= 0xDFFF) && cp != 0xFFFE && cp != 0xFFFF }

  /** A codepoint comes back from its encoding exactly when it is one of these. RFC 3629 allows U+FFFE
      and U+FFFF, the decoder does not. */
  lemma RoundTripIff(d: Dec, cp: nat)
    requires d.remaining == 0 && cp < 0x8000_0000
    ensures Feed(d, Encode(cp)).1 == [cp] <==> Survives(cp)
  {
    if IsControl(cp) {
      assert Encode(cp) == [cp];
      FeedOne(d, cp);
    } else {
      DecodeEncode(d, cp);
    }
  }

  lemma SurvivorDecodes(d: Dec, cp: nat)
    requires d.remaining == 0 && Survives(cp) && cp < 0x8000_0000
    ensures Feed(d, Encode(cp)).0.remaining == 0 && Feed(d, Encode(cp)).1 == [cp]
    ensures forall b <- Encode(cp) :: !IsControl(b)
  {
    DecodeEncode(d, cp);
  }

  // ----- any sequence of bytes -----

  /** A lead byte and as many continuation bytes as it asks for. */
  predicate Sequence(bs: seq<nat>) {
    && bs != [] && 0xC0 <= bs[0] < 0xFE
    && |bs| == (if bs[0] < 0xE0 then 2 else if bs[0] < 0xF0 then 3 else if bs[0] < 0xF8 then 4 else if bs[0] < 0xFC then 5 else 6)
    && forall i | 1 <= i < |bs| :: 0x80 <= bs[i] < 0xC0
  }

  /** The payload bits of a lead byte and of the continuation bytes behind it. */
  function Payload(bs: seq<nat>): nat
    requires bs != [] && 0xC0 <= bs[0] < 0xFE
  {
    var n := |bs| - 1;
    if n > 0 then Payload(bs[..n]) * 64 + bs[n] % 64
    else if bs[0] < 0xE0 then bs[0] - 0xC0 else if bs[0] < 0xF0 then bs[0] - 0xE0
    else if bs[0] < 0xF8 then bs[0] - 0xF0 else if bs[0] < 0xFC then bs[0] - 0xF8 else bs[0] - 0xFC
  }

  /** Until its last byte a sequence puts nothing out, but for the mark of the one it breaks off. */
  lemma {:induction false} Unfinished(d: Dec, bs: seq<nat>, k: nat)
    requires Sequence(bs) && 1 <= k < |bs|
    ensures Feed(d, bs[..k]).0 == Dec(|bs| - k, |bs|, Payload(bs[..k]))
    ensures Feed(d, bs[..k]).1 == if d.remaining > 0 then [0xFFFD] else []
  {
    hide Feed, Payload;
    if k == 1 {
      assert bs[..1] == [bs[0]];
      FeedOne(d, bs[0]);
      LeadByte(d, bs);
    } else {
      Unfinished(d, bs, k - 1);
      assert bs[..k] == bs[..k - 1] + [bs[k - 1]] && bs[..k][..k - 1] == bs[..k - 1];
      FeedMore(d, bs[..k - 1], bs[k - 1]);
      PayloadLast(bs[..k]);
    }
  }

  lemma LeadByte(d: Dec, bs: seq<nat>)
    requires Sequence(bs)
    ensures Step(d, bs[0]).0 == Dec(|bs| - 1, |bs|, Payload([bs[0]])) && Step(d, bs[0]).1 == if d.remaining > 0 then [0xFFFD] else []
  {
  }

  /** A payload is what its continuation bytes and its lead byte encode. */
  lemma {:induction false} PayloadParts(bs: seq<nat>, k: nat)
    requires Sequence(bs) && 1 <= k <= |bs|
    ensures High(Payload(bs[..k]), k - 1) == Payload(bs[..1]) && Tail(Payload(bs[..k]), k - 1) == bs[1..k]
  {
    if k > 1 {
      PayloadParts(bs, k - 1);
      assert bs[..k][..k - 1] == bs[..k - 1] && bs[1..k] == bs[1..k - 1] + [bs[k - 1]];
      assert Payload(bs[..k]) == Payload(bs[..k - 1]) * 64 + bs[k - 1] % 64;
      assert Payload(bs[..k]) / 64 == Payload(bs[..k - 1]);
    }
  }

  /** What fits the lead byte of a length needs no greater one. */
  lemma RoomBound(cp: nat, n: nat)
    requires 2 <= n <= 6 && High(cp, n - 1) < Room(n)
    ensures SeqLen(cp) <= n
  {
    var a := cp / 64;
    var b := a / 64;
    var c := b / 64;
    var d := c / 64;
    HighStep(cp, n - 1);
    if n > 2 { HighStep(a, n - 2); }
    if n > 3 { HighStep(b, n - 3); }
    if n > 4 { HighStep(c, n - 4); }
    if n > 5 { HighStep(d, n - 5); }
  }

  /** A sequence is the encoding of its payload exactly when that needs all its bytes. */
  lemma ShortestIff(bs: seq<nat>)
    requires Sequence(bs)
    ensures SeqLen(Payload(bs)) <= |bs|
    ensures bs == Encode(Payload(bs)) <==> SeqLen(Payload(bs)) == |bs|
  {
    hide High, Tail, Payload;
    var n, cp := |bs|, Payload(bs);
    assert bs[..n] == bs;
    PayloadParts(bs, n);
    LeadPayload(bs);
    RoomBound(cp, n);
    assert bs == [bs[0]] + bs[1..n];
  }

  lemma LeadPayload(bs: seq<nat>)
    requires Sequence(bs)
    ensures bs[0] == Marker(|bs|) + Payload(bs[..1]) && Payload(bs[..1]) < Room(|bs|)
  {
  }

  /** The decoder on any finished sequence, overlong ones of every length included: the payload comes
      out exactly when the bytes are its encoding and it is a codepoint that survives, U+FFFD otherwise. */
  lemma FinishedSequence(d: Dec, bs: seq<nat>)
    requires Sequence(bs)
    ensures var cp := Payload(bs);
            Feed(d, bs).1 == (if d.remaining > 0 then [0xFFFD] else []) + [if bs == Encode(cp) && Survives(cp) then cp else 0xFFFD]
    ensures Feed(d, bs).0.remaining == 0
  {
    hide Payload, Encode, Feed;
    var n := |bs| - 1;
    Unfinished(d, bs, n);
    assert bs == bs[..n] + [bs[n]];
    FeedMore(d, bs[..n], bs[n]);
    PayloadLast(bs);
    ShortestIff(bs);
  }

  lemma PayloadLast(bs: seq<nat>)
    requires |bs| >= 2 && 0xC0 <= bs[0] < 0xFE
    ensures Payload(bs) == Payload(bs[..|bs| - 1]) * 64 + bs[|bs| - 1] % 64
  {
  }

  /** A sequence broken off by any byte that cannot continue it leaves one U+FFFD, and the byte is then
      read as if nothing had been pending. */
  lemma BrokenOff(d: Dec, bs: seq<nat>, k: nat, c: nat)
    requires Sequence(bs) && 1 <= k < |bs| && d.remaining == 0
    ensures 0x20 <= c < 0x7F ==> Feed(d, bs[..k] + [c]).1 == [0xFFFD, c] && Feed(d, bs[..k] + [c]).0.remaining == 0
    ensures 0xC0 <= c < 0xFE ==> Feed(d, bs[..k] + [c]).1 == [0xFFFD] && Feed(d, bs[..k] + [c]).0.cp == Payload([c])
  {
    hide Payload;
    Unfinished(d, bs, k);
    FeedMore(d, bs[..k], c);
    if 0xC0 <= c < 0xFE { SinglePayload(c); }
  }

  lemma SinglePayload(c: nat)
    requires 0xC0 <= c < 0xFE
    ensures Payload([c]) == if c < 0xE0 then c % 0x20 else if c < 0xF0 then c % 0x10 else if c < 0xF8 then c % 8 else if c < 0xFC then c % 4 else c % 2
  {
  }

  /** Bytes that stand alone: ASCII comes out as it is, a continuation byte that nothing asks for and
      the bytes 0xFE and 0xFF, wherever they stand, each give U+FFFD. */
  lemma SingleBytes(d: Dec, c: nat)
    ensures d.remaining == 0 && 0x20 <= c < 0x7F ==> Feed(d, [c]).1 == [c] && Feed(d, [c]).0 == d
    ensures d.remaining == 0 && 0x80 <= c < 0xC0 ==> Feed(d, [c]).1 == [0xFFFD] && Feed(d, [c]).0 == d
    ensures 0xFE <= c <= 0xFF ==> Feed(d, [c]).1 == [0xFFFD] && Feed(d, [c]).0 == d
  {
    FeedOne(d, c);
  }

  /** The encoder gives the byte layouts of section 3 of RFC 3629, and the two longer ones of the
      older definition: groups of six bits, behind a lead byte that tells their number. */
  lemma EncodeLayout(cp: nat)
    requires cp < 0x8000_0000
    ensures var a := cp / 64; var b := a / 64; var c := b / 64; var d := c / 64;
            Encode(cp) ==
            if cp < 0x80 then [cp]
            else if cp < 0x800 then [0xC0 + a, 0x80 + cp % 64]
            else if cp < 0x1_0000 then [0xE0 + b, 0x80 + a % 64, 0x80 + cp % 64]
            else if cp < 0x20_0000 then [0xF0 + c, 0x80 + b % 64, 0x80 + a % 64, 0x80 + cp % 64]
            else if cp < 0x400_0000 then [0xF8 + d, 0x80 + c % 64, 0x80 + b % 64, 0x80 + a % 64, 0x80 + cp % 64]
            else [0xFC + d / 64, 0x80 + d % 64, 0x80 + c % 64, 0x80 + b % 64, 0x80 + a % 64, 0x80 + cp % 64]
  {
    hide High, Tail, Encode, Marker;
    HighFits(cp);
    LowGroups(cp, SeqLen(cp) - 1);
    EncodeParts(cp);
  }

  lemma EncodeParts(cp: nat)
    requires High(cp, SeqLen(cp) - 1) < Room(SeqLen(cp))
    ensures var n := SeqLen(cp); var top := High(cp, n - 1);
            var lead := if n == 1 then top else if n == 2 then 0xC0 + top else if n == 3 then 0xE0 + top
                        else if n == 4 then 0xF0 + top else if n == 5 then 0xF8 + top else 0xFC + top;
            Encode(cp) == [lead] + Tail(cp, n - 1)
  {
  }

  lemma {:induction false} LowGroups(cp: nat, k: nat)
    requires k <= 5
    ensures var a := cp / 64; var b := a / 64; var c := b / 64; var d := c / 64;
            && High(cp, k) == [cp, a, b, c, d, d / 64][k]
            && Tail(cp, k) ==
               if k == 0 then [] else if k == 1 then [0x80 + cp % 64] else if k == 2 then [0x80 + a % 64, 0x80 + cp % 64]
               else if k == 3 then [0x80 + b % 64, 0x80 + a % 64, 0x80 + cp % 64]
               else if k == 4 then [0x80 + c % 64, 0x80 + b % 64, 0x80 + a % 64, 0x80 + cp % 64]
               else [0x80 + d % 64, 0x80 + c % 64, 0x80 + b % 64, 0x80 + a % 64, 0x80 + cp % 64]
  {
    if k > 0 {
      LowGroups(cp / 64, k - 1);
      TailLast(cp, k);
      HighStep(cp, k);
    }
  }

  function EncodeAll(cps: seq<nat>): seq<nat> {
    if cps == [] then [] else EncodeAll(cps[..|cps| - 1]) + Encode(cps[|cps| - 1])
  }

  lemma {:induction false} AllRoundTrip(d: Dec, cps: seq<nat>)
    requires d.remaining == 0 && forall cp <- cps :: Survives(cp) && cp < 0x11_0000
    ensures Feed(d, EncodeAll(cps)).0.remaining == 0 && Feed(d, EncodeAll(cps)).1 == cps
    ensures forall b <- EncodeAll(cps) :: !IsControl(b)
    decreases |cps|
  {
    hide Step, Encode, Survives;
    if cps != [] {
      var n := |cps| - 1;
      AllRoundTrip(d, cps[..n]);
      var d1 := Feed(d, EncodeAll(cps[..n])).0;
      assert cps[n] in cps;
      SurvivorDecodes(d1, cps[n]);
      FeedAppend(d, EncodeAll(cps[..n]), Encode(cps[n]));
    }
  }

  function Flatten(chunks: seq<seq<nat>>): seq<nat> {
    if chunks == [] then [] else Flatten(chunks[..|chunks| - 1]) + chunks[|chunks| - 1]
  }

  /** The decoder fed one chunk after the other. */
  function FeedChunks(d: Dec, chunks: seq<seq<nat>>): (Dec, seq<nat>) {
    if chunks == [] then (d, [])
    else
      var p := FeedChunks(d, chunks[..|chunks| - 1]);
      var q := Feed(p.0, chunks[|chunks| - 1]);
      (q.0, p.1 + q.1)
  }

  lemma {:induction false} ChunksAreOne(d: Dec, chunks: seq<seq<nat>>)
    ensures FeedChunks(d, chunks).0 == Feed(d, Flatten(chunks)).0 && FeedChunks(d, chunks).1 == Feed(d, Flatten(chunks)).1
    decreases |chunks|
  {
    if chunks != [] {
      var n := |chunks| - 1;
      ChunksAreOne(d, chunks[..n]);
      FeedAppend(d, Flatten(chunks[..n]), chunks[n]);
    }
  }

  /** In the encoding of scalar values no byte puts out more than one codepoint. */
  lemma {:induction false} TextStep(d: Dec, cps: seq<nat>, i: nat)
    requires d.remaining == 0 && (forall cp <- cps :: Survives(cp) && cp < 0x11_0000) && i < |EncodeAll(cps)|
    ensures |Step(Feed(d, EncodeAll(cps)[..i]).0, EncodeAll(cps)[i]).1| <= 1
    decreases |cps|
  {
    hide Feed, Survives, Step;
    var n := |cps| - 1;
    var before, cp := EncodeAll(cps[..n]), cps[n];
    if i < |before| {
      TextStep(d, cps[..n], i);
      assert EncodeAll(cps)[..i] == before[..i];
    } else {
      AllRoundTrip(d, cps[..n]);
      TailBytes(cp, SeqLen(cp) - 1);
      if i == |before| {
        assert EncodeAll(cps)[..i] == before;
      } else {
        var tail := Tail(cp, SeqLen(cp) - 1);
        assert EncodeAll(cps)[i] == Encode(cp)[i - |before|] == tail[i - |before| - 1];
        assert tail[i - |before| - 1] in tail;
      }
      OneOut(Feed(d, EncodeAll(cps)[..i]).0, EncodeAll(cps)[i]);
    }
  }

  lemma OneOut(d: Dec, c: nat)
    requires d.remaining == 0 || 0x80 <= c < 0xC0
    ensures |Step(d, c).1| <= 1
  {
  }

  lemma {:induction false} TextBound(d: Dec, cps: seq<nat>, a: seq<nat>, b: seq<nat>)
    requires d.remaining == 0 && (forall cp <- cps :: Survives(cp) && cp < 0x11_0000) && a + b <= EncodeAll(cps)
    ensures |Feed(Feed(d, a).0, b).1| <= |b|
    decreases |b|
  {
    hide Step, Survives, EncodeAll;
    if b != [] {
      var n, t := |b| - 1, EncodeAll(cps);
      TextBound(d, cps, a, b[..n]);
      TextStep(d, cps, |a| + n);
      assert t[..|a| + n] == a + b[..n] && t[|a| + n] == (a + b)[|a| + n];
      FeedAppend(d, a, b[..n]);
      FeedLast(Feed(d, a).0, b);
    }
  }

  /** Text keeps within one slot for each byte, wherever it is cut. */
  lemma TextFits(d: Dec, cps: seq<nat>, a: seq<nat>, b: seq<nat>)
    requires d.remaining == 0 && (forall cp <- cps :: Survives(cp) && cp < 0x11_0000) && a + b <= EncodeAll(cps)
    ensures Fits(Feed(d, a).0, b, |b|, |b|)
  {
    hide Feed, Step, Survives, EncodeAll;
    forall n: nat | 0 < n <= |b|
      ensures |Feed(Feed(d, a).0, b[..n]).1| <= |b|
    {
      assert a + b[..n] == (a + b)[..|a| + n];
      TextBound(d, cps, a, b[..n]);
    }
  }

  /** A call on a chunk of text takes all of it. */
  lemma TextEaten(d: Dec, cps: seq<nat>, a: seq<nat>, b: seq<nat>, eaten: nat)
    requires d.remaining == 0 && (forall cp <- cps :: Survives(cp) && cp < 0x11_0000) && a + b <= EncodeAll(cps)
    requires eaten <= |b| && (eaten == |b| || IsControl(b[eaten]) || |Feed(Feed(d, a).0, b[..eaten]).1| >= |b|)
    ensures eaten == |b|
  {
    hide Feed, Step, Survives, EncodeAll, IsControl;
    AllRoundTrip(d, cps);
    if eaten < |b| {
      assert (a + b)[|a| + eaten] == b[eaten] && EncodeAll(cps)[|a| + eaten] == b[eaten];
      assert a + b[..eaten] == (a + b)[..|a| + eaten];
      TextBound(d, cps, a, b[..eaten]);
    }
  }

  lemma {:induction false} FlattenMore(chunks: seq<seq<nat>>, i: nat)
    requires i < |chunks|
    ensures Flatten(chunks[..i + 1]) == Flatten(chunks[..i]) + chunks[i]
    ensures Flatten(chunks[..i + 1]) <= Flatten(chunks)
    decreases |chunks|
  {
    assert chunks[..i + 1][..i] == chunks[..i];
    if i + 1 == |chunks| {
      assert chunks[..i + 1] == chunks;
    } else {
      FlattenMore(chunks[..|chunks| - 1], i);
      assert chunks[..|chunks| - 1][..i] == chunks[..i] && chunks[..|chunks| - 1][..i + 1] == chunks[..i + 1];
    }
  }

  /** Scalar values written one after the other and read in chunks cut at any byte come back, and
      nothing of them is left in the decoder. */
  lemma ChunkedRoundTrip(d: Dec, cps: seq<nat>, chunks: seq<seq<nat>>)
    requires d.remaining == 0 && (forall cp <- cps :: Survives(cp) && cp < 0x11_0000)
    requires Flatten(chunks) == EncodeAll(cps)
    ensures FeedChunks(d, chunks).1 == cps && FeedChunks(d, chunks).0.remaining == 0
  {
    ChunksAreOne(d, chunks);
    AllRoundTrip(d, cps);
  }
}
