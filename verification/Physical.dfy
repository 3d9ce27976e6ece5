/** The page frame allocator (memory/paging_physical.c): a bitmap of frames and two cursors that only
    move forward. The module also keeps what is in the frames, as far as page tables need it. */
module Physical {
  import opened Words
  import opened Bitmap

  const PAGE: nat := 4096    // SYSTEM_PAGE_SIZE
  const FRAME_WORDS: nat := 512  // 8-byte entries in a frame
  const BIG: nat := 512      // frames in a 2M block

  const MAX_PAGES: nat := 16777216 // MAX_SYSTEM_MEMORY_PAGES

  type Frame = seq<Word>

  function ZeroFrame(): Frame { seq(FRAME_WORDS, _ => Zero(64)) }

  /** A block of n frames handed out and not given back. */
  datatype Block = Block(first: nat, n: nat)

  ghost predicate InBlock(x: Block, k: nat) { x.first <= k < x.first + x.n }

  ghost predicate Disjoint(x: Block, y: Block) { x.n == 0 || y.n == 0 || x.first + x.n <= y.first || y.first + y.n <= x.first }

  /** Live blocks are aligned, marked and pairwise disjoint. */
  ghost predicate LiveOk(b: seq<Word>, live: set<Block>) {
    && (forall x <- live :: (x.n == 1 || (x.n == BIG && x.first % BIG == 0)))
    && (forall x <- live, k: nat | InBlock(x, k) :: Used(b, k))
    && (forall x <- live, y <- live | x != y :: Disjoint(x, y))
  }

  /** Blocks that have no frame in y. */
  ghost function Outside(live: set<Block>, y: Block): set<Block> { set x | x in live && Disjoint(x, y) }

  /** Block x was free in b and is the only thing marked since. */
  ghost predicate Handed(b: seq<Word>, b': seq<Word>, x: Block) {
    && (forall k: nat | InBlock(x, k) :: !Used(b, k))
    && (forall k: nat {:trigger Used(b', k)} :: Used(b', k) <==> Used(b, k) || InBlock(x, k))
  }

  lemma LiveAdded(b: seq<Word>, b': seq<Word>, live: set<Block>, x: Block)
    requires LiveOk(b, live) && (x.n == 1 || (x.n == BIG && x.first % BIG == 0))
    requires forall k: nat | InBlock(x, k) :: !Used(b, k)
    requires forall k: nat {:trigger Used(b', k)} :: Used(b', k) <==> Used(b, k) || InBlock(x, k)
    ensures LiveOk(b', live + {x}) && x !in live
    ensures forall y <- live :: Disjoint(x, y)
  {
    assert InBlock(x, x.first);
    forall y | y in live
      ensures Disjoint(x, y)
    {
      assert InBlock(y, y.first) && Used(b, y.first) && !Used(b, x.first);
      assert !InBlock(x, y.first) && !InBlock(y, x.first);
    }
  }

  lemma LiveFreed(b: seq<Word>, b': seq<Word>, live: set<Block>, y: Block)
    requires LiveOk(b, live)
    requires forall k: nat {:trigger Used(b', k)} :: Used(b', k) <==> Used(b, k) && !InBlock(y, k)
    ensures LiveOk(b', Outside(live, y))
  {
  }

  /** Freeing a live block takes exactly that one. */
  lemma FreeLiveBlock(b: seq<Word>, live: set<Block>, x: Block)
    requires LiveOk(b, live) && x in live
    ensures Outside(live, x) == live - {x}
  {
  }

  /** The run of marks that clearing n frames from f on clears: those, except that at a word boundary
      other than 0 clearing no frames clears the words on both sides. */
  function ClearedRun(f: nat, n: nat): Block { if Misread(f, f + n) then Block(f - BITS, 2 * BITS) else Block(f, n) }

  /** After the last of the given ranges of frames. */
  function EndOf(ranges: seq<Block>): nat {
    if ranges == [] then 0
    else
      var e, r := EndOf(ranges[..|ranges| - 1]), ranges[|ranges| - 1];
      if e < r.first + r.n then r.first + r.n else e
  }

  lemma {:induction false} EndOfFits(ranges: seq<Block>, n: nat)
    requires forall r <- ranges :: r.first + r.n <= n
    ensures EndOf(ranges) <= n
  {
    if ranges != [] { EndOfFits(ranges[..|ranges| - 1], n); }
  }

  ghost predicate InSome(ranges: seq<Block>, k: nat) { exists r <- ranges :: InBlock(ClearedRun(r.first, r.n), k) }

  // ----- how many frames are left from a cursor on -----

  ghost function ZeroBits(w: Word): nat { if w == [] then 0 else (if w[0] then 0 else 1) + ZeroBits(w[1..]) }

  lemma {:induction false} ZeroBitsTaken(w: Word, j: nat)
    requires j < |w| && !w[j]
    ensures ZeroBits(w) == ZeroBits(w[j := true]) + 1
  {
    if j > 0 {
      ZeroBitsTaken(w[1..], j - 1);
      assert w[j := true][1..] == w[1..][j - 1 := true];
    }
  }

  lemma {:induction false} FullHasNone(w: Word)
    ensures ZeroBits(w) == 0 <==> forall j: nat | j < |w| :: w[j]
  {
    if w != [] {
      FullHasNone(w[1..]);
      assert (forall j: nat | j < |w| :: w[j]) <==> w[0] && forall j: nat | j < |w[1..]| :: w[1..][j] by {
        if forall j: nat | j < |w| :: w[j] { forall j: nat | j < |w[1..]| ensures w[1..][j] { assert w[j + 1]; } }
        if w[0] && forall j: nat | j < |w[1..]| :: w[1..][j] {
          forall j: nat | j < |w| ensures w[j] { if j > 0 { assert w[1..][j - 1]; } }
        }
      }
    }
  }

  lemma {:induction false} ZeroBitsMono(w: Word, v: Word)
    requires |w| == |v| && forall j: nat | j < |w| :: v[j] ==> w[j]
    ensures ZeroBits(w) <= ZeroBits(v)
  {
    if w != [] {
      forall j: nat | j < |w[1..]| ensures v[1..][j] ==> w[1..][j] { assert v[j + 1] ==> w[j + 1]; }
      ZeroBitsMono(w[1..], v[1..]);
    }
  }

  /** Free frames in the words from i up to end. */
  ghost function Left(b: seq<Word>, i: nat, end: nat): nat
    requires end <= |b|
    decreases end - i
  {
    if i >= end then 0 else ZeroBits(b[i]) + Left(b, i + 1, end)
  }

  lemma {:induction false} LeftTaken(b: seq<Word>, i: nat, end: nat, t: nat, w: Word)
    requires i <= t < end <= |b| && ZeroBits(b[t]) == ZeroBits(w) + 1
    ensures Left(b, i, end) == Left(b[t := w], i, end) + 1
    decreases end - i
  {
    if i < t {
      LeftTaken(b, i + 1, end, t, w);
    } else {
      LeftSame(b, b[t := w], i + 1, end);
    }
  }

  lemma {:induction false} LeftSame(b: seq<Word>, b': seq<Word>, i: nat, end: nat)
    requires end <= |b| == |b'| && forall j | i <= j < end :: b'[j] == b[j]
    ensures Left(b, i, end) == Left(b', i, end)
    decreases end - i
  {
    if i < end { LeftSame(b, b', i + 1, end); }
  }

  lemma {:induction false} LeftMono(b: seq<Word>, b': seq<Word>, i: nat, end: nat)
    requires WellFormed(b) && WellFormed(b') && end <= |b| == |b'|
    requires forall k: nat {:trigger Used(b', k)} :: Used(b', k) ==> Used(b, k)
    ensures Left(b, i, end) <= Left(b', i, end)
    decreases end - i
  {
    if i < end {
      forall j: nat | j < BITS
        ensures b'[i][j] ==> b[i][j]
      {
        assert (BITS * i + j) / BITS == i && (BITS * i + j) % BITS == j;
        assert Used(b', BITS * i + j) ==> Used(b, BITS * i + j);
      }
      ZeroBitsMono(b[i], b'[i]);
      LeftMono(b, b', i + 1, end);
    }
  }

  lemma UsedSet(b: seq<Word>, i: nat, j: nat, k: nat)
    requires WellFormed(b) && i < |b| && j < BITS
    ensures Used(b[i := b[i][j := true]], k) <==> Used(b, k) || k == BITS * i + j
    ensures Used(b, BITS * i + j) <==> b[i][j]
  {
    assert (BITS * i + j) / BITS == i && (BITS * i + j) % BITS == j;
    assert k == BITS * (k / BITS) + k % BITS;
  }

  lemma OrBit(w: Word, j: nat)
    requires |w| == BITS && j < BITS
    ensures Or(w, Bit(BITS, j)) == w[j := true]
    ensures And(w, Bit(BITS, j)) == Zero(BITS) <==> !w[j]
  {
    assert w[j] ==> And(w, Bit(BITS, j))[j];
  }

  /** The words from i up to the cursor are full. */
  ghost predicate Passed(b: seq<Word>, i: nat, cursor: nat) {
    i <= cursor && forall k: nat | i <= k / BITS < cursor && k / BITS < |b| :: Used(b, k)
  }

  lemma PassedNone(b: seq<Word>, i: nat)
    ensures Passed(b, i, i)
  {
  }

  lemma PassedMore(b: seq<Word>, i: nat, cursor: nat)
    requires Passed(b, i, cursor) && cursor < |b| && |b[cursor]| == BITS && b[cursor] == Not(Zero(BITS))
    ensures Passed(b, i, cursor + 1)
  {
  }

  lemma PassedKept(b: seq<Word>, b': seq<Word>, i: nat, cursor: nat, x: Block)
    requires Passed(b, i, cursor) && |b'| == |b| && Handed(b, b', x)
    ensures Passed(b', i, cursor)
  {
  }

  /** The frames lie from word i up to the end, and the words before the cursor are full. */
  ghost predicate Window(b: seq<Word>, frames: seq<nat>, i: nat, cursor: nat, end: nat) {
    Passed(b, i, cursor) && forall f <- frames :: i <= f / PAGE / BITS < end
  }

  lemma WindowMore(b: seq<Word>, b': seq<Word>, frames: seq<nat>, addr: nat, i: nat, cursor: nat, cursor': nat, end: nat)
    requires Window(b, frames, i, cursor, end) && |b'| == |b| && Handed(b, b', Block(addr / PAGE, 1))
    requires Passed(b', cursor, cursor') && addr / PAGE / BITS == cursor' < end
    ensures Window(b', frames + [addr], i, cursor', end)
  {
    hide Used, Handed;
    PassedKept(b, b', i, cursor, Block(addr / PAGE, 1));
  }

  /** With nothing left to hand out, every frame of the words that was free was handed out. */
  lemma WindowDone(b0: seq<Word>, b: seq<Word>, frames: seq<nat>, i: nat, cursor: nat, cursor': nat, end: nat, endPage: nat)
    requires Window(b, frames, i, cursor, end) && Passed(b, cursor, cursor') && WellFormed(b) && end <= |b|
    requires Left(b, cursor', end) == 0 && HandedAll(b0, b, frames, endPage)
    ensures forall k: nat | i <= k / BITS < end :: Used(b0, k) || AmongFrames(frames, k)
  {
    hide Used, AmongFrames;
    NoneLeft(b, cursor', end);
    forall k: nat | i <= k / BITS < end
      ensures Used(b0, k) || AmongFrames(frames, k)
    {
      assert Used(b, k);
    }
  }

  lemma {:induction false} NoneLeft(b: seq<Word>, i: nat, end: nat)
    requires WellFormed(b) && end <= |b| && Left(b, i, end) == 0
    ensures forall k: nat | i <= k / BITS < end :: Used(b, k)
    decreases end - i
  {
    if i < end {
      FullHasNone(b[i]);
      NoneLeft(b, i + 1, end);
    }
  }

  lemma SomeZero(w: Word) returns (z: nat)
    requires |w| == BITS && w != Not(Zero(BITS))
    ensures z < BITS && !w[z]
  {
    z :| 0 <= z < BITS && w[z] != Not(Zero(BITS))[z];
  }

  class PhysicalMemory {
    const bitmap: array<Word>
    const endPage: nat           // paging_EndPhysicalPage
    var phy_i: nat
    var phy_i_2M: nat
    var mem: map<nat, Frame>
    ghost var live: set<Block>

    ghost predicate Valid()
      reads this, bitmap
    {
      && bitmap.Length % 8 == 0 && BITS * bitmap.Length <= MAX_PAGES && endPage <= BITS * bitmap.Length && WellFormed(bitmap[..])
      && phy_i >= 4 && phy_i_2M >= 8 && phy_i_2M % 8 == 0
      && (forall k: nat :: k < BITS * bitmap.Length ==> k in mem && |mem[k]| == FRAME_WORDS)
      && LiveOk(bitmap[..], live)
    }

    ghost predicate Marked(k: nat)
      reads this, bitmap
    {
      Used(bitmap[..], k)
    }

    /** Frames that AllocateFrames can still hand out. */
    ghost function Available(): nat
      requires Valid()
      reads this, bitmap
    {
      Left(bitmap[..], phy_i, endPage / BITS)
    }

    /** The bitmap as paging_init sets it up: all ones, then the ranges of conventional memory are
        cleared. `contents` is what the frames hold. */
    constructor (words: nat, ranges: seq<Block>, contents: map<nat, Frame>)
      requires words % 8 == 0 && BITS * words <= MAX_PAGES
      requires forall k: nat | k < BITS * words :: k in contents && |contents[k]| == FRAME_WORDS
      requires forall r <- ranges :: r.first + r.n <= BITS * words && r.first < BITS * words
      ensures Valid() && fresh(bitmap) && bitmap.Length == words && live == {} && mem == contents && endPage == EndOf(ranges)
      ensures forall k: nat | k < BITS * words :: Marked(k) <==> !InSome(ranges, k)
    {
      bitmap := new Word[words](_ => Not(Zero(BITS)));
      endPage := EndOf(ranges);
      phy_i, phy_i_2M := 4, 8;
      mem, live := contents, {};
      new;
      EndOfFits(ranges, BITS * words);
      var i := 0;
      AllMarked(bitmap[..]);
      while i < |ranges|
        invariant i <= |ranges| && WellFormed(bitmap[..]) && live == {} && mem == contents && phy_i == 4 && phy_i_2M == 8
        invariant forall k: nat | k < BITS * words :: Marked(k) <==> !InSome(ranges[..i], k)
      {
        hide Used, Written, InBlock;
        assert ranges[i] in ranges;
        ClearRange(ranges[i].first, ranges[i].n);
        forall k: nat
          ensures InSome(ranges[..i + 1], k) <==> InSome(ranges[..i], k) || InBlock(ClearedRun(ranges[i].first, ranges[i].n), k)
        {
          assert ranges[..i + 1] == ranges[..i] + [ranges[i]];
        }
        i := i + 1;
      }
      assert ranges[..i] == ranges;
    }

    /** BitmapWriteZero on n frames from f on. */
    method ClearRange(f: nat, n: nat)
      requires WellFormed(bitmap[..]) && f + n <= BITS * bitmap.Length && f < BITS * bitmap.Length
      modifies bitmap
      ensures WellFormed(bitmap[..])
      ensures forall k: nat {:trigger Used(bitmap[..], k)} ::
                Used(bitmap[..], k) <==> Used(old(bitmap[..]), k) && !InBlock(ClearedRun(f, n), k)
    {
      hide Written;
      ClearedBits(bitmap[..], f, n);
      WriteRange(f, f + n, false);
    }

    /** Blocks that AllocateFrames2M can still hand out. */
    ghost function AvailableBlocks(): nat
      requires Valid()
      reads this, bitmap
    {
      Groups(bitmap[..], phy_i_2M, endPage / BITS)
    }

    /** BitmapWriteOne and BitmapWriteZero. */
    method WriteRange(begin: nat, end: nat, one: bool)
      requires WellFormed(bitmap[..]) && begin <= end <= BITS * bitmap.Length && begin < BITS * bitmap.Length
      modifies bitmap
      ensures bitmap[..] == Written(old(bitmap[..]), begin, end, one)
    {
      ghost var b := bitmap[..];
      var whereBegin, whereLast := begin / BITS, LastWord(end);
      MaskSizes(b, begin, end);
      if whereBegin == whereLast {
        WriteWord(whereBegin, FillBits(begin % BITS, LastBit(end)), one);
      } else {
        WriteWord(whereBegin, FillBits(begin % BITS, BITS - 1), one);
        WriteWord(whereLast, FillBits(0, LastBit(end)), one);
        FillWords(whereBegin + 1, whereLast, one);
        FullMasks(b, one);
      }
    }

    method FillWords(begin: nat, end: int, one: bool)
      requires end <= bitmap.Length
      modifies bitmap
      ensures forall j | 0 <= j < bitmap.Length ::
                bitmap[j] == if begin <= j < end then (if one then Not(Zero(BITS)) else Zero(BITS)) else old(bitmap[j])
    {
      var i := begin;
      while i < end
        invariant begin <= i && (i <= end || i == begin)
        invariant forall j | 0 <= j < bitmap.Length ::
                    bitmap[j] == if begin <= j < i then (if one then Not(Zero(BITS)) else Zero(BITS)) else old(bitmap[j])
      {
        bitmap[i] := if one then Not(Zero(BITS)) else Zero(BITS);
        i := i + 1;
      }
    }

    method WriteWord(i: nat, mask: Word, one: bool)
      requires i < bitmap.Length && |bitmap[i]| == |mask|
      modifies bitmap
      ensures bitmap[..] == old(bitmap[..])[i := if one then Or(old(bitmap[i]), mask) else And(old(bitmap[i]), Not(mask))]
    {
      bitmap[i] := if one then Or(bitmap[i], mask) else And(bitmap[i], Not(mask));
    }

    /** The lowest clear bit of a word. */
    static method FirstFree(w: Word) returns (j: nat)
      requires |w| == BITS && w != Not(Zero(BITS))
      ensures j < BITS && !w[j] && forall t: nat | t < j :: w[t]
    {
      j := 0;
      ghost var z := SomeZero(w);
      while And(w, Bit(BITS, j)) != Zero(BITS)
        invariant j <= z && forall t: nat | t < j :: w[t]
        decreases BITS - j
      {
        OrBit(w, j);
        j := j + 1;
      }
      OrBit(w, j);
    }

    /** Bit j of the word at the cursor is set, and its frame zeroed. */
    method TakeFrame(j: nat) returns (addr: nat)
      requires Valid() && phy_i < endPage / BITS && j < BITS && !bitmap[phy_i][j]
      modifies this`mem, this`live, bitmap
      ensures Valid() && addr % PAGE == 0 && addr >= 256 * PAGE && addr / PAGE < endPage
      ensures Handed(old(bitmap[..]), bitmap[..], Block(addr / PAGE, 1)) && old(Available()) > 0 && Available() == old(Available()) - 1
      ensures addr / PAGE / BITS == phy_i
      ensures mem == old(mem)[addr / PAGE := ZeroFrame()] && live == old(live) + {Block(addr / PAGE, 1)}
    {
      hide LiveOk, Handed, ZeroBits, Left;
      ghost var b := bitmap[..];
      OrBit(bitmap[phy_i], j);
      ghost var w := b[phy_i][j := true];
      ZeroBitsTaken(b[phy_i], j);
      LeftTaken(b, phy_i, endPage / BITS, phy_i, w);
      bitmap[phy_i] := Or(bitmap[phy_i], Bit(BITS, j));
      addr := (phy_i * BITS + j) * PAGE;
      mem := mem[phy_i * BITS + j := ZeroFrame()];
      FrameTaken(b, phy_i, j, live);
      live := live + {Block(addr / PAGE, 1)};
      assert bitmap[..] == b[phy_i := w];
    }

    /** One round of AllocateFrames: the first free frame from the cursor on, zeroed; 0 if there is
        none. */
    method NextFrame() returns (addr: nat)
      requires Valid()
      modifies this`phy_i, this`mem, this`live, bitmap
      ensures Valid()
      ensures addr == 0 <==> old(Available()) == 0
      ensures addr == 0 ==> bitmap[..] == old(bitmap[..]) && mem == old(mem) && live == old(live) && Available() == 0
      ensures addr != 0 ==> Handed(old(bitmap[..]), bitmap[..], Block(addr / PAGE, 1)) && addr % PAGE == 0 && addr >= 256 * PAGE
      ensures addr != 0 ==> mem == old(mem)[addr / PAGE := ZeroFrame()] && live == old(live) + {Block(addr / PAGE, 1)}
      ensures addr != 0 ==> addr / PAGE < endPage && Available() == old(Available()) - 1
      ensures Passed(bitmap[..], old(phy_i), phy_i) && (addr != 0 ==> addr / PAGE / BITS == phy_i < endPage / BITS)
    {
      hide LiveOk, Handed, ZeroBits, Passed;
      ghost var b, start := bitmap[..], phy_i;
      PassedNone(b, start);
      addr := 0;
      while phy_i < endPage / BITS
        invariant bitmap[..] == b && Valid() && Available() == old(Available())
        invariant mem == old(mem) && live == old(live) && Passed(b, start, phy_i)
      {
        FullHasNone(b[phy_i]);
        if bitmap[phy_i] != Not(Zero(BITS)) {
          var j := FirstFree(bitmap[phy_i]);
          addr := TakeFrame(j);
          PassedKept(b, bitmap[..], start, phy_i, Block(addr / PAGE, 1));
          return;
        }
        PassedMore(b, start, phy_i);
        phy_i := phy_i + 1;
      }
    }

    /** AllocateFrames: as many single frames as are left, at most pageCount. */
    method AllocateFrames(pageCount: nat, frames: array<nat>) returns (page: nat)
      requires Valid() && pageCount <= frames.Length
      modifies this`phy_i, this`mem, this`live, bitmap, frames
      ensures Valid() && page == (if pageCount <= old(Available()) then pageCount else old(Available()))
      ensures Available() == old(Available()) - page
      ensures HandedAll(old(bitmap[..]), bitmap[..], frames[..page], endPage)
      ensures live == old(live) + BlocksAt(frames[..page], 1)
      ensures forall i | 0 <= i < page :: frames[i] / PAGE in mem && mem[frames[i] / PAGE] == ZeroFrame()
      ensures forall k: nat | k in old(mem) && !AmongFrames(frames[..page], k) :: k in mem && mem[k] == old(mem)[k]
      ensures page < pageCount ==> frames[page] == 0
      ensures forall f <- frames[..page] :: old(phy_i) <= f / PAGE / BITS < endPage / BITS
      ensures page < pageCount ==> forall k: nat | old(phy_i) <= k / BITS < endPage / BITS ::
                Used(old(bitmap[..]), k) || AmongFrames(frames[..page], k)
    {
      hide LiveOk, Left, HandedAll, Handed, BlocksAt, Used, Passed, ZeroedEach, AmongFrames;
      ghost var b, left, start := bitmap[..], Available(), phy_i;
      EachNone(mem);
      PassedNone(b, start);
      page := 0;
      HandedNone(b, endPage);
      BlocksNone(b);
      while page < pageCount
        invariant page <= pageCount && page <= left && Valid() && Available() == left - page
        invariant HandedAll(b, bitmap[..], frames[..page], endPage)
        invariant live == old(live) + BlocksAt(frames[..page], 1) && Window(bitmap[..], frames[..page], start, phy_i, endPage / BITS)
        invariant ZeroedEach(old(mem), mem, frames[..page])
      {
        ghost var b1, m1, fs, cursor := bitmap[..], mem, frames[..page], phy_i;
        frames[page] := 0;
        var addr := NextFrame();
        if addr == 0 {
          assert frames[..page] == fs;
          WindowDone(b, b1, fs, start, cursor, phy_i, endPage / BITS, endPage);
          EachFacts(old(mem), mem, fs, b, b1, endPage, BITS * bitmap.Length);
          return;
        }
        WindowMore(b1, bitmap[..], fs, addr, start, cursor, phy_i, endPage / BITS);
        frames[page] := addr;
        HandedMore(b, b1, bitmap[..], fs, addr, endPage);
        BlocksPlus(fs, addr, 1);
        EachMore(old(mem), m1, mem, fs, addr);
        assert frames[..page + 1] == fs + [addr];
        page := page + 1;
      }
      EachFacts(old(mem), mem, frames[..page], b, bitmap[..], endPage, BITS * bitmap.Length);
    }

    /** One round of AllocateFrames2M: the first group of eight empty words from the cursor on. */
    method NextBlock() returns (addr: nat)
      requires Valid()
      modifies this`phy_i_2M, this`mem, this`live, bitmap
      ensures Valid()
      ensures addr == 0 ==> bitmap[..] == old(bitmap[..]) && mem == old(mem) && live == old(live) && AvailableBlocks() == 0
      ensures addr == 0 <==> old(AvailableBlocks()) == 0
      ensures addr == 0 ==> forall g: nat | old(phy_i_2M) <= g < endPage / BITS && g % 8 == 0 :: !EmptyGroup(bitmap[..], g)
      ensures addr != 0 ==> AvailableBlocks() == old(AvailableBlocks()) - 1
      ensures addr != 0 ==> Handed(old(bitmap[..]), bitmap[..], Block(addr / PAGE, BIG)) && addr % (BIG * PAGE) == 0 && addr >= BIG * PAGE
      ensures addr != 0 ==> mem == Zeroed(old(mem), addr / PAGE) && live == old(live) + {Block(addr / PAGE, BIG)}
    {
      hide LiveOk, Handed, Used, EmptyGroup, Zeroed;
      ghost var b := bitmap[..];
      NoGroups(b, phy_i_2M, endPage / BITS);
      addr := 0;
      while phy_i_2M < endPage / BITS
        invariant bitmap[..] == b && Valid()
        invariant mem == old(mem) && live == old(live)
        invariant Groups(b, phy_i_2M, endPage / BITS) == old(AvailableBlocks())
      {
        var empty := IsEmptyGroup(phy_i_2M);
        if empty {
          addr := TakeGroup();
          return;
        }
        phy_i_2M := phy_i_2M + 8;
      }
    }

    /** The eight words at the cursor become a block. */
    method TakeGroup() returns (addr: nat)
      requires Valid() && phy_i_2M < endPage / BITS && EmptyGroup(bitmap[..], phy_i_2M)
      modifies this`mem, this`live, bitmap
      ensures Valid() && addr % (BIG * PAGE) == 0 && addr >= BIG * PAGE
      ensures Handed(old(bitmap[..]), bitmap[..], Block(addr / PAGE, BIG))
      ensures old(AvailableBlocks()) > 0 && AvailableBlocks() == old(AvailableBlocks()) - 1
      ensures mem == Zeroed(old(mem), addr / PAGE) && live == old(live) + {Block(addr / PAGE, BIG)}
    {
      hide LiveOk, Handed, Used, EmptyGroup, Zeroed, Groups;
      ghost var b := bitmap[..];
      FillGroup();
      GroupGone(b, bitmap[..], phy_i_2M, endPage / BITS);
      addr := phy_i_2M * BITS * PAGE;
      mem := Zeroed(mem, phy_i_2M * BITS);
      ZeroedFrames(old(mem), phy_i_2M * BITS);
      GroupTaken(b, bitmap[..], phy_i_2M, live);
      live := live + {Block(addr / PAGE, BIG)};
    }

    method IsEmptyGroup(g: nat) returns (empty: bool)
      requires g + 8 <= bitmap.Length
      ensures empty <==> EmptyGroup(bitmap[..], g)
    {
      var j := 0;
      while j < 8
        invariant j <= 8 && forall t: nat | g <= t < g + j :: bitmap[..][t] == Zero(BITS)
      {
        if bitmap[g + j] != Zero(BITS) { return false; }
        j := j + 1;
      }
      return true;
    }

    method FillGroup()
      requires phy_i_2M + 8 <= bitmap.Length
      modifies bitmap
      ensures forall t: nat | t < bitmap.Length ::
                bitmap[t] == if phy_i_2M <= t < phy_i_2M + 8 then Not(Zero(BITS)) else old(bitmap[t])
    {
      var j := 0;
      while j < 8
        invariant j <= 8
        invariant forall t: nat | t < bitmap.Length ::
                    bitmap[t] == if phy_i_2M <= t < phy_i_2M + j then Not(Zero(BITS)) else old(bitmap[t])
      {
        bitmap[phy_i_2M + j] := Not(Zero(BITS));
        j := j + 1;
      }
    }

    /** AllocateFrames2M. */
    method AllocateFrames2M(pageCount: nat, frames: array<nat>) returns (page: nat)
      requires Valid() && pageCount <= frames.Length
      modifies this`phy_i_2M, this`mem, this`live, bitmap, frames
      ensures Valid() && page == (if pageCount <= old(AvailableBlocks()) then pageCount else old(AvailableBlocks()))
      ensures AvailableBlocks() == old(AvailableBlocks()) - page
      ensures HandedBlocks(old(bitmap[..]), bitmap[..], frames[..page])
      ensures ZeroedBlocks(old(mem), mem, frames[..page])
      ensures live == old(live) + BlocksAt(frames[..page], BIG)
      ensures page < pageCount ==> frames[page] == 0
    {
      hide LiveOk, HandedBlocks, Handed, BlocksAt, ZeroedBlocks, Groups, Zeroed;
      ghost var b, left := bitmap[..], AvailableBlocks();
      ZeroedNone(mem);
      page := 0;
      BlocksNone(b);
      while page < pageCount
        invariant page <= pageCount && page <= left && Valid() && AvailableBlocks() == left - page
        invariant HandedBlocks(b, bitmap[..], frames[..page]) && ZeroedBlocks(old(mem), mem, frames[..page])
        invariant live == old(live) + BlocksAt(frames[..page], BIG)
      {
        ghost var b1, m1, fs := bitmap[..], mem, frames[..page];
        frames[page] := 0;
        var addr := NextBlock();
        if addr == 0 { assert frames[..page] == fs; break; }
        frames[page] := addr;
        BlocksMore(b, b1, bitmap[..], fs, addr);
        ZeroedMore(old(mem), m1, mem, fs, addr);
        BlocksPlus(fs, addr, BIG);
        assert frames[..page + 1] == fs + [addr];
        page := page + 1;
      }
    }

    /** FreeFrame: clears the marks of pageCount frames; a misaligned address is ignored. */
    method FreeFrame(frame: nat, pageCount: nat)
      requires Valid() && frame / PAGE + pageCount <= BITS * bitmap.Length && frame / PAGE < BITS * bitmap.Length
      modifies this`live, bitmap
      ensures Valid()
      ensures frame % PAGE != 0 ==> bitmap[..] == old(bitmap[..]) && live == old(live)
      ensures frame % PAGE == 0 ==> forall k: nat {:trigger Used(bitmap[..], k)} ::
                Used(bitmap[..], k) <==> Used(old(bitmap[..]), k) && !InBlock(ClearedRun(frame / PAGE, pageCount), k)
      ensures frame % PAGE == 0 ==> live == Outside(old(live), ClearedRun(frame / PAGE, pageCount))
      ensures Available() >= old(Available())
    {
      hide LiveOk, Left;
      if frame % PAGE != 0 { return; }
      ghost var b := bitmap[..];
      var f := frame / PAGE;
      ClearRange(f, pageCount);
      ghost var b' := bitmap[..];
      assert |b'| == |b|;
      LiveFreed(b, b', live, ClearedRun(f, pageCount));
      LeftMono(b, b', phy_i, endPage / BITS);
      live := Outside(live, ClearedRun(f, pageCount));
    }

    /** The cursor never moves back: once the allocator is asked for more than it has left, a frame freed
        before is among what it hands out exactly when its word lies from the cursor on. */
    method FreedComesBack(frame: nat, frames: array<nat>) returns (page: nat)
      requires Valid() && frame % PAGE == 0 && frame / PAGE < BITS * bitmap.Length
      modifies this`phy_i, this`mem, this`live, bitmap, frames
      ensures Valid() && page <= frames.Length
      ensures page < frames.Length ==> (AmongFrames(frames[..page], frame / PAGE) <==> old(phy_i) <= frame / PAGE / BITS < endPage / BITS)
    {
      hide LiveOk, Left, HandedAll, Used;
      FreeFrame(frame, 1);
      assert InBlock(ClearedRun(frame / PAGE, 1), frame / PAGE);
      assert PAGE * (frame / PAGE) == frame;
      page := AllocateFrames(frames.Length, frames);
    }
  }

  lemma AllMarked(b: seq<Word>)
    requires forall i | 0 <= i < |b| :: b[i] == Not(Zero(BITS))
    ensures WellFormed(b) && forall k: nat | k < BITS * |b| :: Used(b, k)
  {
  }

  lemma ClearedBits(b: seq<Word>, f: nat, n: nat)
    requires WellFormed(b) && f + n <= BITS * |b|
    ensures var b' := Written(b, f, f + n, false);
            WellFormed(b') && forall k: nat {:trigger Used(b', k)} :: Used(b', k) <==> Used(b, k) && !InBlock(ClearedRun(f, n), k)
  {
    hide Written, Mask;
    var b' := Written(b, f, f + n, false);
    WrittenSizes(b, f, f + n);
    forall k: nat
      ensures Used(b', k) <==> Used(b, k) && !InBlock(ClearedRun(f, n), k)
    {
      if k < BITS * |b| {
        WrittenAt(b, f, f + n, false, k);
        MaskSpec(f, f + n, k);
      } else {
        assert k / BITS >= |b|;
      }
    }
  }

  lemma WrittenSizes(b: seq<Word>, begin: nat, end: nat)
    requires WellFormed(b) && begin <= end
    ensures WellFormed(Written(b, begin, end, false)) && |Written(b, begin, end, false)| == |b|
  {
    if b != [] { WrittenAt(b, begin, end, false, 0); }
  }

  ghost predicate EmptyGroup(b: seq<Word>, g: nat) { g + 8 <= |b| && forall t: nat | g <= t < g + 8 :: b[t] == Zero(BITS) }

  function Zeroed(m: map<nat, Frame>, f: nat): map<nat, Frame> {
    map k | k in m :: if f <= k < f + BIG then ZeroFrame() else m[k]
  }

  /** The frames of the listed blocks are zero, all others as they were. */
  ghost predicate ZeroedBlocks(m: map<nat, Frame>, m': map<nat, Frame>, frames: seq<nat>) {
    m'.Keys == m.Keys && forall k <- m :: m'[k] == if AmongBlocks(frames, k) then ZeroFrame() else m[k]
  }

  lemma ZeroedNone(m: map<nat, Frame>)
    ensures ZeroedBlocks(m, m, [])
  {
  }

  lemma ZeroedMore(m: map<nat, Frame>, m1: map<nat, Frame>, m2: map<nat, Frame>, fs: seq<nat>, addr: nat)
    requires ZeroedBlocks(m, m1, fs) && addr % (BIG * PAGE) == 0 && m2 == Zeroed(m1, addr / PAGE)
    ensures ZeroedBlocks(m, m2, fs + [addr])
  {
    forall k | k in m
      ensures AmongBlocks(fs + [addr], k) <==> AmongBlocks(fs, k) || addr / PAGE <= k < addr / PAGE + BIG
    {
      BlockOf(addr, k);
    }
  }

  /** Empty groups of eight words from g on. */
  ghost function Groups(b: seq<Word>, g: nat, end: nat): nat
    decreases end - g
  {
    if g >= end then 0 else (if EmptyGroup(b, g) then 1 else 0) + Groups(b, g + 8, end)
  }

  lemma {:induction false} NoGroups(b: seq<Word>, g: nat, end: nat)
    requires g % 8 == 0
    ensures Groups(b, g, end) == 0 <==> forall x: nat | g <= x < end && x % 8 == 0 :: !EmptyGroup(b, x)
    decreases end - g
  {
    if g < end { NoGroups(b, g + 8, end); }
  }

  lemma {:induction false} GroupsSame(b: seq<Word>, b': seq<Word>, g: nat, end: nat)
    requires |b'| == |b| && forall t: nat | g <= t < |b| :: b'[t] == b[t]
    ensures Groups(b', g, end) == Groups(b, g, end)
    decreases end - g
  {
    if g < end { GroupsSame(b, b', g + 8, end); }
  }

  lemma GroupGone(b: seq<Word>, b': seq<Word>, g: nat, end: nat)
    requires WellFormed(b) && EmptyGroup(b, g) && g < end && |b'| == |b|
    requires forall t: nat | t < |b| :: b'[t] == if g <= t < g + 8 then Not(Zero(BITS)) else b[t]
    ensures Groups(b, g, end) == Groups(b', g, end) + 1
  {
    assert b'[g] != Zero(BITS) by { assert !Zero(BITS)[0] && b'[g][0]; }
    GroupsSame(b, b', g + 8, end);
  }

  lemma ZeroedFrames(m: map<nat, Frame>, f: nat)
    ensures Zeroed(m, f).Keys == m.Keys && forall k <- m :: |m[k]| == FRAME_WORDS ==> |Zeroed(m, f)[k]| == FRAME_WORDS
  {
  }

  lemma GroupTaken(b: seq<Word>, b': seq<Word>, g: nat, live: set<Block>)
    requires WellFormed(b) && EmptyGroup(b, g) && LiveOk(b, live) && |b'| == |b| && g % 8 == 0
    requires forall t: nat | t < |b| :: b'[t] == if g <= t < g + 8 then Not(Zero(BITS)) else b[t]
    ensures var x := Block(BITS * g, BIG); Handed(b, b', x) && WellFormed(b') && LiveOk(b', live + {x})
  {
    var x := Block(BITS * g, BIG);
    forall k: nat
      ensures InBlock(x, k) <==> g <= k / BITS < g + 8
    {
    }
    forall k: nat | InBlock(x, k)
      ensures !Used(b, k)
    {
      assert b[k / BITS] == Zero(BITS);
    }
    LiveAdded(b, b', live, x);
  }

  ghost predicate AmongBlocks(frames: seq<nat>, k: nat) { PAGE * (k / BIG * BIG) in frames }

  ghost function BlocksAt(frames: seq<nat>, n: nat): set<Block> { set f | f in frames :: Block(f / PAGE, n) }

  /** Distinct 2M-aligned blocks that were wholly free in b; they are what was marked since. */
  ghost predicate HandedBlocks(b: seq<Word>, b': seq<Word>, frames: seq<nat>) {
    && (forall i | 0 <= i < |frames| :: frames[i] % (BIG * PAGE) == 0 && BIG * PAGE <= frames[i])
    && (forall i, j | 0 <= i < j < |frames| :: frames[i] != frames[j])
    && (forall k: nat | AmongBlocks(frames, k) :: !Used(b, k))
    && (forall k: nat {:trigger Used(b', k)} :: Used(b', k) <==> Used(b, k) || AmongBlocks(frames, k))
  }

  lemma BlocksNone(b: seq<Word>)
    ensures HandedBlocks(b, b, [])
    ensures forall n: nat {:trigger BlocksAt([], n)} :: BlocksAt([], n) == {}
  {
  }

  lemma BlocksMore(b: seq<Word>, b1: seq<Word>, b2: seq<Word>, fs: seq<nat>, addr: nat)
    requires HandedBlocks(b, b1, fs) && addr % (BIG * PAGE) == 0 && BIG * PAGE <= addr
    requires Handed(b1, b2, Block(addr / PAGE, BIG))
    ensures HandedBlocks(b, b2, fs + [addr])
  {
    var x := Block(addr / PAGE, BIG);
    forall k: nat
      ensures InBlock(x, k) <==> PAGE * (k / BIG * BIG) == addr
    {
      BlockOf(addr, k);
    }
    forall k: nat
      ensures AmongBlocks(fs + [addr], k) <==> AmongBlocks(fs, k) || InBlock(x, k)
    {
    }
    assert InBlock(x, addr / PAGE);
    forall i | 0 <= i < |fs|
      ensures fs[i] != addr
    {
      BlockOf(fs[i], fs[i] / PAGE);
      assert AmongBlocks(fs, fs[i] / PAGE);
    }
  }

  lemma BlocksPlus(fs: seq<nat>, addr: nat, n: nat)
    ensures BlocksAt(fs + [addr], n) == BlocksAt(fs, n) + {Block(addr / PAGE, n)}
  {
    assert addr in fs + [addr];
    assert forall f :: f in fs + [addr] <==> f in fs || f == addr;
  }

  lemma BlockOf(addr: nat, k: nat)
    requires addr % (BIG * PAGE) == 0
    ensures InBlock(Block(addr / PAGE, BIG), k) <==> PAGE * (k / BIG * BIG) == addr
  {
    var q := addr / 0x20_0000;
    assert addr == 0x20_0000 * q;
    assert addr / 4096 == 512 * q;
    WithinBlock(q, k);
  }

  lemma WithinBlock(q: nat, k: nat)
    ensures 512 * q <= k < 512 * q + 512 <==> k / 512 == q
  {
  }

  /** Distinct page-aligned frames above the first 1M that were free in b; they are what was marked since. */
  ghost predicate HandedAll(b: seq<Word>, b': seq<Word>, frames: seq<nat>, endPage: nat) {
    && (forall i | 0 <= i < |frames| :: frames[i] % PAGE == 0 && 256 * PAGE <= frames[i] < endPage * PAGE && !Used(b, frames[i] / PAGE))
    && (forall i, j | 0 <= i < j < |frames| :: frames[i] != frames[j])
    && (forall k: nat {:trigger Used(b', k)} :: Used(b', k) <==> Used(b, k) || AmongFrames(frames, k))
  }

  /** The listed frames are zero, all others as they were. */
  ghost predicate ZeroedEach(m: map<nat, Frame>, m': map<nat, Frame>, frames: seq<nat>) {
    m'.Keys == m.Keys && forall k <- m :: m'[k] == if AmongFrames(frames, k) then ZeroFrame() else m[k]
  }

  lemma EachNone(m: map<nat, Frame>)
    ensures ZeroedEach(m, m, [])
  {
  }

  lemma EachMore(m: map<nat, Frame>, m1: map<nat, Frame>, m2: map<nat, Frame>, fs: seq<nat>, addr: nat)
    requires ZeroedEach(m, m1, fs) && addr % PAGE == 0 && addr / PAGE in m1 && m2 == m1[addr / PAGE := ZeroFrame()]
    ensures ZeroedEach(m, m2, fs + [addr])
  {
    forall k | k in m
      ensures AmongFrames(fs + [addr], k) <==> AmongFrames(fs, k) || k == addr / PAGE
    {
    }
  }

  lemma EachFacts(m: map<nat, Frame>, m': map<nat, Frame>, frames: seq<nat>, b: seq<Word>, b': seq<Word>, endPage: nat, size: nat)
    requires ZeroedEach(m, m', frames) && HandedAll(b, b', frames, endPage) && endPage <= size && forall k: nat :: k < size ==> k in m
    ensures forall i | 0 <= i < |frames| :: frames[i] / PAGE in m' && m'[frames[i] / PAGE] == ZeroFrame()
    ensures forall k: nat | k in m && !AmongFrames(frames, k) :: k in m' && m'[k] == m[k]
  {
    hide Used;
    forall i | 0 <= i < |frames|
      ensures frames[i] / PAGE in m' && m'[frames[i] / PAGE] == ZeroFrame()
    {
      var k := frames[i] / PAGE;
      assert PAGE * k == frames[i] && AmongFrames(frames, k);
      assert k in m;
    }
  }

  lemma HandedNone(b: seq<Word>, endPage: nat)
    ensures HandedAll(b, b, [], endPage)
  {
  }

  lemma HandedMore(b: seq<Word>, b1: seq<Word>, b2: seq<Word>, fs: seq<nat>, addr: nat, endPage: nat)
    requires HandedAll(b, b1, fs, endPage) && addr % PAGE == 0 && 256 * PAGE <= addr && addr / PAGE < endPage
    requires Handed(b1, b2, Block(addr / PAGE, 1))
    ensures HandedAll(b, b2, fs + [addr], endPage)
  {
    var x := Block(addr / PAGE, 1);
    assert InBlock(x, addr / PAGE);
    assert PAGE * (addr / PAGE) == addr;
    forall k: nat
      ensures AmongFrames(fs + [addr], k) <==> AmongFrames(fs, k) || InBlock(x, k)
    {
    }
    forall i | 0 <= i < |fs|
      ensures fs[i] != addr
    {
      assert PAGE * (fs[i] / PAGE) == fs[i] && AmongFrames(fs, fs[i] / PAGE);
    }
  }

  lemma FrameTaken(b: seq<Word>, i: nat, j: nat, live: set<Block>)
    requires WellFormed(b) && i < |b| && j < BITS && !b[i][j] && LiveOk(b, live)
    ensures var b', x := b[i := b[i][j := true]], Block(BITS * i + j, 1);
            Handed(b, b', x) && WellFormed(b') && LiveOk(b', live + {x})
  {
    var b', x := b[i := b[i][j := true]], Block(BITS * i + j, 1);
    UsedSet(b, i, j, 0);
    forall k: nat
      ensures Used(b', k) <==> Used(b, k) || InBlock(x, k)
    {
      UsedSet(b, i, j, k);
    }
    LiveAdded(b, b', live, x);
  }

  /** The frames handed out in one call. */
  ghost predicate AmongFrames(frames: seq<nat>, k: nat) { PAGE * k in frames }

  lemma FullMasks(b: seq<Word>, one: bool)
    requires WellFormed(b)
    ensures forall i | 0 <= i < |b| ::
              (if one then Or(b[i], Not(Zero(BITS))) else And(b[i], Not(Not(Zero(BITS))))) == if one then Not(Zero(BITS)) else Zero(BITS)
  {
  }

  lemma MaskSizes(b: seq<Word>, begin: nat, end: nat)
    requires WellFormed(b) && begin <= end
    ensures forall i: nat {:trigger Mask(begin, end, i)} :: |Mask(begin, end, i)| == BITS
    ensures forall i | 0 <= i < |b| :: Or(b[i], Zero(BITS)) == b[i] && And(b[i], Not(Zero(BITS))) == b[i]
    ensures |FillBits(begin % BITS, LastBit(end))| == BITS && |FillBits(begin % BITS, BITS - 1)| == BITS && |FillBits(0, LastBit(end))| == BITS
  {
    forall i: nat
      ensures |Mask(begin, end, i)| == BITS
    {
      MaskSpec(begin, end, i * BITS);
    }
    FillBitsSpec(begin % BITS, LastBit(end), 0);
    FillBitsSpec(begin % BITS, BITS - 1, 0);
    FillBitsSpec(0, LastBit(end), 0);
  }
}
