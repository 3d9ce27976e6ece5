/** What malloc and free do to the whole heap (extlib/dlmalloc/malloc.c): the arena together with dv,
    the designated victim, and the chunks that bins hold. */
module HeapSteps {
  import opened Arena

  const HEAP_BASE: nat := 0xFFFF_FFFF_0000_0000 // KERNEL_HEAP_VIRTUAL
  const ADDRESS_SPACE: nat := 0x1_0000_0000_0000_0000
  const CMFAIL: int := -1

  /** memory_AddBreak moves the break, in 64 bits, unless that takes it below the heap. */
  predicate Moves(brk: nat, inc: int) { (brk + inc) % ADDRESS_SPACE >= HEAP_BASE }

  function Moved(brk: nat, inc: int): nat { if Moves(brk, inc) then (brk + inc) % ADDRESS_SPACE else brk }

  /** Every free chunk below top is dv or in a bin. */
  ghost function Binned(a: Arena, dv: int): map<int, nat> { Free(a) - {dv} }

  ghost predicate DvOk(a: Arena, dv: int, dvsize: nat) {
    if dvsize == 0 then dv == 0 else dv in Free(a) && Free(a)[dv] == dvsize
  }

  /** The one segment runs from the heap base to the break, with some overhead space behind top. */
  ghost predicate SegmentOk(a: Arena, brk: nat) {
    a.base == HEAP_BASE && a.top + a.topsize + TOP_FOOT_SIZE == brk < ADDRESS_SPACE && brk % 4096 == 0
  }

  ghost predicate Ready(a: Arena, dv: int, dvsize: nat, brk: nat) { Ok(a) && DvOk(a, dv, dvsize) && SegmentOk(a, brk) }

  /** The client got chunk p, large enough for nb, and nothing else changed hands. It got nb bytes of
      it, or the whole of a free chunk that leaves too little for another one. */
  ghost predicate Allocated(a: Arena, b: Arena, p: int, nb: nat) {
    && p !in InUse(a) && p in InUse(b) && nb <= InUse(b)[p] < nb + MIN_CHUNK_SIZE
    && InUse(b)[p] == (if p in Free(a) && Free(a)[p] < nb + MIN_CHUNK_SIZE then Free(a)[p] else nb)
    && InUse(b) == InUse(a)[p := InUse(b)[p]]
  }

  lemma FreeFacts(a: Arena, p: int)
    requires Ok(a) && p in Free(a)
    ensures p in a.chunks && !Cinuse(a, p) && Size(a, p) == Free(a)[p] && p in a.head && p !in InUse(a)
    ensures Next(a, p) in a.chunks && Next(a, p) in a.head && Cinuse(a, Next(a, p)) && p != 0 && Pinuse(a, p)
    ensures !Pinuse(a, Next(a, p))
  {
    hide Ok;
    ChunkFacts(a, p);
    ChunkFacts(a, Next(a, p));
    FreeIsPinuse(a, p);
  }

  lemma FreeSizes(a: Arena, brk: nat, p: int)
    requires Ok(a) && SegmentOk(a, brk) && p in Free(a)
    ensures p > 0 && 32 <= Free(a)[p] < 0x1_0000_0000 && Free(a)[p] % ALIGN == 0
  {
    hide Ok;
    ChunkFacts(a, p);
  }

  lemma DvFacts(a: Arena, dv: int, dvsize: nat, brk: nat)
    requires Ready(a, dv, dvsize, brk)
    ensures dvsize > 0 ==> dv in Free(a) && Free(a)[dv] == dvsize && dv > 0 && 32 <= dvsize < 0x1_0000_0000 && dvsize % ALIGN == 0
    ensures dvsize == 0 ==> dv == 0
    ensures dv !in Binned(a, dv) && a.top > 0 && 0 < a.topsize < 0x1_0000_0000 && a.topsize % ALIGN == 0 && a.base <= a.top
  {
    if dvsize > 0 { FreeSizes(a, brk, dv); }
  }

  /** A heap with a binned chunk is initialized. */
  lemma BinnedFacts(a: Arena, dv: int, dvsize: nat, brk: nat, v: int)
    requires Blank(a) || Ready(a, dv, dvsize, brk)
    requires v in Binned(a, dv)
    ensures Ready(a, dv, dvsize, brk) && v != 0 && v != dv && Free(a)[v] % ALIGN == 0 && Free(a)[v] < 0x1_0000_0000
    ensures dvsize > 0 ==> dv in Free(a) && Free(a)[dv] == dvsize
    ensures forall w <- Free(a) :: w == dv || w in Binned(a, dv)
    ensures dvsize == 0 ==> Binned(a, dv) == Free(a)
  {
    FreeSizes(a, brk, v);
    FreeNotZero(a);
  }

  lemma AllocatedPositive(a: Arena, b: Arena, p: int, nb: nat)
    requires (Blank(b) || Ok(b)) && Allocated(a, b, p, nb)
    ensures p > 0
  {
    if !Blank(b) { ChunkFacts(b, p); }
  }

  lemma InUseFacts(a: Arena, p: int)
    requires Ok(a)
    ensures p in a.chunks && !Cinuse(a, p) ==> p !in InUse(a)
    ensures a.top !in InUse(a) && a.top !in Free(a)
  {
    EdgeFacts(a);
  }

  // ----- malloc -----

  lemma TookBinned(a: Arena, dv: int, dvsize: nat, brk: nat, p: int, nb: nat)
    requires Ready(a, dv, dvsize, brk) && p in Binned(a, dv) && nb <= Free(a)[p] < nb + MIN_CHUNK_SIZE
    ensures Ready(TakeWhole(a, p), dv, dvsize, brk) && Allocated(a, TakeWhole(a, p), p, nb)
    ensures Binned(TakeWhole(a, p), dv) == Binned(a, dv) - {p}
  {
    hide Ok, InUse, Free, TakeWhole;
    FreeFacts(a, p);
    TakeWholeOk(a, p);
    TakeWholeEdges(a, p);
  }

  lemma TookDv(a: Arena, dv: int, dvsize: nat, brk: nat, nb: nat)
    requires Ready(a, dv, dvsize, brk) && 0 < dvsize && nb <= dvsize < nb + MIN_CHUNK_SIZE
    ensures Ready(TakeWhole(a, dv), 0, 0, brk) && Allocated(a, TakeWhole(a, dv), dv, nb)
    ensures Binned(TakeWhole(a, dv), 0) == Binned(a, dv)
  {
    hide Ok, InUse, Free, TakeWhole;
    FreeFacts(a, dv);
    FreeNotZero(a);
    TakeWholeOk(a, dv);
    TakeWholeEdges(a, dv);
  }

  lemma TakeWholeEdges(a: Arena, p: int)
    ensures var b := TakeWhole(a, p); b.base == a.base && b.top == a.top && b.topsize == a.topsize
  {
  }

  lemma SplitEdges(a: Arena, p: int, nb: nat)
    requires nb <= Size(a, p)
    ensures var b := Split(a, p, nb); b.base == a.base && b.top == a.top && b.topsize == a.topsize
  {
  }

  lemma FreeNotZero(a: Arena)
    requires Ok(a)
    ensures 0 !in Free(a)
  {
    if 0 in Free(a) { FreeFacts(a, 0); }
  }

  lemma CutBinned(a: Arena, dv: int, dvsize: nat, brk: nat, p: int, nb: nat)
    requires Ready(a, dv, dvsize, brk) && p in Binned(a, dv) && CanSplit(a, p, nb)
    ensures var b, r, rest := Split(a, p, nb), p + nb, Free(a)[p] - nb;
            && rest > 0 && r !in Binned(a, dv) && Allocated(a, b, p, nb)
            && Ready(b, dv, dvsize, brk) && Binned(b, dv) == (Binned(a, dv) - {p})[r := rest]
  {
    hide Ok, InUse, Free, Split;
    FreeFacts(a, p);
    FreeNotZero(a);
    SplitNew(a, p, nb);
    NotFree(a, p + nb);
    SplitOk(a, p, nb);
    SplitEdges(a, p, nb);
  }

  lemma CutToDv(a: Arena, dv: int, dvsize: nat, brk: nat, p: int, nb: nat)
    requires Ready(a, dv, dvsize, brk) && p in Binned(a, dv) && CanSplit(a, p, nb)
    ensures var b, r, rest := Split(a, p, nb), p + nb, Free(a)[p] - nb;
            && Allocated(a, b, p, nb) && Ready(b, r, rest, brk) && Binned(b, r) == Reserved(Binned(a, dv) - {p}, dv, dvsize)
  {
    hide Ok, InUse, Free, Split;
    FreeFacts(a, p);
    FreeNotZero(a);
    SplitNew(a, p, nb);
    NotFree(a, p + nb);
    SplitOk(a, p, nb);
    SplitEdges(a, p, nb);
  }

  /** The bins after they took in the old dv, if there was one. */
  ghost function Reserved(binned: map<int, nat>, dv: int, dvsize: nat): map<int, nat> {
    if dvsize == 0 then binned else binned[dv := dvsize]
  }

  lemma NotFree(a: Arena, r: int)
    requires r !in a.chunks
    ensures r !in Free(a)
  {
  }

  lemma CutDv(a: Arena, dv: int, dvsize: nat, brk: nat, nb: nat)
    requires Ready(a, dv, dvsize, brk) && 0 < dvsize && CanSplit(a, dv, nb)
    ensures var b, r, rest := Split(a, dv, nb), dv + nb, dvsize - nb;
            Ready(b, r, rest, brk) && Binned(b, r) == Binned(a, dv) && Allocated(a, b, dv, nb)
  {
    hide Ok, InUse, Free, Split;
    FreeFacts(a, dv);
    SplitNew(a, dv, nb);
    NotFree(a, dv + nb);
    SplitOk(a, dv, nb);
    SplitEdges(a, dv, nb);
  }

  lemma CutTop(a: Arena, dv: int, dvsize: nat, brk: nat, nb: nat)
    requires Ready(a, dv, dvsize, brk) && CanTakeTop(a, nb)
    ensures Ready(TakeTop(a, nb), dv, dvsize, brk) && Allocated(a, TakeTop(a, nb), a.top, nb)
    ensures Binned(TakeTop(a, nb), dv) == Binned(a, dv)
  {
    hide Ok, InUse, Free;
    InUseFacts(a, a.top);
    TakeTopOk(a, nb);
  }

  lemma Grown(a: Arena, dv: int, dvsize: nat, brk: nat, n: nat)
    requires Ready(a, dv, dvsize, brk) && n % 4096 == 0 && brk + n < ADDRESS_SPACE
    ensures Ready(Grow(a, n), dv, dvsize, brk + n) && InUse(Grow(a, n)) == InUse(a) && Free(Grow(a, n)) == Free(a)
  {
    hide Ok, InUse, Free;
    assert n % ALIGN == 0;
    GrowOk(a, n);
  }

  /** The heap before the first request, and right after it got its first pages. */
  ghost predicate Blank(a: Arena) { a == Arena(map[], map[], 0, 0, 0, {}) }

  ghost function First(n: nat): Arena
    requires n >= TOP_FOOT_SIZE
  {
    var size := n - TOP_FOOT_SIZE;
    Arena(map[HEAP_BASE := Head(size, true, false), HEAP_BASE + size := Head(TOP_FOOT_SIZE, false, false)], map[], HEAP_BASE, HEAP_BASE, size, {})
  }

  lemma FirstReady(n: nat)
    requires n % 4096 == 0 && 0 < n && HEAP_BASE + n < ADDRESS_SPACE
    ensures Ready(First(n), 0, 0, HEAP_BASE + n) && InUse(First(n)) == map[] && Free(First(n)) == map[]
  {
    assert n % ALIGN == 0;
  }

  // ----- free -----

  /** What surrounds the chunk to be freed: lo is the start of the free run it joins, hi its end. */
  ghost predicate Around(a: Arena, p: int, lo: int, hi: int) {
    && p in InUse(a)
    && ((lo == p && Pinuse(a, p)) || (lo in Free(a) && Next(a, lo) == p))
    && (hi == Next(a, p) || (Next(a, p) in Free(a) && hi == Next(a, Next(a, p))))
  }

  /** Only p and its free neighbours lie between lo and hi. */
  lemma Neighbours(a: Arena, p: int, lo: int, hi: int, q: int)
    requires Ok(a) && Around(a, p, lo, hi) && q in a.chunks && lo <= q < hi
    ensures q == lo || q == p || q == Next(a, p)
  {
    var n := Next(a, p);
    hide Ok;
    ChunkFacts(a, p);
    ChunkFacts(a, lo);
    ApartFacts(a, lo, q);
    ApartFacts(a, p, q);
    if n in a.chunks { ApartFacts(a, n, q); }
    assert q == lo || q >= Next(a, lo);
  }

  lemma AroundPinuse(a: Arena, p: int, lo: int, hi: int)
    requires Ok(a) && Around(a, p, lo, hi)
    ensures lo in a.chunks && Pinuse(a, lo) && lo <= p && (lo < p ==> lo in Free(a)) && Next(a, p) <= hi && p < hi
    ensures (p in a.chunks && Next(a, p) !in InUse(a)) || hi == Next(a, p)
  {
    ChunkFacts(a, p);
    if lo != p { FreeFacts(a, lo); ChunkFacts(a, lo); }
    if hi != Next(a, p) { ChunkFacts(a, Next(a, p)); }
  }

  /** Merging around p takes exactly p from the client and leaves one free chunk in place of it and
      its free neighbours. */
  lemma Freed(a: Arena, p: int, lo: int, hi: int, brk: nat)
    requires Ok(a) && SegmentOk(a, brk) && Around(a, p, lo, hi) && hi in a.chunks && Cinuse(a, hi)
    ensures lo <= hi && Ok(Merge(a, lo, hi)) && SegmentOk(Merge(a, lo, hi), brk)
    ensures InUse(Merge(a, lo, hi)) == InUse(a) - {p}
    ensures Free(Merge(a, lo, hi)) == (Free(a) - {lo, Next(a, p)})[lo := hi - lo]
    ensures lo in Free(Merge(a, lo, hi))
  {
    hide Ok;
    AroundPinuse(a, p, lo, hi);
    MergeOk(a, lo, hi);
    forall q | q in a.chunks && lo <= q < hi
      ensures q == lo || q == p || q == Next(a, p)
    {
      Neighbours(a, p, lo, hi, q);
    }
  }

  lemma FreedIntoTop(a: Arena, p: int, lo: int, brk: nat)
    requires Ok(a) && SegmentOk(a, brk) && Around(a, p, lo, a.top) && Next(a, p) == a.top
    ensures lo <= a.top && Ok(MergeTop(a, lo)) && SegmentOk(MergeTop(a, lo), brk)
    ensures InUse(MergeTop(a, lo)) == InUse(a) - {p}
    ensures Free(MergeTop(a, lo)) == Free(a) - {lo}
  {
    hide Ok;
    AroundPinuse(a, p, lo, a.top);
    MergeTopOk(a, lo);
    forall q | q in a.chunks
      ensures q < lo || q == lo || q == p
    {
      ChunkFacts(a, q);
      EdgeFacts(a);
      if lo <= q { Neighbours(a, p, lo, a.top, q); }
    }
  }

  /** What free finds around a chunk in use. */
  lemma InUseView(a: Arena, p: int)
    requires Ok(a) && p in InUse(a)
    ensures p in a.head && p in a.chunks && a.head[p].size == Size(a, p) > 0 && p > 0 && Next(a, p) in a.head && Pinuse(a, Next(a, p))
    ensures a.head[p].pinuse <==> Pinuse(a, p)
    ensures !Pinuse(a, p) ==> p in a.foot && p - a.foot[p] in Free(a) && Free(a)[p - a.foot[p]] == a.foot[p] && Next(a, p - a.foot[p]) == p
    ensures Cinuse(a, Next(a, p)) <==> a.head[Next(a, p)].cinuse
    ensures Cinuse(a, Next(a, p)) ==> Next(a, p) in a.chunks && Next(a, p) !in Free(a)
    ensures !Cinuse(a, Next(a, p)) && Next(a, p) != a.top ==> Next(a, p) in Free(a)
    ensures Next(a, p) == a.top ==> Next(a, p) !in Free(a) && !Cinuse(a, a.top)
    ensures a.top > 0
  {
    hide Ok;
    EdgeFacts(a);
    ChunkFacts(a, p);
    if Next(a, p) in a.chunks { ChunkFacts(a, Next(a, p)); }
    if !Pinuse(a, p) {
      PrevFree(a, p);
      ChunkFacts(a, p - a.foot[p]);
    }
  }

  /** What the bins hold after p was merged with the free chunks around it. */
  lemma FreedBins(a: Arena, dv: int, dvsize: nat, brk: nat, p: int, lo: int, hi: int)
    requires Ready(a, dv, dvsize, brk) && Around(a, p, lo, hi) && hi in a.chunks && Cinuse(a, hi)
    ensures lo < hi
    ensures var b, n, s := Merge(a, lo, hi), Next(a, p), (hi - lo) as nat;
            && InUse(b) == InUse(a) - {p} && 32 <= s < 0x1_0000_0000 && lo > 0
            && (lo == dv ==> Ready(b, dv, s, brk) && Binned(b, dv) == Binned(a, dv) - {n})
            && (n == dv ==> Ready(b, lo, s, brk) && Binned(b, lo) == Binned(a, dv) - {lo})
            && (lo != dv && n != dv ==> Ready(b, dv, dvsize, brk) && Binned(b, dv) == (Binned(a, dv) - {lo, n})[lo := s])
  {
    hide Ok, Merge, InUse;
    Freed(a, p, lo, hi, brk);
    AroundFacts(a, dv, dvsize, brk, p, lo, hi);
    FreeSizes(Merge(a, lo, hi), brk, lo);
    MergeEdges(a, lo, hi);
    FreeNotZero(a);
  }

  lemma AroundFacts(a: Arena, dv: int, dvsize: nat, brk: nat, p: int, lo: int, hi: int)
    requires Ready(a, dv, dvsize, brk) && Around(a, p, lo, hi)
    ensures p > 0 && lo > 0 && lo < hi && lo != Next(a, p) && Next(a, p) > 0 && p !in Free(a)
  {
    hide Ok;
    InUseView(a, p);
    AroundPinuse(a, p, lo, hi);
    ChunkFacts(a, lo);
    ChunkFacts(a, p);
  }

  lemma MergeEdges(a: Arena, lo: int, hi: int)
    requires lo <= hi
    ensures var b := Merge(a, lo, hi); b.base == a.base && b.top == a.top && b.topsize == a.topsize
  {
  }

  lemma FreedTopBins(a: Arena, dv: int, dvsize: nat, brk: nat, p: int, lo: int)
    requires Ready(a, dv, dvsize, brk) && Around(a, p, lo, a.top) && Next(a, p) == a.top
    ensures lo <= a.top && lo > 0
    ensures var b := MergeTop(a, lo);
            && InUse(b) == InUse(a) - {p}
            && (if lo == dv then Ready(b, 0, 0, brk) && Binned(b, 0) == Binned(a, dv)
                else Ready(b, dv, dvsize, brk) && Binned(b, dv) == Binned(a, dv) - {lo})
  {
    hide Ok, MergeTop, InUse;
    FreedIntoTop(a, p, lo, brk);
    AroundFacts(a, dv, dvsize, brk, p, lo, a.top);
    FreeNotZero(a);
    FreeNotZero(MergeTop(a, lo));
  }

  /** dv next to the chunk to be freed. */
  lemma DvPlace(a: Arena, dv: int, dvsize: nat, brk: nat, p: int)
    requires (Blank(a) && dv == 0) || Ready(a, dv, dvsize, brk)
    requires p in InUse(a)
    ensures Ready(a, dv, dvsize, brk) && p !in Free(a) && p !in Binned(a, dv)
    ensures dv == Next(a, p) ==> dv in Free(a) && Free(a)[dv] == dvsize && Next(a, dv) == dv + dvsize
    ensures dv in Free(a) ==> Next(a, dv) in a.chunks && Next(a, dv) in a.head && Cinuse(a, Next(a, dv)) && !Pinuse(a, Next(a, dv))
  {
    hide Ok;
    InUseView(a, p);
    if dv in Free(a) { FreeFacts(a, dv); ChunkFacts(a, dv); }
  }
}
