/** dlmalloc and dlfree (extlib/dlmalloc/malloc.c) as configured in dlmalloc_config.h: one segment that
    grows at the kernel break, no mmap, no locks, no footers, no trimming. Sizes and addresses are
    64-bit unsigned. */
module DlMalloc {
  import opened Words
  import opened BinIndex
  import opened BestFit
  import opened SmallBins
  import opened Binning
  import opened Arena
  import opened HeapSteps
  import opened HeapBytes
  import S = SmallBins
  import T = TreeBins

  const MIN_REQUEST: nat := 23
  const MAX_SMALL_REQUEST: nat := 232
  const MAX_REQUEST: nat := ADDRESS_SPACE - 128
  const MAX_SIZE_T: nat := ADDRESS_SPACE - 1
  const SYS_ALLOC_PADDING: nat := TOP_FOOT_SIZE + 16
  const HALF_MAX_SIZE_T: nat := MAX_SIZE_T / 2

  /** request2size: the chunk size for a request, with its head word, aligned. */
  function Padded(bytes: nat): (nb: nat)
    ensures nb % 16 == 0 && nb >= 32 && bytes + 8 <= nb && (nb == 32 || nb < bytes + 24)
    ensures bytes <= MAX_SMALL_REQUEST <==> nb < MIN_LARGE_SIZE
  {
    if bytes < MIN_REQUEST then MIN_CHUNK_SIZE else (bytes + 8 + 15) / 16 * 16
  }

  /** granularity_align, with wrap-around. */
  function GranularityAlign(n: nat): nat { (n + 4095) % ADDRESS_SPACE / 4096 * 4096 }

  /** The bytes, in whole pages, that a first or separate extension for a chunk of size nb takes. */
  function PagesFor(nb: nat): nat { (nb + SYS_ALLOC_PADDING + 4095) / 4096 * 4096 }

  /** If a free chunk fits, then p is a free chunk of the least size that does. */
  ghost predicate IsBestFit(free: map<int, nat>, p: int, nb: nat) {
    forall w <- free :: free[w] >= nb ==> p in free && nb <= free[p] <= free[w]
  }

  /** The designated victim after a chunk of size s at p served a request of nb: the rest, if that is
      large enough for a chunk, or the old one. */
  ghost predicate VictimLeft(s: nat, p: int, nb: nat, dv: int, dvsize: nat, dv': int, dvsize': nat) {
    if s < nb + MIN_CHUNK_SIZE then dv' == dv && dvsize' == dvsize else dv' == p + nb && dvsize' == s - nb
  }

  /** The designated victim after a chunk was given back: there is none if there was none, it contains
      the old one, or the old one became part of top. */
  ghost predicate VictimGrown(dv: int, dvsize: nat, dv': int, dvsize': nat, top: int) {
    if dvsize == 0 then dvsize' == 0 else if dvsize' == 0 then top <= dv else dv' <= dv < dv' + dvsize'
  }

  lemma VictimSame(dv: int, dvsize: nat, top: int)
    ensures VictimGrown(dv, dvsize, dv, dvsize, top)
  {
  }

  /** What the search of the bins for a request of nb comes to, given what is free and dv: a binned
      chunk, or 0 to go on with dv, or 0 because no free chunk fits. */
  ghost predicate FromBins(free: map<int, nat>, dv: int, dvsize: nat, small: bool, nb: nat, p: int) {
    var binned := free - {dv};
    && (p == 0 ==> nb <= dvsize || forall w <- free :: free[w] < nb)
    && (p != 0 ==> p in binned && binned[p] >= nb)
    && if small then
         && ((exists w <- binned :: binned[w] == nb) ==> p != 0 && binned[p] == nb)
         && (p != 0 && binned[p] != nb ==> dvsize < nb && forall w <- binned :: binned[w] >= nb ==> binned[p] <= binned[w])
       else if p == 0 then nb <= dvsize ==> forall w <- free :: free[w] >= nb ==> dvsize <= free[w]
       else (nb <= dvsize ==> free[p] < dvsize) && forall w <- free :: free[w] >= nb ==> free[p] <= free[w]
  }

  class MallocState {
    var head: map<int, Head>
    var foot: map<int, nat>
    var base: int
    var top: int
    var topsize: nat
    var dv: int
    var dvsize: nat
    var contiguous: bool
    var brk: nat              // heapBreak of memory/heap_break.c
    ghost var chunks: set<int>
    const bins: Bins

    ghost function A(): Arena
      reads this
    {
      Arena(head, foot, base, top, topsize, chunks)
    }

    /** Not initialized yet, or the whole heap invariant: see Arena.Ok for the chunks. */
    ghost predicate Inv()
      reads this, bins, bins.small, bins.tree
    {
      && bins.Holds(Binned(A(), dv))
      && if topsize == 0 then Blank(A()) && dv == 0 && dvsize == 0 && brk == HEAP_BASE else Ready(A(), dv, dvsize, brk)
    }

    constructor ()
      ensures Inv() && topsize == 0 && brk == HEAP_BASE && contiguous && InUse(A()) == map[] && fresh(bins) && fresh(bins.small) && fresh(bins.tree)
    {
      head, foot, base, top, topsize := map[], map[], 0, 0, 0;
      dv, dvsize, contiguous, brk, chunks := 0, 0, true, HEAP_BASE, {};
      bins := new Bins();
    }

    // ----- head and foot macros -----

    /** set_inuse_and_pinuse. */
    method SetInuseAndPinuse(p: int, s: nat)
      requires p in head && p + s in head && s == Size(A(), p)
      modifies this`head
      ensures A() == TakeWhole(old(A()), p)
    {
      head := head[p := Head(s, true, true)];
      head := head[p + s := head[p + s].(pinuse := true)];
    }

    /** set_size_and_pinuse_of_inuse_chunk on p and set_size_and_pinuse_of_free_chunk on the rest. */
    method Carve(p: int, nb: nat, rsize: nat)
      requires p in head && Size(A(), p) == nb + rsize
      modifies this`head, this`foot, this`chunks
      ensures A() == Split(old(A()), p, nb)
    {
      head := head[p := Head(nb, true, true)];
      head := head[p + nb := Head(rsize, true, false)];
      foot := foot[p + nb + rsize := rsize];
      chunks := chunks + {p + nb};
    }

    /** The split of top that malloc and sys_alloc share. */
    method SplitTop(nb: nat) returns (p: int)
      requires nb <= topsize
      modifies this`head, this`top, this`topsize, this`chunks
      ensures p == old(top) && A() == TakeTop(old(A()), nb)
    {
      var rsize := topsize - nb;
      topsize := rsize;
      p := top;
      var r := p + nb;
      top := r;
      head := head[r := Head(rsize, true, false)];
      head := head[p := Head(nb, true, true)];
      chunks := chunks + {p};
    }

    /** replace_dv: the old victim, a small chunk, goes to its bin. */
    method ReplaceDv(p: int, s: nat, ghost binned: map<int, nat>)
      requires bins.Holds(binned) && dv !in binned && (dvsize > 0 ==> dv > 0 && 32 <= dvsize < MIN_LARGE_SIZE)
      modifies this`dv, this`dvsize, bins.small
      ensures dv == p && dvsize == s
      ensures bins.Holds(Reserved(binned, old(dv), old(dvsize)))
    {
      var dvs := dvsize;
      if dvs != 0 {
        bins.InsertSmallChunk(dv, dvs, binned);
      }
      dvsize := s;
      dv := p;
    }

    // ----- malloc -----

    /** The end of tmalloc_large: chunk v, just unlinked from its tree bin, serves the request. */
    method CarveLarge(v: int, nb: nat, rsize: nat)
      requires Ready(A(), dv, dvsize, brk) && v in Binned(A(), dv) && Binned(A(), dv)[v] == nb + rsize
      requires nb >= MIN_CHUNK_SIZE && nb % ALIGN == 0 && bins.Holds(Binned(A(), dv) - {v})
      modifies this`head, this`foot, this`chunks, bins.small, bins.tree
      ensures Inv() && Allocated(old(A()), A(), v, nb)
    {
      hide Ok, InUse, Free, TakeWhole, Split, Matches, S.Consistent, T.Consistent, DvOk;
      ghost var a := A();
      FreeFacts(a, v);
      FreeSizes(a, brk, v);
      if rsize < MIN_CHUNK_SIZE {
        TookBinned(a, dv, dvsize, brk, v, nb);
        SetInuseAndPinuse(v, rsize + nb);
      } else {
        CutBinned(a, dv, dvsize, brk, v, nb);
        Carve(v, nb, rsize);
        bins.InsertChunk(v + nb, rsize, Binned(a, dv) - {v});
      }
      DvFacts(A(), dv, dvsize, brk);
    }

    /** The end of tmalloc_small and of the small-bin path: the rest becomes dv. */
    method CarveToDv(v: int, nb: nat, rsize: nat)
      requires Ready(A(), dv, dvsize, brk) && v in Binned(A(), dv) && Binned(A(), dv)[v] == nb + rsize
      requires nb >= MIN_CHUNK_SIZE && nb % ALIGN == 0 && bins.Holds(Binned(A(), dv) - {v}) && dvsize < MIN_LARGE_SIZE
      modifies this`head, this`foot, this`chunks, this`dv, this`dvsize, bins.small, bins.tree
      ensures Inv() && Allocated(old(A()), A(), v, nb)
      ensures if rsize < MIN_CHUNK_SIZE then dv == old(dv) && dvsize == old(dvsize) else dv == v + nb && dvsize == rsize
    {
      hide Ok, InUse, Free, TakeWhole, Split, Matches, S.Consistent, T.Consistent, DvOk;
      ghost var a := A();
      FreeFacts(a, v);
      FreeSizes(a, brk, v);
      DvFacts(a, dv, dvsize, brk);
      if rsize < MIN_CHUNK_SIZE {
        TookBinned(a, dv, dvsize, brk, v, nb);
        SetInuseAndPinuse(v, rsize + nb);
      } else {
        CutToDv(a, dv, dvsize, brk, v, nb);
        Carve(v, nb, rsize);
        ReplaceDv(v + nb, rsize, Binned(a, dv) - {v});
      }
      DvFacts(A(), dv, dvsize, brk);
    }

    /** tmalloc_large: the smallest tree chunk that fits, unless dv fits at least as well. */
    method TMallocLarge(nb: nat) returns (p: int)
      requires Inv() && MIN_LARGE_SIZE <= nb < ADDRESS_SPACE && nb % ALIGN == 0
      modifies this`head, this`foot, this`chunks, bins.small, bins.tree
      ensures Inv()
      ensures p == 0 ==> A() == old(A())
      ensures p == 0 ==> forall w <- Binned(A(), dv) :: Binned(A(), dv)[w] >= nb ==> nb <= dvsize <= Binned(A(), dv)[w]
      ensures p != 0 ==> Allocated(old(A()), A(), p, nb) && p in old(Binned(A(), dv)) && IsBestFit(old(Free(A())), p, nb)
                         && (nb <= old(dvsize) ==> old(Free(A()))[p] < old(dvsize))
    {
      hide Ok, InUse, Free, Matches, S.Consistent, T.Consistent, DvOk, T.BestOf;
      ghost var a, binned := A(), Binned(A(), dv);
      var v, rsize := bins.tree.FindBestFit(nb);
      BestBinned(bins.small.lists, bins.tree.bins, binned, nb, v, rsize);
      if v != 0 { BinnedFacts(a, dv, dvsize, brk, v); }
      if v != 0 && rsize < Remainder(dvsize, nb) {
        bins.UnlinkLargeChunk(v, nb + rsize, binned);
        CarveLarge(v, nb, rsize);
        return v;
      }
      return 0;
    }

    /** tmalloc_small, for a request that no small bin and no dv can serve. */
    method TMallocSmall(nb: nat) returns (p: int)
      requires Inv() && MIN_CHUNK_SIZE <= nb < MIN_LARGE_SIZE && nb % ALIGN == 0 && dvsize < nb
      requires bins.tree.treemap != Zero(NTREEBINS)
      modifies this`head, this`foot, this`chunks, this`dv, this`dvsize, bins.small, bins.tree
      ensures Inv() && Allocated(old(A()), A(), p, nb) && p != 0 && p in old(Binned(A(), dv))
      ensures forall w <- old(Binned(A(), dv)) :: old(Binned(A(), dv))[w] >= MIN_LARGE_SIZE ==> old(Binned(A(), dv))[p] <= old(Binned(A(), dv))[w]
      ensures VictimLeft(old(Binned(A(), dv))[p], p, nb, old(dv), old(dvsize), dv, dvsize) && old(Binned(A(), dv))[p] >= MIN_LARGE_SIZE
    {
      hide Ok, InUse, Free, Matches, S.Consistent, T.Consistent, DvOk, T.BestOf;
      ghost var a, binned := A(), Binned(A(), dv);
      var rsize;
      p, rsize := bins.tree.FindSmallest(nb);
      BestBinned(bins.small.lists, bins.tree.bins, binned, nb, p, rsize);
      BinnedFacts(a, dv, dvsize, brk, p);
      bins.UnlinkLargeChunk(p, nb + rsize, binned);
      CarveToDv(p, nb, rsize);
    }

    /** A chunk from small bin i that serves the request as it is. */
    method UseSmallBin(i: nat, nb: nat) returns (p: int)
      requires Inv() && i < NSMALLBINS && bins.small.smallmap[i] && nb <= 8 * i < nb + ALIGN && nb % ALIGN == 0
      modifies this`head, bins.small
      ensures Inv() && Allocated(old(A()), A(), p, nb) && p != 0 && p in old(Binned(A(), dv)) && old(Binned(A(), dv))[p] == nb
    {
      hide Ok, InUse, Free, Matches, S.Consistent, T.Consistent, DvOk, TakeWhole;
      ghost var a, binned := A(), Binned(A(), dv);
      p := bins.UnlinkFirst(i, binned);
      BinnedFacts(a, dv, dvsize, brk, p);
      IndexSize(binned[p], i);
      FreeFacts(a, p);
      TookBinned(a, dv, dvsize, brk, p, nb);
      SetInuseAndPinuse(p, 8 * i);
      DvFacts(A(), dv, dvsize, brk);
    }

    /** A chunk from a small bin further up, possibly split. */
    method SplitSmallBin(i: nat, nb: nat) returns (p: int)
      requires Inv() && i < NSMALLBINS && bins.small.smallmap[i] && MIN_CHUNK_SIZE <= nb <= 8 * i && nb % ALIGN == 0 && dvsize < nb
      requires nb < MIN_LARGE_SIZE
      modifies this`head, this`foot, this`chunks, this`dv, this`dvsize, bins.small, bins.tree
      ensures Inv() && Allocated(old(A()), A(), p, nb) && p != 0 && p in old(Binned(A(), dv)) && old(Binned(A(), dv))[p] == 8 * i
      ensures VictimLeft(8 * i, p, nb, old(dv), old(dvsize), dv, dvsize)
    {
      hide Ok, InUse, Free, Matches, S.Consistent, T.Consistent, DvOk;
      ghost var a, binned := A(), Binned(A(), dv);
      p := bins.UnlinkFirst(i, binned);
      BinnedFacts(a, dv, dvsize, brk, p);
      IndexSize(binned[p], i);
      CarveToDv(p, nb, 8 * i - nb);
    }

    /** The search of dlmalloc for a small request, up to dv; 0 when it has to go on to dv or top. */
    method MallocSmall(nb: nat) returns (p: int)
      requires Inv() && MIN_CHUNK_SIZE <= nb < MIN_LARGE_SIZE && nb % ALIGN == 0
      modifies this`head, this`foot, this`chunks, this`dv, this`dvsize, bins.small, bins.tree
      ensures Inv()
      ensures p != 0 ==> Allocated(old(A()), A(), p, nb)
      ensures p == 0 ==> A() == old(A()) && dv == old(dv) && dvsize == old(dvsize)
      ensures var binned := old(Binned(A(), dv));
              && (p != 0 ==> p in binned && binned[p] >= nb && VictimLeft(binned[p], p, nb, old(dv), old(dvsize), dv, dvsize))
              && ((exists w <- binned :: binned[w] == nb) ==> p != 0 && binned[p] == nb)
              && (p != 0 && binned[p] != nb ==> old(dvsize) < nb && forall w <- binned :: binned[w] >= nb ==> binned[p] <= binned[w])
              && (p == 0 ==> nb <= dvsize || forall w <- binned :: binned[w] < nb)
    {
      hide Ok, InUse, Free, Matches, T.Consistent, DvOk, T.BestOf, S.BinOk, Allocated;
      ghost var binned := Binned(A(), dv);
      var idx := SmallIndex(nb);
      var smallbits := Shr(bins.small.smallmap, idx);
      if smallbits[0] || smallbits[1] {
        idx := idx + if smallbits[0] then 0 else 1;
        p := UseSmallBin(idx, nb);
        return;
      }
      NoneBetween(bins.small.mem, bins.small.smallmap, bins.small.lists, bins.tree.bins, binned, idx, idx + 1);
      if nb > dvsize {
        if smallbits != Zero(NSMALLBINS) {
          var leftbits := And(Shl(smallbits, idx), LeftBits(Bit(NSMALLBINS, idx)));
          NextSmall(bins.small.smallmap, idx, leftbits);
          NoneBetween(bins.small.mem, bins.small.smallmap, bins.small.lists, bins.tree.bins, binned, idx, Ctz(LeastBit(leftbits)));
          p := SplitSmallBin(Ctz(LeastBit(leftbits)), nb);
          return;
        }
        NoSmallBits(bins.small.smallmap, idx);
        NoneSmall(bins.small.mem, bins.small.smallmap, bins.small.lists, bins.tree.bins, binned, idx);
        if bins.tree.treemap != Zero(NTREEBINS) {
          p := TMallocSmall(nb);
          return;
        }
        NoneLarge(bins.tree.mem, bins.tree.roots, bins.tree.treemap, bins.small.lists, bins.tree.bins, binned);
      }
      return 0;
    }

    /** memory_AddBreak as dlmalloc sees it; KernelBreak has the pages behind it. */
    method AddBreak(inc: nat) returns (br: int)
      requires HEAP_BASE <= brk < ADDRESS_SPACE && inc < HALF_MAX_SIZE_T
      modifies this`brk
      ensures br == if old(brk) + inc < ADDRESS_SPACE then old(brk) else CMFAIL
      ensures brk == if old(brk) + inc < ADDRESS_SPACE then old(brk) + inc else old(brk)
      ensures brk == Moved(old(brk), inc) && br == if Moves(old(brk), inc) then old(brk) else CMFAIL
    {
      if (brk + inc) % ADDRESS_SPACE < HEAP_BASE { return CMFAIL; }
      brk := (brk + inc) % ADDRESS_SPACE;
      return brk - inc;
    }

    /** The contiguous call for more pages: what top lacks, or the first pages. */
    method ContiguousCore(nb: nat, asize: nat) returns (tbase: int, tsize: nat)
      requires HEAP_BASE <= brk < ADDRESS_SPACE && (if top == 0 then topsize == 0 else brk == top + topsize + TOP_FOOT_SIZE)
      requires topsize <= nb && nb + SYS_ALLOC_PADDING + 4095 < ADDRESS_SPACE && asize == PagesFor(nb)
      modifies this`brk
      ensures var n := if top == 0 then PagesFor(nb) else PagesFor(nb - topsize);
              if old(brk) + n < ADDRESS_SPACE then tbase == old(brk) && tsize == n && brk == old(brk) + n
              else tbase == CMFAIL && brk == old(brk)
    {
      hide GranularityAlign, PagesFor;
      AlignedPages(nb);
      AlignedPages(nb - topsize);
      tbase, tsize := CMFAIL, 0;
      var ssize := asize;
      if top == 0 {
        if ssize > nb && ssize < HALF_MAX_SIZE_T {
          var br := AddBreak(ssize);
          if br != CMFAIL { tbase, tsize := br, ssize; }
        }
      } else {
        ssize := GranularityAlign(nb - topsize + SYS_ALLOC_PADDING);
        if ssize < HALF_MAX_SIZE_T {
          var br := AddBreak(ssize);
          if br == top + topsize + TOP_FOOT_SIZE { tbase, tsize := br, ssize; }
        }
      }
    }

    /** The part of sys_alloc that asks for more pages at the end of the heap. Once a contiguous call
        has failed, the calls are for the whole request. */
    method MoreCore(nb: nat, asize: nat) returns (tbase: int, tsize: nat)
      requires HEAP_BASE <= brk < ADDRESS_SPACE && (if top == 0 then topsize == 0 else brk == top + topsize + TOP_FOOT_SIZE)
      requires topsize <= nb && nb + SYS_ALLOC_PADDING + 4095 < ADDRESS_SPACE && asize == PagesFor(nb)
      modifies this`brk, this`contiguous
      ensures tbase == CMFAIL ==> brk == old(brk) && brk + asize >= ADDRESS_SPACE && !contiguous
      ensures tbase != CMFAIL ==> tbase == old(brk) && brk == tbase + tsize < ADDRESS_SPACE && contiguous == old(contiguous)
      ensures tbase != CMFAIL ==> tsize == if contiguous && top != 0 then PagesFor(nb - topsize) else PagesFor(nb)
    {
      hide GranularityAlign, PagesFor;
      PagesSpec(nb - topsize, nb);
      tbase, tsize := CMFAIL, 0;
      if contiguous {
        tbase, tsize := ContiguousCore(nb, asize);
        if tbase == CMFAIL { contiguous := false; }
      }
      if tbase == CMFAIL && asize < HALF_MAX_SIZE_T {
        var br := AddBreak(asize);
        var end := AddBreak(0);
        if br != CMFAIL && end != CMFAIL && br < end {
          var ssize := end - br;
          if ssize > nb + TOP_FOOT_SIZE { tbase, tsize := br, ssize; }
        }
      }
    }

    /** sys_alloc: extends top, or makes the first one, and serves the request from there. */
    method SysAlloc(nb: nat) returns (p: int)
      requires Inv() && topsize <= nb && (nb == MAX_SIZE_T || (MIN_CHUNK_SIZE <= nb < ADDRESS_SPACE && nb % ALIGN == 0))
      modifies this`head, this`base, this`top, this`topsize, this`chunks, this`brk, this`contiguous
      ensures Inv()
      ensures p != 0 ==> Allocated(old(A()), A(), p, nb) && p == if old(topsize) > 0 then old(top) else HEAP_BASE
      ensures nb == MAX_SIZE_T ==> p == 0
      ensures p == 0 ==> A() == old(A()) && brk == old(brk) && brk + PagesFor(nb) >= ADDRESS_SPACE
      ensures brk <= old(brk) + PagesFor(nb)
      ensures p != 0 ==> contiguous == old(contiguous)
      ensures p != 0 ==> brk == old(brk) + if contiguous && old(topsize) > 0 then PagesFor(nb - old(topsize)) else PagesFor(nb)
    {
      hide Ok, InUse, Free, Matches, S.Consistent, T.Consistent, DvOk, TakeTop, Grow, GranularityAlign, PagesFor;
      if topsize > 0 { DvFacts(A(), dv, dvsize, brk); }
      AlignedPages(nb);
      PagesSpec(nb - topsize, nb);
      var asize := GranularityAlign((nb + SYS_ALLOC_PADDING) % ADDRESS_SPACE);
      if asize <= nb { return 0; } // wrap-around
      var tbase, tsize := MoreCore(nb, asize);
      if tbase == CMFAIL { return 0; }
      if topsize == 0 { InitHeap(tbase, tsize); } else { AppendHeap(tsize); }
      DvFacts(A(), dv, dvsize, brk);
      CutTop(A(), dv, dvsize, brk, nb);
      p := SplitTop(nb);
      DvFacts(A(), dv, dvsize, brk);
    }

    /** The first pages: init_top over the whole segment. */
    method InitHeap(tbase: int, tsize: nat)
      requires Blank(A()) && dv == 0 && dvsize == 0 && tbase == HEAP_BASE && brk == tbase + tsize < ADDRESS_SPACE
      requires bins.Holds(Binned(A(), dv)) && tsize % 4096 == 0 && tsize > 0
      modifies this`head, this`base, this`top, this`topsize
      ensures Inv() && InUse(A()) == InUse(old(A())) && Free(A()) == Free(old(A()))
      ensures topsize == tsize - TOP_FOOT_SIZE && top == tbase
    {
      FirstReady(tsize);
      base := tbase;
      InitTop(tbase, tsize - TOP_FOOT_SIZE);
      assert A() == First(tsize);
    }

    /** More pages behind top. */
    method AppendHeap(tsize: nat)
      requires tsize <= brk && Ready(A(), dv, dvsize, brk - tsize) && brk < ADDRESS_SPACE && tsize % 4096 == 0
      requires bins.Holds(Binned(A(), dv))
      modifies this`head, this`top, this`topsize
      ensures Inv() && InUse(A()) == InUse(old(A())) && Free(A()) == Free(old(A()))
      ensures topsize == old(topsize) + tsize && top == old(top)
    {
      hide Ok, InUse, Free, Matches, S.Consistent, T.Consistent, DvOk;
      Grown(A(), dv, dvsize, brk - tsize, tsize);
      InitTop(top, topsize + tsize);
      DvFacts(A(), dv, dvsize, brk);
    }

    method InitTop(p: int, psize: nat)
      modifies this`head, this`top, this`topsize
      ensures head == old(head)[p := Head(psize, true, false)][p + psize := Head(TOP_FOOT_SIZE, false, false)]
      ensures top == p && topsize == psize
    {
      top := p;
      topsize := psize;
      head := head[p := Head(psize, true, false)];
      head := head[p + psize := Head(TOP_FOOT_SIZE, false, false)];
    }

    /** dv serves the request. */
    method UseDv(nb: nat) returns (p: int)
      requires Inv() && MIN_CHUNK_SIZE <= nb <= dvsize && nb % ALIGN == 0
      modifies this`head, this`foot, this`chunks, this`dv, this`dvsize
      ensures Inv() && p == old(dv) != 0 && Allocated(old(A()), A(), p, nb)
      ensures VictimLeft(old(dvsize), p, nb, 0, 0, dv, dvsize)
    {
      hide Ok, InUse, Free, Matches, S.Consistent, T.Consistent, DvOk, TakeWhole, Split;
      ghost var a := A();
      DvFacts(a, dv, dvsize, brk);
      FreeFacts(a, dv);
      var rsize := dvsize - nb;
      p := dv;
      if rsize >= MIN_CHUNK_SIZE {
        CutDv(a, dv, dvsize, brk, nb);
        dv := p + nb;
        dvsize := rsize;
        Carve(p, nb, rsize);
      } else {
        TookDv(a, dv, dvsize, brk, nb);
        var dvs := dvsize;
        dvsize := 0;
        dv := 0;
        SetInuseAndPinuse(p, dvs);
      }
      DvFacts(A(), dv, dvsize, brk);
    }

    /** The last resorts of dlmalloc: dv, top, more pages. */
    method MallocRest(nb: nat) returns (p: int)
      requires Inv() && (nb == MAX_SIZE_T || (MIN_CHUNK_SIZE <= nb < ADDRESS_SPACE && nb % ALIGN == 0))
      modifies this`head, this`foot, this`base, this`top, this`topsize, this`dv, this`dvsize, this`chunks, this`brk, this`contiguous
      ensures Inv()
      ensures p != 0 ==> Allocated(old(A()), A(), p, nb)
      ensures if nb <= old(dvsize) then p == old(dv) != 0 && VictimLeft(old(dvsize), p, nb, 0, 0, dv, dvsize)
              else dv == old(dv) && dvsize == old(dvsize)
      ensures p != 0 && nb > old(dvsize) ==> p == if old(topsize) > 0 then old(top) else HEAP_BASE
      ensures nb == MAX_SIZE_T ==> p == 0
      ensures p == 0 ==> A() == old(A()) && dv == old(dv) && dvsize < nb && topsize <= nb && brk + PagesFor(nb) >= ADDRESS_SPACE
      ensures p == 0 || nb <= old(dvsize) || nb < old(topsize) ==> brk == old(brk)
      ensures brk != old(brk) ==> brk == old(brk) + if contiguous && old(topsize) > 0 then PagesFor(nb - old(topsize)) else PagesFor(nb)
      ensures brk != old(brk) ==> contiguous == old(contiguous)
      ensures brk <= old(brk) + PagesFor(nb)
    {
      hide Ok, InUse, Free, Matches, S.Consistent, T.Consistent, DvOk, TakeTop;
      if topsize > 0 { DvFacts(A(), dv, dvsize, brk); }
      if nb <= dvsize {
        p := UseDv(nb);
      } else if nb < topsize {
        CutTop(A(), dv, dvsize, brk, nb);
        p := SplitTop(nb);
        DvFacts(A(), dv, dvsize, brk);
      } else {
        p := SysAlloc(nb);
      }
    }

    /** The first half of dlmalloc: the size of the chunk, and the search of the bins, up to dv. */
    method MallocBinned(bytes: nat) returns (p: int, nb: nat)
      requires Inv() && bytes < ADDRESS_SPACE
      modifies this`head, this`foot, this`chunks, this`dv, this`dvsize, bins.small, bins.tree
      ensures Inv() && nb == if bytes >= MAX_REQUEST then MAX_SIZE_T else Padded(bytes)
      ensures p != 0 ==> nb == Padded(bytes) && Allocated(old(A()), A(), p, nb)
      ensures nb == Padded(bytes) ==> FromBins(old(Free(A())), old(dv), old(dvsize), bytes <= MAX_SMALL_REQUEST, nb, p)
      ensures p == 0 ==> A() == old(A()) && dv == old(dv) && dvsize == old(dvsize)
      ensures p == 0 ==> nb <= dvsize || forall w <- Free(A()) :: Free(A())[w] < Padded(bytes)
      ensures p != 0 ==> p in old(Free(A())) && p != old(dv)
      ensures if p != 0 && bytes <= MAX_SMALL_REQUEST then VictimLeft(old(Free(A()))[p], p, nb, old(dv), old(dvsize), dv, dvsize)
              else dv == old(dv) && dvsize == old(dvsize)
    {
      hide Ok, InUse, Free, Matches, S.Consistent, T.Consistent, DvOk;
      ghost var a := A();
      FreeIs(a, dv, dvsize, brk);
      p, nb := 0, Padded(bytes);
      if bytes <= MAX_SMALL_REQUEST {
        p := MallocSmall(nb);
      } else if bytes >= MAX_REQUEST {
        nb := MAX_SIZE_T; // too big: fails in sys_alloc
      } else if bins.tree.treemap != Zero(NTREEBINS) {
        p := TMallocLarge(nb);
      } else {
        NoneLarge(bins.tree.mem, bins.tree.roots, bins.tree.treemap, bins.small.lists, bins.tree.bins, Binned(a, dv));
      }
    }

    /** The chunk that dlmalloc returns; found is the one that the search of the bins gave. */
    method MallocChunk(bytes: nat) returns (p: int, ghost found: int)
      requires Inv() && bytes < ADDRESS_SPACE
      modifies this`head, this`foot, this`base, this`top, this`topsize, this`dv, this`dvsize, this`chunks, this`brk, this`contiguous
      modifies bins.small, bins.tree
      ensures Inv()
      ensures p != 0 ==> Allocated(old(A()), A(), p, Padded(bytes)) && bytes < MAX_REQUEST
      ensures p == 0 ==> A() == old(A()) && topsize <= Padded(bytes) && brk + PagesFor(Padded(bytes)) >= ADDRESS_SPACE
      ensures p == 0 ==> forall w <- Free(A()) :: Free(A())[w] < Padded(bytes)
      ensures brk == old(brk) || brk <= BreakLimit(old(InUse(A())), Padded(bytes))
      ensures brk != old(brk) ==>
                && p != 0 && found == 0 && old(dvsize) < Padded(bytes) && old(topsize) <= Padded(bytes) && contiguous == old(contiguous)
                && brk == old(brk) + if contiguous && old(topsize) > 0 then PagesFor(Padded(bytes) - old(topsize)) else PagesFor(Padded(bytes))
      ensures bytes < MAX_REQUEST ==> FromBins(old(Free(A())), old(dv), old(dvsize), bytes <= MAX_SMALL_REQUEST, Padded(bytes), found)
      ensures found != 0 ==> p == found && p in old(Free(A())) && p != old(dv)
      ensures p != 0 && found == 0 ==>
                p == if Padded(bytes) <= old(dvsize) then old(dv) else if old(topsize) > 0 then old(top) else HEAP_BASE
      ensures p == 0 ==> bytes >= MAX_REQUEST || Padded(bytes) > old(dvsize)
      ensures if found != 0 && bytes <= MAX_SMALL_REQUEST
              then VictimLeft(old(Free(A()))[p], p, Padded(bytes), old(dv), old(dvsize), dv, dvsize)
              else if p != 0 && found == 0 && Padded(bytes) <= old(dvsize) then VictimLeft(old(dvsize), p, Padded(bytes), 0, 0, dv, dvsize)
              else dv == old(dv) && dvsize == old(dvsize)
    {
      hide Ok, InUse, Free, Matches, S.Consistent, T.Consistent, DvOk, BreakLimit, FromBins, VictimLeft, Allocated;
      ghost var a := A();
      var nb;
      FreeIs(a, dv, dvsize, brk);
      p, nb := MallocBinned(bytes);
      found := p;
      if p == 0 {
        if topsize > 0 { DvFacts(a, dv, dvsize, brk); }
        if dvsize < nb && topsize <= nb && bytes < MAX_REQUEST { LimitedBreak(a, dv, dvsize, brk, nb); }
        p := MallocRest(nb);
      }
    }

    /** dlmalloc. A small request takes a binned chunk of just its size if there is one, else dv if that
        is large enough, else a smallest binned chunk that fits; a large one takes a best fitting free
        chunk, dv only when no binned one fits better. When nothing free fits it takes the start of top,
        after more pages if need be, and fails only when the heap's address range has no room for them.
        What remains of dv, or of a binned chunk that a small request split, is dv afterwards. The break
        moves by the pages that top lacks, or by all for the request once a contiguous call has failed,
        and only as far as what the client held lets it. */
    method Malloc(bytes: nat) returns (mem: int)
      requires Inv() && bytes < ADDRESS_SPACE
      modifies this`head, this`foot, this`base, this`top, this`topsize, this`dv, this`dvsize, this`chunks, this`brk, this`contiguous
      modifies bins.small, bins.tree
      ensures Inv()
      ensures mem != 0 ==> Allocated(old(A()), A(), mem - 16, Padded(bytes))
      ensures var nb, binned := Padded(bytes), old(Free(A())) - {old(dv)};
              bytes <= 232 ==>
                if exists w <- binned :: binned[w] == nb then mem - 16 in binned && binned[mem - 16] == nb
                else if nb <= old(dvsize) then mem - 16 == old(dv)
                else (exists w <- binned :: binned[w] >= nb) ==>
                  mem - 16 in binned && binned[mem - 16] >= nb && forall w <- binned :: binned[w] >= nb ==> binned[mem - 16] <= binned[w]
      ensures var nb, free := Padded(bytes), old(Free(A()));
              bytes > 232 && (exists w <- free :: free[w] >= nb) ==>
                && mem - 16 in free && free[mem - 16] >= nb && (forall w <- free :: free[w] >= nb ==> free[mem - 16] <= free[w])
                && (free[mem - 16] == old(dvsize) ==> mem - 16 == old(dv))
      ensures mem != 0 && (forall w <- old(Free(A())) :: old(Free(A()))[w] < Padded(bytes)) ==>
                mem - 16 == if old(topsize) > 0 then old(top) else HEAP_BASE
      ensures var p, nb, free := mem - 16, Padded(bytes), old(Free(A()));
              mem != 0 ==>
                if p in free && p == old(dv) then VictimLeft(free[p], p, nb, 0, 0, dv, dvsize)
                else if p in free && bytes <= 232 then VictimLeft(free[p], p, nb, old(dv), old(dvsize), dv, dvsize)
                else dv == old(dv) && dvsize == old(dvsize)
      ensures mem == 0 ==> A() == old(A()) && topsize <= Padded(bytes)
      ensures mem == 0 ==> forall w <- Free(A()) :: Free(A())[w] < Padded(bytes)
      ensures mem == 0 ==> brk + PagesFor(Padded(bytes)) >= ADDRESS_SPACE
      ensures brk == old(brk) || brk <= BreakLimit(old(InUse(A())), Padded(bytes))
      ensures brk != old(brk) ==>
                && mem != 0 && (forall w <- old(Free(A())) :: old(Free(A()))[w] < Padded(bytes)) && old(topsize) <= Padded(bytes)
                && brk == old(brk) + if contiguous && old(topsize) > 0 then PagesFor(Padded(bytes) - old(topsize)) else PagesFor(Padded(bytes))
    {
      hide Ok, InUse, Free, Matches, S.Consistent, T.Consistent, DvOk, BreakLimit, FromBins, VictimLeft, Allocated, PagesFor;
      ghost var a, victim, size := A(), dv, dvsize;
      FreeIs(a, dv, dvsize, brk);
      ghost var found;
      var p;
      p, found := MallocChunk(bytes);
      if p != 0 { AllocatedPositive(a, A(), p, Padded(bytes)); }
      if bytes < MAX_REQUEST { Placement(Free(a), victim, size, bytes, Padded(bytes), found, p); }
      return if p == 0 then 0 else p + 16;
    }

    // ----- free -----

    /** set_free_with_pinuse: the run of chunks from p up to n becomes one free chunk. */
    method SetFreeWithPinuse(p: int, s: nat, n: int)
      requires n == p + s && n in head
      modifies this`head, this`foot, this`chunks
      ensures A() == Merge(old(A()), p, n)
    {
      head := head[p := Head(s, true, false)];
      head := head[n := head[n].(pinuse := false)];
      foot := foot[n := s];
      chunks := set c | c in chunks && !(p < c < n);
    }

    /** set_size_and_pinuse_of_free_chunk, where PINUSE behind the chunk is clear already. */
    method SetSizeAndPinuse(p: int, s: nat)
      requires s > 0 && p + s in head && !head[p + s].pinuse
      modifies this`head, this`foot, this`chunks
      ensures A() == Merge(old(A()), p, p + s)
    {
      head := head[p := Head(s, true, false)];
      foot := foot[p + s := s];
      chunks := set c | c in chunks && !(p < c < p + s);
      assert head == SetPinuse(head, p + s, false);
    }

    /** Free with next == top: the run from p on becomes part of top. */
    method FreeIntoTop(p: int, psize: nat, ghost q: int)
      requires Ready(A(), dv, dvsize, brk) && Around(A(), q, p, top) && Next(A(), q) == top && p + psize == top
      requires bins.Holds(if p == dv then Binned(A(), dv) else Binned(A(), dv) - {p})
      modifies this`head, this`top, this`topsize, this`dv, this`dvsize, this`chunks
      ensures Inv() && InUse(A()) == old(InUse(A())) - {q} && topsize >= old(topsize)
      ensures VictimGrown(old(dv), old(dvsize), dv, dvsize, top)
    {
      hide Ok, InUse, Free, Matches, S.Consistent, T.Consistent, DvOk, MergeTop, Around;
      ghost var a := A();
      FreedTopBins(a, dv, dvsize, brk, q, p);
      DvFacts(a, dv, dvsize, brk);
      MoveTop(p, psize);
      if p == dv {
        dv := 0;
        dvsize := 0;
      }
      DvFacts(A(), dv, dvsize, brk);
    }

    method MoveTop(p: int, psize: nat)
      requires p + psize == top
      modifies this`head, this`top, this`topsize, this`chunks
      ensures A() == MergeTop(old(A()), p) && topsize == old(topsize) + psize && top == p
    {
      var tsize := topsize + psize;
      topsize := tsize;
      top := p;
      head := head[p := Head(tsize, true, false)];
      chunks := set c | c in chunks && c < p;
    }

    /** Free with next == dv: the run from p on becomes dv. */
    method FreeIntoDv(p: int, psize: nat, ghost q: int)
      requires Ready(A(), dv, dvsize, brk) && Around(A(), q, p, dv + dvsize) && Next(A(), q) == dv && p + psize == dv && q in InUse(A())
      requires bins.Holds(Binned(A(), dv) - {p})
      modifies this`head, this`foot, this`dv, this`dvsize, this`chunks
      ensures Inv() && InUse(A()) == old(InUse(A())) - {q}
      ensures VictimGrown(old(dv), old(dvsize), dv, dvsize, top)
    {
      hide Ok, InUse, Free, Matches, S.Consistent, T.Consistent, DvOk, Merge, Around;
      ghost var a := A();
      DvPlace(a, dv, dvsize, brk, q);
      FreedBins(a, dv, dvsize, brk, q, p, dv + dvsize);
      DvFacts(a, dv, dvsize, brk);
      dvsize := dvsize + psize;
      dv := p;
      SetSizeAndPinuse(p, dvsize);
      DvFacts(A(), dv, dvsize, brk);
    }

    /** The two remaining ends of free: the new free chunk p is dv, or goes to a bin. */
    method FreeToBin(p: int, psize: nat, next: int, clear: bool, ghost q: int)
      requires Ready(A(), dv, dvsize, brk) && Around(A(), q, p, p + psize) && next == Next(A(), q) != dv
      requires p + psize in chunks && Cinuse(A(), p + psize) && (!clear ==> !Pinuse(A(), p + psize))
      requires bins.Holds(if p == dv then Binned(A(), dv) - {next} else Binned(A(), dv) - {p, next})
      modifies this`head, this`foot, this`dvsize, this`chunks, bins.small, bins.tree
      ensures Inv() && InUse(A()) == old(InUse(A())) - {q}
      ensures VictimGrown(old(dv), old(dvsize), dv, dvsize, top)
    {
      hide Ok, InUse, Free, Matches, S.Consistent, T.Consistent, DvOk, Merge, Around;
      ghost var a := A();
      FreedBins(a, dv, dvsize, brk, q, p, p + psize);
      DvFacts(a, dv, dvsize, brk);
      if clear { SetFreeWithPinuse(p, psize, p + psize); } else { SetSizeAndPinuse(p, psize); }
      if p == dv {
        dvsize := psize;
      } else {
        bins.InsertChunk(p, psize, Binned(a, dv) - {p, next});
      }
      DvFacts(A(), dv, dvsize, brk);
    }

    /** dlfree: the client gives back exactly one chunk, which is merged with its free neighbours. dv
        stays the free chunk that it was or that it became part of, unless that is top. */
    method DlFree(mem: int)
      requires Inv() && (mem == 0 || mem - 16 in InUse(A()))
      modifies this`head, this`foot, this`top, this`topsize, this`dv, this`dvsize, this`chunks, bins.small, bins.tree
      ensures topsize >= old(topsize) && (mem == 0 ==> A() == old(A()))
      ensures VictimGrown(old(dv), old(dvsize), dv, dvsize, top)
      ensures Inv() && InUse(A()) == if mem == 0 then old(InUse(A())) else old(InUse(A())) - {mem - 16}
    {
      hide Ok, Free, Matches, S.Consistent, T.Consistent, DvOk, Merge, VictimGrown;
      if mem == 0 { VictimSame(dv, dvsize, top); return; }
      var p := mem - 16;
      ghost var q, a, binned := p, A(), Binned(A(), dv);
      InUseView(a, q);
      DvPlace(a, dv, dvsize, brk, q);
      var psize := head[p].size;
      var next := p + psize;
      if !head[p].pinuse { // consolidate backward
        var prevsize := foot[p];
        psize := psize + prevsize;
        p := p - prevsize;
        if p != dv { bins.UnlinkChunk(p, prevsize, binned); }
      }
      ghost var held := if p == dv then binned else binned - {p};
      assert p == q ==> held == binned;
      if head[next].cinuse {
        assert held == if p == dv then binned - {next} else binned - {p, next};
        FreeToBin(p, psize, next, true, q);
      } else if next == top { // consolidate forward
        FreeIntoTop(p, psize, q);
      } else if next == dv {
        assert held == binned - {p};
        FreeIntoDv(p, psize, q);
      } else {
        FreeFacts(a, next);
        var nsize := head[next].size;
        bins.UnlinkChunk(next, nsize, held);
        assert held - {next} == if p == dv then binned - {next} else binned - {p, next};
        FreeToBin(p, psize + nsize, next, false, q);
      }
    }

    /** What dlfree undoes: a chunk allocated and given back leaves the chunks, what is free, and where
        top starts as they were. */
    method MallocThenFree(bytes: nat)
      requires Inv() && bytes < ADDRESS_SPACE
      modifies this`head, this`foot, this`base, this`top, this`topsize, this`dv, this`dvsize, this`chunks, this`brk, this`contiguous
      modifies bins.small, bins.tree
      ensures Inv() && InUse(A()) == old(InUse(A()))
      ensures old(topsize) > 0 ==> top == old(top) && chunks == old(chunks) && Free(A()) == old(Free(A()))
    {
      hide Ok, InUse, Free, Matches, S.Consistent, T.Consistent, DvOk;
      ghost var a, dv0, dvsize0, brk0 := A(), dv, dvsize, brk;
      var mem := Malloc(bytes);
      if mem != 0 { HoldsNothing(A(), mem - 16); }
      DlFree(mem);
      if a.topsize > 0 && mem != 0 {
        SameLayout(a, A(), dv0, dvsize0, brk0, dv, dvsize, brk);
      }
    }
  }

  /** Which free chunk serves a request, when one fits. */
  lemma Placement(free: map<int, nat>, dv: int, dvsize: nat, bytes: nat, nb: nat, found: int, p: int)
    requires (if dvsize > 0 then dv in free && free[dv] == dvsize else dv == 0 && 0 !in free) && nb == Padded(bytes)
    requires FromBins(free, dv, dvsize, bytes <= MAX_SMALL_REQUEST, nb, found)
    requires (found != 0 ==> p == found) && (found == 0 && nb <= dvsize ==> p == dv)
    ensures var binned := free - {dv};
            bytes <= 232 ==>
              if exists w <- binned :: binned[w] == nb then p in binned && binned[p] == nb
              else if nb <= dvsize then p == dv
              else (exists w <- binned :: binned[w] >= nb) ==>
                p in binned && binned[p] >= nb && forall w <- binned :: binned[w] >= nb ==> binned[p] <= binned[w]
    ensures bytes > 232 && (exists w <- free :: free[w] >= nb) ==>
              && p in free && free[p] >= nb && (forall w <- free :: free[w] >= nb ==> free[p] <= free[w])
              && (free[p] == dvsize ==> p == dv)
    ensures (forall w <- free :: free[w] < nb) <==> found == 0 && dvsize < nb
  {
  }

  lemma HoldsNothing(a: Arena, p: int)
    ensures Blank(a) ==> p !in InUse(a)
  {
  }

  /** Two initialized heaps in which the client holds the same are laid out alike. */
  lemma SameLayout(a: Arena, b: Arena, dv: int, dvsize: nat, brk: nat, dv': int, dvsize': nat, brk': nat)
    requires Ready(a, dv, dvsize, brk) && Ready(b, dv', dvsize', brk') && InUse(a) == InUse(b)
    ensures a.top == b.top && a.chunks == b.chunks && Free(a) == Free(b)
  {
    hide Ok, InUse, Free;
    LayoutForgetsHistory(a, b);
  }

  /** granularity_align gives the pages for a chunk, unless it wraps around to less than its size. */
  lemma AlignedPages(nb: nat)
    requires nb < ADDRESS_SPACE
    ensures var asize := GranularityAlign((nb + SYS_ALLOC_PADDING) % ADDRESS_SPACE);
            if nb + SYS_ALLOC_PADDING + 4095 < ADDRESS_SPACE then asize == PagesFor(nb) == GranularityAlign(nb + SYS_ALLOC_PADDING) && asize > nb
            else asize <= nb && PagesFor(nb) >= ADDRESS_SPACE - 4096
  {
  }

  /** The break after it moved for a request that nothing free could serve. */
  lemma LimitedBreak(a: Arena, dv: int, dvsize: nat, brk: nat, nb: nat)
    requires (Blank(a) && brk == HEAP_BASE) || Ready(a, dv, dvsize, brk)
    requires a.topsize <= nb && forall w <- Free(a) :: Free(a)[w] < nb
    ensures brk + PagesFor(nb) <= BreakLimit(InUse(a), nb)
  {
    hide Ok, InUse, Free, Bytes;
    if !Blank(a) {
      BreakBound(a, dv, dvsize, brk, nb);
    } else {
      Product(2, |InUse(a)| + 2, nb);
    }
  }

  /** A new heap serves every request that the address range has room for. */
  method NewHeapServes(bytes: nat) returns (mem: int)
    requires bytes < ADDRESS_SPACE && HEAP_BASE + PagesFor(Padded(bytes)) < ADDRESS_SPACE
    ensures mem != 0
  {
    hide Ok, InUse, Free, Matches, S.Consistent, T.Consistent, DvOk;
    var heap := new MallocState();
    mem := heap.Malloc(bytes);
  }

  lemma PagesSpec(n: nat, m: nat)
    requires n <= m
    ensures n + SYS_ALLOC_PADDING <= PagesFor(n) < n + SYS_ALLOC_PADDING + 4096 && PagesFor(n) % 4096 == 0 && PagesFor(n) <= PagesFor(m)
    ensures m + SYS_ALLOC_PADDING <= PagesFor(m) && PagesFor(m) % 4096 == 0
  {
  }

  lemma IndexSize(s: nat, i: nat)
    requires SmallIndex(s) == i && s % ALIGN == 0
    ensures s == 8 * i
  {
  }

  /** The bits of the map above idx, given that those of idx and idx + 1 are clear. */
  lemma NextSmall(smallmap: Word, idx: nat, leftbits: Word)
    requires |smallmap| == NSMALLBINS && idx < NSMALLBINS - 1
    requires leftbits == And(Shl(Shr(smallmap, idx), idx), LeftBits(Bit(NSMALLBINS, idx)))
    requires Shr(smallmap, idx) != Zero(NSMALLBINS) && !smallmap[idx]
    ensures var i := Ctz(LeastBit(leftbits)); idx < i < NSMALLBINS && smallmap[i] && forall j | idx <= j < i :: !smallmap[j]
  {
    hide LeftBits, LeastBit, Ctz, Shl, And;
    var i := Ctz(LeastBit(leftbits));
    forall j: nat | j < NSMALLBINS
      ensures leftbits[j] <==> idx < j && smallmap[j]
    {
      LeftBit(smallmap, idx, j);
    }
    var k :| 0 <= k < NSMALLBINS && Shr(smallmap, idx)[k];
    assert leftbits[idx + k];
    LeastBitIsolates(leftbits);
    assert Ctz(leftbits) == i;
    assert i <= idx + k;
  }

  lemma LeftBit(smallmap: Word, idx: nat, j: nat)
    requires |smallmap| == NSMALLBINS && idx < NSMALLBINS && j < NSMALLBINS
    ensures And(Shl(Shr(smallmap, idx), idx), LeftBits(Bit(NSMALLBINS, idx)))[j] <==> idx < j && smallmap[j]
  {
    hide LeftBits;
    LeftBitsSpec(NSMALLBINS, idx, j);
  }

  lemma NoSmallBits(smallmap: Word, idx: nat)
    requires |smallmap| == NSMALLBINS && Shr(smallmap, idx) == Zero(NSMALLBINS)
    ensures forall j: nat | idx <= j < NSMALLBINS :: !smallmap[j]
  {
    forall j: nat | idx <= j < NSMALLBINS
      ensures !smallmap[j]
    {
      assert !Shr(smallmap, idx)[j - idx];
    }
  }

  lemma FreeIs(a: Arena, dv: int, dvsize: nat, brk: nat)
    requires (Blank(a) && dvsize == 0 && dv == 0) || Ready(a, dv, dvsize, brk)
    ensures forall w <- Free(a) :: if w == dv then dvsize == Free(a)[w] else w in Binned(a, dv) && Binned(a, dv)[w] == Free(a)[w]
    ensures if dvsize > 0 then dv in Free(a) && Free(a)[dv] == dvsize else dv == 0
    ensures forall w <- Free(a) :: Free(a)[w] < 0x1_0000_0000
    ensures a.top !in Free(a) && 0 !in Free(a) && (Blank(a) ==> Free(a) == map[])
  {
    if !Blank(a) {
      DvFacts(a, dv, dvsize, brk);
      FreeNotZero(a);
      InUseFacts(a, a.top);
      forall w | w in Free(a) ensures Free(a)[w] < 0x1_0000_0000 { FreeSizes(a, brk, w); }
    }
  }
}
