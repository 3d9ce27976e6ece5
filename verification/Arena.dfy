/** The memory of dlmalloc as boundary-tagged chunks (extlib/dlmalloc/malloc.c): the invariant that
    its debug checks describe, and the steps that malloc and free take on it.

    `head[p]` is the head word of chunk p and `foot[p]` the prev_foot field at p, meaningful only
    when the chunk before p is free. Both keep stale values at addresses inside a chunk. */
module Arena {

  const ALIGN: nat := 16
  const MIN_CHUNK_SIZE: nat := 32

  datatype Head = Head(size: nat, pinuse: bool, cinuse: bool)

  /** chunks is the set of addresses at which a chunk below top starts. */
  datatype Arena = Arena(head: map<int, Head>, foot: map<int, nat>, base: int, top: int, topsize: nat, chunks: set<int>)

  ghost function Size(a: Arena, p: int): nat { if p in a.head then a.head[p].size else 0 }

  ghost function Next(a: Arena, p: int): int { p + Size(a, p) }

  ghost predicate Cinuse(a: Arena, p: int) { p in a.head && a.head[p].cinuse }

  ghost predicate Pinuse(a: Arena, p: int) { p in a.head && a.head[p].pinuse }

  ghost predicate Foot(a: Arena, p: int, s: nat) { p in a.foot && a.foot[p] == s }

  /** A chunk lies below top, aligned and of legal size; the next chunk or top follows it. */
  ghost predicate ChunkOk(a: Arena, p: int) {
    && a.base <= p && p in a.head && Size(a, p) >= MIN_CHUNK_SIZE
    && p % ALIGN == 0 && Size(a, p) % ALIGN == 0
    && Next(a, p) <= a.top && (Next(a, p) in a.chunks || Next(a, p) == a.top)
  }

  /** What the end of a chunk records: the next PINUSE bit says whether it is in use; a free chunk
      leaves its size in the foot there and is followed by a chunk in use. */
  ghost predicate EndOk(a: Arena, p: int) {
    && (Pinuse(a, Next(a, p)) <==> Cinuse(a, p))
    && (!Cinuse(a, p) ==> Foot(a, Next(a, p), Size(a, p)) && Next(a, p) in a.chunks && Cinuse(a, Next(a, p)))
  }

  ghost predicate Apart(a: Arena, p: int, q: int) { p < q ==> Next(a, p) <= q }

  ghost predicate EachOk(a: Arena) {
    forall p {:trigger ChunkOk(a, p)} {:trigger EndOk(a, p)} | p in a.chunks :: ChunkOk(a, p) && EndOk(a, p)
  }

  ghost predicate AllApart(a: Arena) {
    forall p, q {:trigger Apart(a, p, q)} | p in a.chunks && q in a.chunks :: Apart(a, p, q)
  }

  /** Top stands after the last chunk, which is in use; the first chunk claims nothing before it. */
  ghost predicate EdgesOk(a: Arena) {
    && 0 < a.base <= a.top && a.topsize > 0 && a.top % ALIGN == 0 && a.topsize % ALIGN == 0
    && a.top in a.head && a.head[a.top] == Head(a.topsize, true, false) && a.top !in a.chunks
    && (a.base in a.chunks || a.base == a.top) && Pinuse(a, a.base)
  }

  ghost predicate Ok(a: Arena) { EachOk(a) && AllApart(a) && EdgesOk(a) }

  /** What the client holds, and what is free below top, with sizes. */
  ghost function InUse(a: Arena): map<int, nat> { map p | p in a.chunks && Cinuse(a, p) :: Size(a, p) }

  ghost function Free(a: Arena): map<int, nat> { map p | p in a.chunks && !Cinuse(a, p) :: Size(a, p) }

  // ----- consequences -----

  lemma ChunkFacts(a: Arena, p: int)
    requires Ok(a) && p in a.chunks
    ensures ChunkOk(a, p) && EndOk(a, p) && 0 < p < a.top && p < Next(a, p) <= a.top
    ensures p in Free(a) <==> !Cinuse(a, p)
    ensures p in InUse(a) <==> Cinuse(a, p)
  {
    assert ChunkOk(a, p) && EndOk(a, p);
  }

  lemma EdgeFacts(a: Arena)
    requires Ok(a)
    ensures EdgesOk(a)
  {
  }

  lemma ApartFacts(a: Arena, p: int, q: int)
    requires Ok(a) && p in a.chunks && q in a.chunks
    ensures Apart(a, p, q) && Apart(a, q, p)
  {
  }

  /** Chunks do not overlap. */
  lemma Disjoint(a: Arena, p: int, q: int)
    requires Ok(a) && p in a.chunks && q in a.chunks && p != q
    ensures Next(a, p) <= q || Next(a, q) <= p
  {
    ApartFacts(a, p, q);
  }

  /** The chunks cover everything from the base to top. */
  lemma {:induction false} Covered(a: Arena, p: int, x: int) returns (q: int)
    requires Ok(a) && p in a.chunks && p <= x < a.top
    ensures q in a.chunks && q <= x < Next(a, q)
    decreases a.top - p
  {
    ChunkFacts(a, p);
    if x < Next(a, p) {
      q := p;
    } else {
      q := Covered(a, Next(a, p), x);
    }
  }

  /** A clear PINUSE bit leads through the foot to a free chunk that ends here. */
  lemma PrevFree(a: Arena, p: int)
    requires Ok(a) && p in a.chunks && !Pinuse(a, p)
    ensures p in a.foot
    ensures var q := p - a.foot[p];
            q in a.chunks && !Cinuse(a, q) && Next(a, q) == p && Size(a, q) == a.foot[p] && Cinuse(a, p)
  {
    hide Ok;
    EdgeFacts(a);
    ChunkFacts(a, p);
    var q := Covered(a, a.base, p - 1);
    ChunkFacts(a, q);
    ApartFacts(a, q, p);
  }

  /** A free chunk stands after a chunk in use. */
  lemma FreeIsPinuse(a: Arena, p: int)
    requires Ok(a) && p in a.chunks && !Cinuse(a, p)
    ensures Pinuse(a, p)
  {
    if !Pinuse(a, p) {
      PrevFree(a, p);
    }
  }

  // ----- the layout depends on what the client holds alone -----

  /** p is where a chunk or top starts. */
  ghost predicate Boundary(a: Arena, p: int) { p in a.chunks || p == a.top }

  /** From p on both arenas have the same chunks. */
  ghost predicate Alike(a: Arena, b: Arena, p: int) {
    && a.top == b.top
    && forall q {:trigger q in a.chunks} {:trigger q in b.chunks} | q >= p ::
         && (q in a.chunks <==> q in b.chunks)
         && (q in a.chunks ==> Size(a, q) == Size(b, q) && Cinuse(a, q) == Cinuse(b, q))
  }

  /** A boundary not in use in one arena is a free chunk, or top, of the other as well, and ends at the
      same place. */
  lemma SameGap(a: Arena, b: Arena, p: int)
    requires Ok(a) && Ok(b) && InUse(a) == InUse(b) && Boundary(a, p) && Boundary(b, p) && p in a.chunks && p !in InUse(a)
    ensures p in b.chunks && Next(a, p) == Next(b, p)
  {
    hide Ok;
    ChunkFacts(a, p);
    var n := Next(a, p);
    ChunkFacts(a, n);
    assert n in InUse(b);
    ChunkFacts(b, n);
    EdgeFacts(b);
    ChunkFacts(b, p);
    ApartFacts(b, p, n);
    var n' := Next(b, p);
    ChunkFacts(b, n');
    assert n' in InUse(a);
    ChunkFacts(a, n');
    ApartFacts(a, p, n');
  }

  lemma {:induction false} AlikeFrom(a: Arena, b: Arena, p: int)
    requires Ok(a) && Ok(b) && InUse(a) == InUse(b) && Boundary(a, p) && Boundary(b, p)
    ensures Alike(a, b, p)
    decreases a.top - p
  {
    hide Ok, Alike;
    if p == a.top {
      EndsTogether(b, a, p);
      AlikeAtTop(a, b);
    } else {
      ChunkFacts(a, p);
      if p in InUse(a) {
        ChunkFacts(b, p);
        assert InUse(a)[p] == InUse(b)[p];
      } else {
        SameGap(a, b, p);
        ChunkFacts(b, p);
      }
      AlikeFrom(a, b, Next(a, p));
      AlikeStep(a, b, p);
    }
  }

  /** No chunk of b starts where a has its top. */
  lemma EndsTogether(b: Arena, a: Arena, p: int)
    requires Ok(a) && Ok(b) && InUse(a) == InUse(b) && p == a.top
    ensures p !in b.chunks
  {
    hide Ok;
    EdgeFacts(a);
    if p in b.chunks {
      ChunkFacts(b, p);
      assert p !in InUse(a);
      ChunkFacts(b, Next(b, p));
      assert Next(b, p) in InUse(a);
      ChunkFacts(a, Next(b, p));
    }
  }

  lemma AlikeAtTop(a: Arena, b: Arena)
    requires Ok(a) && Ok(b) && a.top == b.top
    ensures Alike(a, b, a.top)
  {
    hide Ok;
    forall q | q >= a.top
      ensures q !in a.chunks && q !in b.chunks
    {
      EdgeFacts(a);
      EdgeFacts(b);
      if q in a.chunks { ChunkFacts(a, q); }
      if q in b.chunks { ChunkFacts(b, q); }
    }
  }

  lemma AlikeStep(a: Arena, b: Arena, p: int)
    requires Ok(a) && Ok(b) && p in a.chunks && p in b.chunks && Size(a, p) == Size(b, p) && Cinuse(a, p) == Cinuse(b, p)
    requires Alike(a, b, Next(a, p))
    ensures Alike(a, b, p)
  {
    hide Ok;
    forall q | p < q < Next(a, p)
      ensures q !in a.chunks && q !in b.chunks
    {
      if q in a.chunks { ApartFacts(a, p, q); }
      if q in b.chunks { ApartFacts(b, p, q); }
    }
  }

  /** Whatever the history, the chunks, their sizes and top are a function of what the client holds. */
  lemma LayoutForgetsHistory(a: Arena, b: Arena)
    requires Ok(a) && Ok(b) && a.base == b.base && InUse(a) == InUse(b)
    ensures a.top == b.top && a.chunks == b.chunks && Free(a) == Free(b)
  {
    hide Ok, Alike;
    EdgeFacts(a);
    EdgeFacts(b);
    AlikeFrom(a, b, a.base);
    AlikeEverywhere(a, b);
  }

  lemma AlikeEverywhere(a: Arena, b: Arena)
    requires Ok(a) && Ok(b) && a.base == b.base && Alike(a, b, a.base)
    ensures a.top == b.top && a.chunks == b.chunks && Free(a) == Free(b)
  {
    hide Ok;
    forall q {:trigger q in a.chunks} {:trigger q in b.chunks}
      ensures q in a.chunks <==> q in b.chunks
    {
      if q in a.chunks { ChunkFacts(a, q); }
      if q in b.chunks { ChunkFacts(b, q); }
    }
    forall q | q in a.chunks
      ensures Size(a, q) == Size(b, q) && Cinuse(a, q) == Cinuse(b, q)
    {
      ChunkFacts(a, q);
    }
  }

  // ----- replacing the chunks between lo and hi -----

  /** Chunk q lies outside [lo, hi), and b treats it as a does. */
  ghost predicate Kept(a: Arena, b: Arena, lo: int, hi: int, q: int) {
    && q in a.chunks && q in b.chunks && q in b.head && Size(b, q) == Size(a, q) && Cinuse(b, q) == Cinuse(a, q)
    && (q >= hi || Next(a, q) <= lo)
  }

  /** The border lo (or hi) of the replaced part, as the chunks before it see it. */
  ghost predicate Border(a: Arena, b: Arena, n: int) {
    && (n in b.chunks || n == b.top) && (Pinuse(b, n) <==> Pinuse(a, n))
    && (n in a.foot ==> Foot(b, n, a.foot[n]))
    && (n in a.chunks && Cinuse(a, n) && !Pinuse(a, n) ==> n in b.chunks && Cinuse(b, n))
  }

  /** A kept chunk stays right when what follows it does. */
  lemma KeptAt(a: Arena, b: Arena, lo: int, hi: int, q: int)
    requires Kept(a, b, lo, hi, q) && ChunkOk(a, q) && EndOk(a, q) && Border(a, b, Next(a, q))
    requires b.base == a.base && Next(a, q) <= b.top
    ensures ChunkOk(b, q) && EndOk(b, q)
  {
  }

  /** Chunk q of b is right: it is kept, or one of the new ones. */
  ghost predicate Placed(a: Arena, b: Arena, lo: int, hi: int, news: set<int>, q: int) {
    && ChunkOk(b, q) && EndOk(b, q)
    && ((Kept(a, b, lo, hi, q) && ChunkOk(a, q)) || (q in news && lo <= q && Next(b, q) <= hi))
  }

  lemma PlacedApart(a: Arena, b: Arena, lo: int, hi: int, news: set<int>, q: int, r: int)
    requires Placed(a, b, lo, hi, news, q) && Placed(a, b, lo, hi, news, r) && lo <= hi
    requires q in a.chunks && r in a.chunks ==> Apart(a, q, r)
    requires q in news && r in news ==> Apart(b, q, r)
    ensures Apart(b, q, r)
  {
  }

  /** A step keeps the invariant when every chunk is placed and the new ones are apart. */
  lemma ReplaceOk(a: Arena, b: Arena, lo: int, hi: int, news: set<int>)
    requires Ok(a) && lo <= hi && EdgesOk(b)
    requires forall q {:trigger Placed(a, b, lo, hi, news, q)} | q in b.chunks :: Placed(a, b, lo, hi, news, q)
    requires forall q, r {:trigger Apart(b, q, r)} | q in news && r in news :: Apart(b, q, r)
    ensures Ok(b)
  {
    hide ChunkOk, EndOk, EdgesOk, Apart;
    forall q | q in b.chunks
      ensures ChunkOk(b, q) && EndOk(b, q)
    {
      assert Placed(a, b, lo, hi, news, q);
    }
    forall q, r | q in b.chunks && r in b.chunks
      ensures Apart(b, q, r)
    {
      assert Placed(a, b, lo, hi, news, q) && Placed(a, b, lo, hi, news, r);
      assert q in a.chunks && r in a.chunks ==> Apart(a, q, r);
      PlacedApart(a, b, lo, hi, news, q, r);
    }
  }

  // ----- the steps -----

  ghost function SetPinuse(h: map<int, Head>, p: int, b: bool): map<int, Head> {
    if p in h then h[p := h[p].(pinuse := b)] else h
  }

  /** set_inuse_and_pinuse: the whole free chunk p goes to the client. */
  ghost function TakeWhole(a: Arena, p: int): Arena {
    a.(head := SetPinuse(a.head[p := Head(Size(a, p), true, true)], Next(a, p), true))
  }

  lemma TakeWholeAt(a: Arena, p: int, q: int)
    requires Ok(a) && p in a.chunks && !Cinuse(a, p) && q in a.chunks
    ensures Placed(a, TakeWhole(a, p), p, Next(a, p), {p}, q)
    ensures Size(TakeWhole(a, p), q) == Size(a, q)
    ensures Cinuse(TakeWhole(a, p), q) <==> q == p || Cinuse(a, q)
  {
    hide Ok;
    FreeIsPinuse(a, p);
    ChunkFacts(a, p);
    ChunkFacts(a, q);
    ApartFacts(a, p, q);
    var b := TakeWhole(a, p);
    if q != p { KeptAt(a, b, p, Next(a, p), q); }
  }

  lemma TakeWholeOk(a: Arena, p: int)
    requires Ok(a) && p in a.chunks && !Cinuse(a, p)
    ensures Ok(TakeWhole(a, p))
    ensures InUse(TakeWhole(a, p)) == InUse(a)[p := Size(a, p)]
    ensures Free(TakeWhole(a, p)) == Free(a) - {p}
  {
    hide Ok, Placed, ChunkOk, EndOk;
    var b := TakeWhole(a, p);
    forall q | q in b.chunks
      ensures Placed(a, b, p, Next(a, p), {p}, q) && Size(b, q) == Size(a, q) && (Cinuse(b, q) <==> q == p || Cinuse(a, q))
    {
      TakeWholeAt(a, p, q);
    }
    EdgeFacts(a);
    ChunkFacts(a, p);
    ReplaceOk(a, b, p, Next(a, p), {p});
  }

  /** The first nb bytes of the free chunk p go to the client; the rest stays free. */
  ghost function Split(a: Arena, p: int, nb: nat): Arena
    requires nb <= Size(a, p)
  {
    var rest := Size(a, p) - nb;
    a.(head := a.head[p := Head(nb, true, true)][p + nb := Head(rest, true, false)],
       foot := a.foot[p + nb + rest := rest], chunks := a.chunks + {p + nb})
  }

  ghost predicate CanSplit(a: Arena, p: int, nb: nat) {
    && p in a.chunks && !Cinuse(a, p) && nb >= MIN_CHUNK_SIZE && nb % ALIGN == 0
    && Size(a, p) >= nb + MIN_CHUNK_SIZE
  }

  lemma SplitRest(s: nat, nb: nat, p: int)
    requires s % ALIGN == 0 && nb % ALIGN == 0 && nb <= s && p % ALIGN == 0
    ensures (s - nb) % ALIGN == 0 && (p + nb) % ALIGN == 0
  {
  }

  lemma SplitNew(a: Arena, p: int, nb: nat)
    requires Ok(a) && CanSplit(a, p, nb)
    ensures var b, news := Split(a, p, nb), {p, p + nb};
            && Placed(a, b, p, Next(a, p), news, p) && Placed(a, b, p, Next(a, p), news, p + nb)
            && Size(b, p) == nb && Size(b, p + nb) == Size(a, p) - nb && Cinuse(b, p) && !Cinuse(b, p + nb)
    ensures p + nb !in a.chunks
  {
    hide Ok;
    FreeIsPinuse(a, p);
    ChunkFacts(a, p);
    SplitRest(Size(a, p), nb, p);
    if p + nb in a.chunks { ApartFacts(a, p, p + nb); }
  }

  lemma SplitAt(a: Arena, p: int, nb: nat, q: int)
    requires Ok(a) && CanSplit(a, p, nb) && q in a.chunks && q != p
    ensures var b, news := Split(a, p, nb), {p, p + nb};
            Placed(a, b, p, Next(a, p), news, q) && Size(b, q) == Size(a, q) && Cinuse(b, q) == Cinuse(a, q)
  {
    hide Ok;
    FreeIsPinuse(a, p);
    ChunkFacts(a, p);
    ChunkFacts(a, q);
    ApartFacts(a, p, q);
    if p + nb in a.chunks { ApartFacts(a, p, p + nb); }
    if Next(a, q) in a.chunks { ApartFacts(a, p, Next(a, q)); }
    KeptAt(a, Split(a, p, nb), p, Next(a, p), q);
  }

  lemma SplitOk(a: Arena, p: int, nb: nat)
    requires Ok(a) && CanSplit(a, p, nb)
    ensures Ok(Split(a, p, nb))
    ensures InUse(Split(a, p, nb)) == InUse(a)[p := nb]
    ensures Free(Split(a, p, nb)) == (Free(a) - {p})[p + nb := Size(a, p) - nb]
  {
    hide Ok, Placed, ChunkOk, EndOk;
    var b, news := Split(a, p, nb), {p, p + nb};
    SplitNew(a, p, nb);
    forall q | q in a.chunks && q != p
      ensures Placed(a, b, p, Next(a, p), news, q) && Size(b, q) == Size(a, q) && Cinuse(b, q) == Cinuse(a, q)
    {
      SplitAt(a, p, nb, q);
    }
    EdgeFacts(a);
    ChunkFacts(a, p);
    ReplaceOk(a, b, p, Next(a, p), news);
  }

  /** The first nb bytes of top go to the client. */
  ghost function TakeTop(a: Arena, nb: nat): Arena
    requires nb <= a.topsize
  {
    a.(head := a.head[a.top + nb := Head(a.topsize - nb, true, false)][a.top := Head(nb, true, true)],
       top := a.top + nb, topsize := a.topsize - nb, chunks := a.chunks + {a.top})
  }

  ghost predicate CanTakeTop(a: Arena, nb: nat) { MIN_CHUNK_SIZE <= nb < a.topsize && nb % ALIGN == 0 }

  lemma TakeTopAt(a: Arena, nb: nat, q: int)
    requires Ok(a) && CanTakeTop(a, nb) && q in a.chunks
    ensures var b := TakeTop(a, nb);
            Placed(a, b, a.top, b.top, {a.top}, q) && Size(b, q) == Size(a, q) && Cinuse(b, q) == Cinuse(a, q)
  {
    hide Ok;
    EdgeFacts(a);
    ChunkFacts(a, q);
    if Next(a, q) in a.chunks { ChunkFacts(a, Next(a, q)); }
    var b := TakeTop(a, nb);
    KeptAt(a, b, a.top, b.top, q);
  }

  lemma TakeTopOk(a: Arena, nb: nat)
    requires Ok(a) && CanTakeTop(a, nb)
    ensures Ok(TakeTop(a, nb))
    ensures InUse(TakeTop(a, nb)) == InUse(a)[a.top := nb]
    ensures Free(TakeTop(a, nb)) == Free(a)
  {
    hide Ok, Placed;
    var b := TakeTop(a, nb);
    EdgeFacts(a);
    SplitRest(a.topsize, nb, a.top);
    TopPlaced(a, nb);
    if b.top in a.chunks { ChunkFacts(a, b.top); }
    forall q | q in a.chunks
      ensures Placed(a, b, a.top, b.top, {a.top}, q) && Size(b, q) == Size(a, q) && Cinuse(b, q) == Cinuse(a, q)
    {
      TakeTopAt(a, nb, q);
    }
    ReplaceOk(a, b, a.top, b.top, {a.top});
  }

  lemma TopPlaced(a: Arena, nb: nat)
    requires Ok(a) && CanTakeTop(a, nb)
    ensures Placed(a, TakeTop(a, nb), a.top, a.top + nb, {a.top}, a.top)
  {
    hide Ok;
    EdgeFacts(a);
  }

  /** The size that init_top leaves in the head of the overhead space behind top. */
  const TOP_FOOT_SIZE: nat := 80

  /** init_top on the same top with n more bytes. */
  ghost function Grow(a: Arena, n: nat): Arena {
    var size := a.topsize + n;
    a.(head := a.head[a.top := Head(size, true, false)][a.top + size := Head(TOP_FOOT_SIZE, false, false)], topsize := size)
  }

  lemma GrowAt(a: Arena, n: nat, q: int)
    requires Ok(a) && n % ALIGN == 0 && q in a.chunks
    ensures var b := Grow(a, n);
            Placed(a, b, a.top, a.top, {}, q) && Size(b, q) == Size(a, q) && Cinuse(b, q) == Cinuse(a, q)
  {
    hide Ok;
    EdgeFacts(a);
    ChunkFacts(a, q);
    if Next(a, q) in a.chunks { ChunkFacts(a, Next(a, q)); }
    KeptAt(a, Grow(a, n), a.top, a.top, q);
  }

  lemma GrowOk(a: Arena, n: nat)
    requires Ok(a) && n % ALIGN == 0
    ensures Ok(Grow(a, n)) && InUse(Grow(a, n)) == InUse(a) && Free(Grow(a, n)) == Free(a)
  {
    hide Ok, Placed;
    var b := Grow(a, n);
    EdgeFacts(a);
    forall q | q in a.chunks
      ensures Placed(a, b, a.top, a.top, {}, q) && Size(b, q) == Size(a, q) && Cinuse(b, q) == Cinuse(a, q)
    {
      GrowAt(a, n, q);
    }
    ReplaceOk(a, b, a.top, a.top, {});
  }

  /** The chunks from lo up to hi become one free chunk. */
  ghost function Merge(a: Arena, lo: int, hi: int): Arena
    requires lo <= hi
  {
    a.(head := SetPinuse(a.head[lo := Head(hi - lo, true, false)], hi, false),
       foot := a.foot[hi := hi - lo], chunks := set c | c in a.chunks && !(lo < c < hi))
  }

  ghost predicate CanMerge(a: Arena, lo: int, hi: int) {
    && lo in a.chunks && Pinuse(a, lo) && lo < hi && hi in a.chunks && Cinuse(a, hi)
  }

  lemma MergeNew(a: Arena, lo: int, hi: int)
    requires Ok(a) && CanMerge(a, lo, hi)
    ensures Placed(a, Merge(a, lo, hi), lo, hi, {lo}, lo)
  {
    hide Ok;
    ChunkFacts(a, lo);
    ChunkFacts(a, hi);
    ApartFacts(a, lo, hi);
  }

  lemma MergeAt(a: Arena, lo: int, hi: int, q: int)
    requires Ok(a) && CanMerge(a, lo, hi) && q in a.chunks && !(lo <= q < hi)
    ensures var b := Merge(a, lo, hi);
            Placed(a, b, lo, hi, {lo}, q) && Size(b, q) == Size(a, q) && Cinuse(b, q) == Cinuse(a, q)
  {
    hide Ok;
    EdgeFacts(a);
    ChunkFacts(a, lo);
    ChunkFacts(a, hi);
    ChunkFacts(a, q);
    ApartFacts(a, lo, q);
    ApartFacts(a, hi, q);
    KeptAt(a, Merge(a, lo, hi), lo, hi, q);
  }

  lemma MergeMaps(a: Arena, lo: int, hi: int)
    requires lo in a.chunks && lo < hi
    requires forall q | q in a.chunks && !(lo <= q < hi) ::
               Size(Merge(a, lo, hi), q) == Size(a, q) && Cinuse(Merge(a, lo, hi), q) == Cinuse(a, q)
    requires Size(Merge(a, lo, hi), lo) == hi - lo && !Cinuse(Merge(a, lo, hi), lo)
    ensures InUse(Merge(a, lo, hi)) == map p | p in InUse(a) && !(lo <= p < hi) :: InUse(a)[p]
    ensures Free(Merge(a, lo, hi)) == (map p | p in Free(a) && !(lo <= p < hi) :: Free(a)[p])[lo := hi - lo]
  {
    hide Size, Cinuse;
  }

  lemma MergeSizes(a: Arena, lo: int, hi: int)
    requires lo < hi
    ensures Size(Merge(a, lo, hi), lo) == hi - lo && !Cinuse(Merge(a, lo, hi), lo)
  {
  }

  lemma MergeOk(a: Arena, lo: int, hi: int)
    requires Ok(a) && CanMerge(a, lo, hi)
    ensures Ok(Merge(a, lo, hi))
    ensures InUse(Merge(a, lo, hi)) == map p | p in InUse(a) && !(lo <= p < hi) :: InUse(a)[p]
    ensures Free(Merge(a, lo, hi)) == (map p | p in Free(a) && !(lo <= p < hi) :: Free(a)[p])[lo := hi - lo]
  {
    hide Ok, Placed, InUse, Free, Size, Cinuse;
    var b := Merge(a, lo, hi);
    EdgeFacts(a);
    ChunkFacts(a, hi);
    ChunkFacts(a, lo);
    MergeNew(a, lo, hi);
    forall q | q in a.chunks && !(lo <= q < hi)
      ensures Placed(a, b, lo, hi, {lo}, q) && Size(b, q) == Size(a, q) && Cinuse(b, q) == Cinuse(a, q)
    {
      MergeAt(a, lo, hi, q);
    }
    MergeSizes(a, lo, hi);
    MergeMaps(a, lo, hi);
    ReplaceOk(a, b, lo, hi, {lo});
  }

  /** The chunks from lo on become part of top. */
  ghost function MergeTop(a: Arena, lo: int): Arena
    requires lo <= a.top
  {
    var size := a.topsize + (a.top - lo);
    a.(head := a.head[lo := Head(size, true, false)], top := lo, topsize := size, chunks := set c | c in a.chunks && c < lo)
  }

  lemma MergeTopAt(a: Arena, lo: int, q: int)
    requires Ok(a) && lo in a.chunks && Pinuse(a, lo) && q in a.chunks && q < lo <= a.top
    ensures var b := MergeTop(a, lo);
            Placed(a, b, lo, lo, {}, q) && Size(b, q) == Size(a, q) && Cinuse(b, q) == Cinuse(a, q)
  {
    hide Ok;
    EdgeFacts(a);
    ChunkFacts(a, lo);
    ChunkFacts(a, q);
    ApartFacts(a, lo, q);
    KeptAt(a, MergeTop(a, lo), lo, lo, q);
  }

  lemma MergeTopOk(a: Arena, lo: int)
    requires Ok(a) && lo in a.chunks && Pinuse(a, lo)
    ensures lo <= a.top && Ok(MergeTop(a, lo))
    ensures InUse(MergeTop(a, lo)) == map p | p in InUse(a) && p < lo :: InUse(a)[p]
    ensures Free(MergeTop(a, lo)) == map p | p in Free(a) && p < lo :: Free(a)[p]
  {
    hide Ok, Placed;
    ChunkFacts(a, lo);
    var b := MergeTop(a, lo);
    EdgeFacts(a);
    forall q | q in a.chunks && q < lo
      ensures Placed(a, b, lo, lo, {}, q) && Size(b, q) == Size(a, q) && Cinuse(b, q) == Cinuse(a, q)
    {
      MergeTopAt(a, lo, q);
    }
    assert lo % ALIGN == 0;
    SplitRest(a.top, lo, 0);
    ReplaceOk(a, b, lo, lo, {});
  }
}
