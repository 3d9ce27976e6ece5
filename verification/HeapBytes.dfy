/** How far the heap reaches: its chunks tile it, and no two free ones are neighbours
    (extlib/dlmalloc/malloc.c, traverse_and_check). */
module HeapBytes {
  import opened Arena
  import opened HeapSteps

  /** The sum of all sizes. */
  ghost function Bytes(m: map<int, nat>): nat
    decreases |m|
  {
    if exists k :: k in m then
      var k :| k in m;
      m[k] + Bytes(m - {k})
    else 0
  }

  lemma {:induction false} BytesAt(m: map<int, nat>, x: int)
    requires x in m
    ensures Bytes(m) == m[x] + Bytes(m - {x})
    decreases |m|
  {
    var k :| k in m && Bytes(m) == m[k] + Bytes(m - {k});
    if k != x {
      BytesAt(m - {k}, x);
      BytesAt(m - {x}, k);
      assert m - {k} - {x} == m - {x} - {k};
    }
  }

  lemma BytesWith(m: map<int, nat>, x: int, z: nat)
    requires x !in m
    ensures Bytes(m[x := z]) == Bytes(m) + z && |m[x := z]| == |m| + 1
  {
    hide Bytes;
    BytesAt(m[x := z], x);
    assert m[x := z] - {x} == m;
    assert m[x := z].Keys == m.Keys + {x};
    assert |m[x := z]| == |m[x := z].Keys| && |m| == |m.Keys|;
  }

  lemma {:induction false} BytesBelow(m: map<int, nat>, nb: nat)
    requires forall x <- m :: m[x] <= nb
    ensures Bytes(m) <= |m| * nb
    decreases |m|
  {
    hide Bytes;
    if exists x :: x in m {
      var x :| x in m;
      var rest := m - {x};
      BytesAt(m, x);
      BytesBelow(rest, nb);
      assert m == rest[x := m[x]];
      BytesWith(rest, x, m[x]);
      OneMore(|rest|, nb);
    } else {
      NoBytes(m);
      Product(0, |m|, nb);
    }
  }

  lemma NoBytes(m: map<int, nat>)
    requires !exists x :: x in m
    ensures Bytes(m) == 0
  {
  }

  lemma OneMore(i: nat, nb: nat)
    ensures (i + 1) * nb == i * nb + nb
  {
  }

  lemma {:induction false} Product(i: nat, j: nat, nb: nat)
    requires i <= j
    ensures i * nb <= j * nb
    decreases j
  {
    if i < j {
      Product(i, j - 1, nb);
      OneMore(j - 1, nb);
    }
  }

  ghost function From(m: map<int, nat>, p: int): map<int, nat> { map x | x in m && x >= p :: m[x] }

  lemma FromNext(a: Arena, p: int)
    requires Ok(a) && p in a.chunks
    ensures From(InUse(a), p) == if Cinuse(a, p) then From(InUse(a), Next(a, p))[p := Size(a, p)] else From(InUse(a), Next(a, p))
    ensures From(Free(a), p) == if Cinuse(a, p) then From(Free(a), Next(a, p)) else From(Free(a), Next(a, p))[p := Size(a, p)]
    ensures p < Next(a, p) <= a.top && (Next(a, p) in a.chunks || Next(a, p) == a.top)
    ensures !Cinuse(a, p) ==> Next(a, p) in a.chunks && Cinuse(a, Next(a, p))
  {
    hide Ok;
    ChunkFacts(a, p);
    forall q | q in a.chunks
      ensures q >= p <==> q == p || q >= Next(a, p)
    {
      ApartFacts(a, p, q);
    }
  }

  lemma FromTop(a: Arena)
    requires Ok(a)
    ensures From(InUse(a), a.top) == map[] && From(Free(a), a.top) == map[]
  {
    hide Ok;
    forall q | q in a.chunks
      ensures q < a.top
    {
      ChunkFacts(a, q);
    }
  }

  /** What is held and what is free from a chunk on add up to the distance to top. */
  lemma {:induction false} TiledFrom(a: Arena, p: int)
    requires Ok(a) && (p in a.chunks || p == a.top)
    ensures Bytes(From(InUse(a), p)) + Bytes(From(Free(a), p)) == a.top - p
    decreases a.top - p
  {
    hide Ok, InUse, Free, From;
    if p == a.top {
      FromTop(a);
    } else {
      FromNext(a, p);
      TiledFrom(a, Next(a, p));
      NotFrom(a, p);
      BytesWith(From(if Cinuse(a, p) then InUse(a) else Free(a), Next(a, p)), p, Size(a, p));
    }
  }

  lemma NotFrom(a: Arena, p: int)
    requires Ok(a) && p in a.chunks
    ensures p !in From(InUse(a), Next(a, p)) && p !in From(Free(a), Next(a, p))
  {
    hide Ok;
    ChunkFacts(a, p);
  }

  /** Each free chunk is followed by one in use. */
  lemma {:induction false} FreeFew(a: Arena, p: int)
    requires Ok(a) && (p in a.chunks || p == a.top)
    ensures |From(Free(a), p)| <= |From(InUse(a), p)|
    decreases a.top - p
  {
    hide Ok, InUse, Free, From;
    if p == a.top {
      FromTop(a);
    } else {
      FromNext(a, p);
      NotFrom(a, p);
      var n := Next(a, p);
      if Cinuse(a, p) {
        FreeFew(a, n);
        BytesWith(From(InUse(a), n), p, Size(a, p));
      } else {
        FromNext(a, n);
        NotFrom(a, n);
        FreeFew(a, Next(a, n));
        BytesWith(From(Free(a), n), p, Size(a, p));
        BytesWith(From(InUse(a), Next(a, n)), n, Size(a, n));
      }
    }
  }

  /** The heap up to top is what the client holds and what is free, in at most as many free chunks as
      held ones. */
  lemma Tiled(a: Arena)
    requires Ok(a)
    ensures a.top - a.base == Bytes(InUse(a)) + Bytes(Free(a)) && |Free(a)| <= |InUse(a)|
  {
    hide Ok;
    EdgeFacts(a);
    TiledFrom(a, a.base);
    FreeFew(a, a.base);
    forall q | q in a.chunks
      ensures q >= a.base
    {
      ChunkFacts(a, q);
    }
    assert From(InUse(a), a.base) == InUse(a) && From(Free(a), a.base) == Free(a);
  }

  /** Where the break may be after a request for a chunk of size nb moved it. */
  ghost function BreakLimit(held: map<int, nat>, nb: nat): nat { HEAP_BASE + Bytes(held) + (|held| + 2) * nb + 2 * TOP_FOOT_SIZE + 4111 }

  /** When neither a free chunk nor top fits, the heap is not larger than what the client holds allows:
      between two held chunks lies less than the request. */
  lemma BreakBound(a: Arena, dv: int, dvsize: nat, brk: nat, nb: nat)
    requires Ready(a, dv, dvsize, brk) && a.topsize <= nb && forall w <- Free(a) :: Free(a)[w] <= nb
    ensures brk + nb + TOP_FOOT_SIZE + 16 + 4095 <= BreakLimit(InUse(a), nb)
  {
    hide Ok, InUse, Free, Bytes, DvOk;
    Tiled(a);
    BytesBelow(Free(a), nb);
    Product(|Free(a)|, |InUse(a)|, nb);
    OneMore(|InUse(a)|, nb);
    OneMore(|InUse(a)| + 1, nb);
  }
}
