/** The small bins of malloc_state: one circular doubly linked list of free chunks for each small size,
    threaded through a header (extlib/dlmalloc/malloc.c, insert_small_chunk, unlink_small_chunk and
    unlink_first_small_chunk). The links of an empty bin's header are stale; its map bit is clear. */
module SmallBins {
  import opened Words
  import opened Tries
  import opened TrieLinks

  const NSMALLBINS: nat := 32

  /** small_index; sizes are multiples of 16, so odd bins stay empty. */
  function SmallIndex(s: nat): nat { s / 8 }

  /** The address at which header i looks like a chunk. */
  function Header(i: nat): int { -1 - i }

  datatype Links = Links(fd: int, bk: int)

  type LinkMap = map<int, Links>

  /** Following fd visits exactly c, round and round, and bk goes back. */
  ghost predicate Circular(m: LinkMap, c: seq<int>) {
    forall k: nat | k < |c| :: c[k] in m && m[c[k]] == Links(Fd(c, k), Bk(c, k))
  }

  ghost predicate BinOk(m: LinkMap, mark: bool, list: seq<int>, i: nat) {
    && mark == (list != []) && NoDup(list) && (forall a <- list :: a > 0)
    && (list != [] ==> Circular(m, [Header(i)] + list))
  }

  ghost predicate Consistent(m: LinkMap, map_: Word, lists: seq<seq<int>>) {
    && |map_| == NSMALLBINS && |lists| == NSMALLBINS
    && (forall i: nat | i < NSMALLBINS :: Header(i) in m && BinOk(m, map_[i], lists[i], i))
    && forall i: nat, j: nat | i < NSMALLBINS && j < NSMALLBINS && i != j :: RingAddrs(lists[i]) !! RingAddrs(lists[j])
  }

  /** A new chunk right after the header. */
  lemma FirstLinked(m: LinkMap, h: int, list: seq<int>, x: int, f: int) returns (m': LinkMap)
    requires NoDup([h] + list) && x !in [h] + list && h in m
    requires if list == [] then f == h else Circular(m, [h] + list) && f == m[h].fd
    ensures f in m && f != x
    ensures m' == SetBk(SetFd(m, h, x), f, x)[x := Links(f, h)]
    ensures Circular(m', [h, x] + list)
  {
    var c, c' := [h] + list, [h, x] + list;
    assert list != [] ==> f == c[1];
    m' := SetBk(SetFd(m, h, x), f, x)[x := Links(f, h)];
    forall k: nat | k < |c'|
      ensures c'[k] in m' && m'[c'[k]] == Links(Fd(c', k), Bk(c', k))
    {
      if k != 1 && list != [] {
        var j := if k == 0 then 0 else k - 1;
        assert c'[k] == c[j];
        assert m[c[j]] == Links(Fd(c, j), Bk(c, j));
      }
    }
  }

  function SetFd(m: LinkMap, a: int, v: int): LinkMap
    requires a in m
  {
    m[a := m[a].(fd := v)]
  }

  function SetBk(m: LinkMap, a: int, v: int): LinkMap
    requires a in m
  {
    m[a := m[a].(bk := v)]
  }

  function Drop(c: seq<int>, p: nat): seq<int>
    requires p < |c|
  {
    c[..p] + c[p + 1..]
  }

  /** Position k of the shorter ring was position j; its neighbours are the old ones except across
      the gap. */
  lemma Dropped(c: seq<int>, p: nat, k: nat) returns (j: nat)
    requires NoDup(c) && 0 < p < |c| && |c| > 2 && k < |c| - 1
    ensures var r := Drop(c, p);
            && j < |c| && j != p && r[k] == c[j]
            && Fd(r, k) == (if j == Before(p, |c|) then Fd(c, p) else Fd(c, j))
            && Bk(r, k) == (if j == After(p, |c|) then Bk(c, p) else Bk(c, j))
  {
    var r := Drop(c, p);
    assert forall q: nat | q < |c| - 1 :: r[q] == c[if q < p then q else q + 1];
    j := if k < p then k else k + 1;
  }

  /** Chunk p of the ring leaves; its neighbours are joined. */
  lemma Bypassed(m: LinkMap, c: seq<int>, p: nat) returns (m': LinkMap)
    requires NoDup(c) && Circular(m, c) && 0 < p < |c| && |c| > 2
    ensures Fd(c, p) in m && Bk(c, p) in m && Fd(c, p) != Bk(c, p)
    ensures m' == SetFd(SetBk(m, Fd(c, p), Bk(c, p)), Bk(c, p), Fd(c, p))
    ensures Circular(m', Drop(c, p))
  {
    var n, r := |c|, Drop(c, p);
    var f, b := Fd(c, p), Bk(c, p);
    assert f == c[After(p, n)] && b == c[Before(p, n)];
    m' := SetFd(SetBk(m, f, b), b, f);
    forall k: nat | k < |r|
      ensures r[k] in m' && m'[r[k]] == Links(Fd(r, k), Bk(r, k))
    {
      var j := Dropped(c, p, k);
      assert m[c[j]] == Links(Fd(c, j), Bk(c, j));
    }
  }

  lemma DropSpec(list: seq<int>, k: nat)
    requires k < |list| && NoDup(list)
    ensures NoDup(Drop(list, k)) && forall a <- Drop(list, k) :: a in list
  {
    var r := Drop(list, k);
    assert forall q: nat | q < |r| :: r[q] == list[if q < k then q else q + 1];
  }

  lemma UpdateBin(m: LinkMap, map_: Word, lists: seq<seq<int>>, m': LinkMap, i: nat, mark: bool, list: seq<int>)
    requires Consistent(m, map_, lists) && i < NSMALLBINS && BinOk(m', mark, list, i) && m.Keys <= m'.Keys
    requires forall j: nat | j < NSMALLBINS && j != i :: RingAddrs(list) !! RingAddrs(lists[j])
    requires forall a <- m.Keys :: a != Header(i) && a !in lists[i] && a !in list ==> m'[a] == m[a]
    ensures Consistent(m', map_[i := mark], lists[i := list])
  {
    forall j: nat | j < NSMALLBINS && j != i
      ensures BinOk(m', map_[j], lists[j], j)
    {
      assert BinOk(m, map_[j], lists[j], j);
      var c := [Header(j)] + lists[j];
      if lists[j] != [] {
        forall k: nat | k < |c|
          ensures c[k] in m' && m'[c[k]] == Links(Fd(c, k), Bk(c, k))
        {
          if k > 0 { assert c[k] in RingAddrs(lists[j]); }
        }
      }
    }
  }

  lemma HeaderRing(list: seq<int>, i: nat)
    requires NoDup(list) && forall a <- list :: a > 0
    ensures NoDup([Header(i)] + list)
  {
    var c := [Header(i)] + list;
    forall j, k | 0 <= j < k < |c|
      ensures c[j] != c[k]
    {
      assert c[k] == list[k - 1] && list[k - 1] in list;
      if j > 0 { assert c[j] == list[j - 1]; }
    }
  }

  class SmallBins {
    var mem: LinkMap
    var smallmap: Word
    ghost var lists: seq<seq<int>>

    ghost predicate Inv()
      reads this
    {
      Consistent(mem, smallmap, lists)
    }

    /** init_bins. */
    constructor ()
      ensures Inv() && lists == seq(NSMALLBINS, _ => [])
    {
      mem := map i: int | -32 <= i < 0 :: Links(i, i);
      smallmap := Zero(NSMALLBINS);
      lists := seq(NSMALLBINS, _ => []);
    }

    /** insert_small_chunk: chunk p of size s goes to the front of its list. */
    method InsertSmall(p: int, s: nat)
      requires Inv() && p > 0 && SmallIndex(s) < NSMALLBINS && forall j: nat | j < NSMALLBINS :: p !in lists[j]
      modifies this
      ensures Inv() && lists == old(lists)[SmallIndex(s) := [p] + old(lists)[SmallIndex(s)]]
    {
      var i := SmallIndex(s);
      var b := Header(i);
      var f := b;
      ghost var m, list := mem, lists[i];
      assert BinOk(m, smallmap[i], list, i);
      HeaderRing(list, i);
      assert ([b] + list)[0] == b;
      if !smallmap[i] {
        MapBit(smallmap, i);
        smallmap := Or(smallmap, Bit(NSMALLBINS, i));
      } else {
        f := mem[b].fd;
      }
      ghost var m' := FirstLinked(m, b, list, p, f);
      mem := mem[b := mem[b].(fd := p)];
      mem := mem[f := mem[f].(bk := p)];
      mem := mem[p := Links(f, b)];
      assert [b, p] + list == [b] + ([p] + list);
      UpdateBin(m, old(smallmap), lists, mem, i, true, [p] + list);
      lists := lists[i := [p] + list];
    }

    /** unlink_small_chunk. */
    method UnlinkSmall(p: int, s: nat)
      requires Inv() && SmallIndex(s) < NSMALLBINS && p in lists[SmallIndex(s)]
      modifies this
      ensures Inv() && lists == old(lists)[SmallIndex(s) := Without(old(lists)[SmallIndex(s)], p)]
    {
      hide Circular, NoDup, Without;
      var i := SmallIndex(s);
      ghost var m, list := mem, lists[i];
      assert BinOk(m, smallmap[i], list, i);
      ghost var k :| 0 <= k < |list| && list[k] == p;
      ListMember(m, list, i, k);
      var f, b := mem[p].fd, mem[p].bk;
      if b == f {
        MapBit(smallmap, i);
        smallmap := And(smallmap, Not(Bit(NSMALLBINS, i)));
      } else {
        mem := mem[f := mem[f].(bk := b)];
        mem := mem[b := mem[b].(fd := f)];
      }
      WithoutAt(list, k);
      ListShrunk(m, mem, list, i, k);
      UpdateBin(m, old(smallmap), lists, mem, i, |list| > 1, Without(list, p));
      lists := lists[i := Without(list, p)];
    }

    /** unlink_first_small_chunk: the newest chunk of bin i. */
    method UnlinkFirst(i: nat) returns (p: int)
      requires Inv() && i < NSMALLBINS && lists[i] != []
      modifies this
      ensures Inv() && p == old(lists)[i][0] && lists == old(lists)[i := old(lists)[i][1..]]
    {
      hide NoDup, Circular;
      ghost var m, list := mem, lists[i];
      assert BinOk(m, smallmap[i], list, i);
      var b := Header(i);
      ListMember(m, list, i, 0);
      p := mem[b].fd;
      var f := mem[p].fd;
      if b == f {
        MapBit(smallmap, i);
        smallmap := And(smallmap, Not(Bit(NSMALLBINS, i)));
      } else {
        mem := mem[f := mem[f].(bk := b)];
        mem := mem[b := mem[b].(fd := f)];
      }
      ListShrunk(m, mem, list, i, 0);
      assert Drop(list, 0) == list[1..];
      UpdateBin(m, old(smallmap), lists, mem, i, |list| > 1, list[1..]);
      lists := lists[i := list[1..]];
    }
  }

  /** The neighbours of a listed chunk; both are the header exactly when it is alone. */
  lemma ListMember(m: LinkMap, list: seq<int>, i: nat, k: nat)
    requires BinOk(m, true, list, i) && k < |list|
    ensures list[k] in m && Header(i) in m && m[Header(i)].fd == list[0]
    ensures m[list[k]].fd == (if k + 1 < |list| then list[k + 1] else Header(i)) && m[list[k]].fd in m
    ensures m[list[k]].bk == (if k > 0 then list[k - 1] else Header(i)) && m[list[k]].bk in m
    ensures m[list[k]].fd == m[list[k]].bk <==> |list| == 1
    ensures m[list[k]] == Links(Fd([Header(i)] + list, k + 1), Bk([Header(i)] + list, k + 1))
  {
    var c := [Header(i)] + list;
    HeaderRing(list, i);
    assert c[k + 1] == list[k] && c[0] == Header(i) && c[1] == list[0];
    assert m[c[k + 1]] == Links(Fd(c, k + 1), Bk(c, k + 1)) && m[c[0]] == Links(Fd(c, 0), Bk(c, 0));
    assert Fd(c, k + 1) == c[After(k + 1, |c|)] && Bk(c, k + 1) == c[Before(k + 1, |c|)];
  }

  lemma ListShrunk(m: LinkMap, m': LinkMap, list: seq<int>, i: nat, k: nat)
    requires BinOk(m, true, list, i) && k < |list|
    requires list[k] in m && m[list[k]].fd in m && m[list[k]].bk in m
    requires var f, b := m[list[k]].fd, m[list[k]].bk;
             m' == if b == f then m else SetFd(SetBk(m, f, b), b, f)
    ensures BinOk(m', |list| > 1, Drop(list, k), i)
    ensures forall a <- Drop(list, k) :: a in list
    ensures m'.Keys == m.Keys && forall a <- m.Keys :: a != Header(i) && a !in list ==> m'[a] == m[a]
  {
    hide NoDup, Circular;
    var c, r := [Header(i)] + list, Drop(list, k);
    HeaderRing(list, i);
    ListMember(m, list, i, k);
    DropSpec(list, k);
    if |list| > 1 {
      assert c[k + 1] == list[k];
      var m1 := Bypassed(m, c, k + 1);
      assert Drop(c, k + 1) == [Header(i)] + r;
    }
  }
}
