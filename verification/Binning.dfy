/** Which bin holds which free chunk (extlib/dlmalloc/malloc.c, insert_chunk and unlink_chunk): the
    small lists and the tries together hold exactly the binned chunks, each in the bin of its size. */
module Binning {
  import opened Words
  import opened Tries
  import opened BinIndex
  import opened TrieLinks
  import opened SmallBins
  import opened TreeBins
  import S = SmallBins
  import T = TreeBins

  const MIN_LARGE_SIZE: nat := 256

  ghost predicate InSmall(lists: seq<seq<int>>, i: nat, a: int) { i < |lists| && a in lists[i] }

  ghost predicate InTree(bins: seq<Trie>, i: nat, a: int, z: nat) { i < |bins| && (a, z) in Members(bins[i]) }

  /** binned maps the address of each binned chunk to its size. */
  ghost predicate SmallMatch(lists: seq<seq<int>>, binned: map<int, nat>) {
    && |lists| == NSMALLBINS
    && forall i: nat, a {:trigger InSmall(lists, i, a)} | i < NSMALLBINS ::
         InSmall(lists, i, a) <==> a in binned && binned[a] < MIN_LARGE_SIZE && SmallIndex(binned[a]) == i
  }

  ghost predicate TreeMatch(bins: seq<Trie>, binned: map<int, nat>) {
    && |bins| == NTREEBINS
    && forall i: nat, a, z: nat {:trigger InTree(bins, i, a, z)} | i < NTREEBINS ::
         InTree(bins, i, a, z) <==> a in binned && binned[a] == z && z >= MIN_LARGE_SIZE && TreeIndex(z) == i
  }

  ghost predicate SizesOk(binned: map<int, nat>) { forall a <- binned :: a > 0 && 32 <= binned[a] < SIZE_LIMIT }

  ghost predicate Matches(lists: seq<seq<int>>, bins: seq<Trie>, binned: map<int, nat>) {
    SmallMatch(lists, binned) && TreeMatch(bins, binned) && SizesOk(binned)
  }

  lemma SmallIndexRange(s: nat)
    requires s < MIN_LARGE_SIZE
    ensures SmallIndex(s) < NSMALLBINS
  {
  }

  // ----- small chunks -----

  lemma NotListed(lists: seq<seq<int>>, bins: seq<Trie>, binned: map<int, nat>, p: int)
    requires Matches(lists, bins, binned) && p !in binned
    ensures forall j: nat | j < NSMALLBINS :: p !in lists[j]
  {
    forall j: nat | j < NSMALLBINS
      ensures p !in lists[j]
    {
      assert InSmall(lists, j, p) <==> p in lists[j];
    }
  }

  lemma SmallInserted(lists: seq<seq<int>>, bins: seq<Trie>, binned: map<int, nat>, p: int, s: nat)
    requires Matches(lists, bins, binned) && p !in binned && p > 0 && 32 <= s < MIN_LARGE_SIZE && SmallIndex(s) < NSMALLBINS
    ensures Matches(lists[SmallIndex(s) := [p] + lists[SmallIndex(s)]], bins, binned[p := s])
  {
    var k := SmallIndex(s);
    var lists' := lists[k := [p] + lists[k]];
    forall i: nat, a | i < NSMALLBINS
      ensures InSmall(lists', i, a) <==> a in binned[p := s] && binned[p := s][a] < MIN_LARGE_SIZE && SmallIndex(binned[p := s][a]) == i
    {
      assert InSmall(lists, i, a) <==> a in lists[i];
      if i == k { assert a in lists'[k] <==> a == p || a in lists[k]; }
    }
    TreeIgnoresSmall(bins, binned, binned[p := s], p);
  }

  lemma TreeIgnoresSmall(bins: seq<Trie>, binned: map<int, nat>, binned': map<int, nat>, p: int)
    requires TreeMatch(bins, binned)
    requires p in binned ==> binned[p] < MIN_LARGE_SIZE
    requires p in binned' ==> binned'[p] < MIN_LARGE_SIZE
    requires binned - {p} == binned' - {p}
    ensures TreeMatch(bins, binned')
  {
    forall i: nat, a, z: nat | i < NTREEBINS
      ensures InTree(bins, i, a, z) <==> a in binned' && binned'[a] == z && z >= MIN_LARGE_SIZE && TreeIndex(z) == i
    {
      if a != p { assert a in binned <==> a in binned - {p}; assert a in binned' <==> a in binned' - {p}; }
    }
  }

  lemma SmallIgnoresTree(lists: seq<seq<int>>, binned: map<int, nat>, binned': map<int, nat>, p: int)
    requires SmallMatch(lists, binned)
    requires p in binned ==> binned[p] >= MIN_LARGE_SIZE
    requires p in binned' ==> binned'[p] >= MIN_LARGE_SIZE
    requires binned - {p} == binned' - {p}
    ensures SmallMatch(lists, binned')
  {
    forall i: nat, a | i < NSMALLBINS
      ensures InSmall(lists, i, a) <==> a in binned' && binned'[a] < MIN_LARGE_SIZE && SmallIndex(binned'[a]) == i
    {
      if a != p { assert a in binned <==> a in binned - {p}; assert a in binned' <==> a in binned' - {p}; }
    }
  }

  lemma SmallRemoved(lists: seq<seq<int>>, bins: seq<Trie>, binned: map<int, nat>, p: int, list': seq<int>)
    requires Matches(lists, bins, binned) && p in binned && binned[p] < MIN_LARGE_SIZE && SmallIndex(binned[p]) < NSMALLBINS
    requires forall a :: a in list' <==> a in lists[SmallIndex(binned[p])] && a != p
    ensures Matches(lists[SmallIndex(binned[p]) := list'], bins, binned - {p})
  {
    var k := SmallIndex(binned[p]);
    var lists' := lists[k := list'];
    forall i: nat, a | i < NSMALLBINS
      ensures InSmall(lists', i, a) <==> a in binned - {p} && binned[a] < MIN_LARGE_SIZE && SmallIndex(binned[a]) == i
    {
      assert InSmall(lists, i, a) <==> a in lists[i];
    }
    TreeIgnoresSmall(bins, binned, binned - {p}, p);
  }

  // ----- large chunks -----

  lemma {:induction false} AddrMember(t: Trie, x: int) returns (z: nat)
    requires x in Addrs(t)
    ensures (x, z) in Members(t) && z in Sizes(t)
  {
    if x in t.ring {
      z := t.size;
    } else if x in Addrs(t.left) {
      z := AddrMember(t.left, x);
    } else {
      z := AddrMember(t.right, x);
    }
  }

  lemma NotInTrees(lists: seq<seq<int>>, bins: seq<Trie>, binned: map<int, nat>, p: int)
    requires Matches(lists, bins, binned) && p !in binned
    ensures Unbinned(bins, p)
  {
    forall j: nat | j < |bins|
      ensures p !in Addrs(bins[j])
    {
      if p in Addrs(bins[j]) {
        var z := AddrMember(bins[j], p);
        assert InTree(bins, j, p, z);
      }
    }
  }

  lemma LargeInserted(lists: seq<seq<int>>, bins: seq<Trie>, binned: map<int, nat>, p: int, s: nat, t: Trie)
    requires Matches(lists, bins, binned) && p !in binned && p > 0
    requires MIN_LARGE_SIZE <= s < SIZE_LIMIT && TreeIndex(s) < NTREEBINS
    requires Members(t) == Members(bins[TreeIndex(s)]) + {(p, s)}
    ensures Matches(lists, bins[TreeIndex(s) := t], binned[p := s])
  {
    var k, bins', binned' := TreeIndex(s), bins[TreeIndex(s) := t], binned[p := s];
    forall i: nat, a, z: nat | i < NTREEBINS
      ensures InTree(bins', i, a, z) <==> a in binned' && binned'[a] == z && z >= MIN_LARGE_SIZE && TreeIndex(z) == i
    {
      assert InTree(bins, i, a, z) <==> (a, z) in Members(bins[i]);
      assert InTree(bins, i, p, z) ==> p in binned;
    }
    assert binned' - {p} == binned - {p};
    SmallIgnoresTree(lists, binned, binned', p);
  }

  lemma LargeRemoved(lists: seq<seq<int>>, bins: seq<Trie>, binned: map<int, nat>, p: int, s: nat, t: Trie)
    requires Matches(lists, bins, binned) && p in binned && binned[p] == s
    requires MIN_LARGE_SIZE <= s && TreeIndex(s) < NTREEBINS
    requires Members(t) == Members(bins[TreeIndex(s)]) - {(p, s)}
    ensures Matches(lists, bins[TreeIndex(s) := t], binned - {p})
  {
    var k, bins', binned' := TreeIndex(s), bins[TreeIndex(s) := t], binned - {p};
    forall i: nat, a, z: nat | i < NTREEBINS
      ensures InTree(bins', i, a, z) <==> a in binned' && binned'[a] == z && z >= MIN_LARGE_SIZE && TreeIndex(z) == i
    {
      assert InTree(bins, i, a, z) <==> (a, z) in Members(bins[i]);
    }
    SmallIgnoresTree(lists, binned, binned', p);
  }

  // ----- what the maps and searches say about the binned chunks -----

  /** Above the last mark there are no small chunks. */
  lemma NoneSmall(m: LinkMap, map_: Word, lists: seq<seq<int>>, bins: seq<Trie>, binned: map<int, nat>, i: nat)
    requires S.Consistent(m, map_, lists) && Matches(lists, bins, binned)
    requires forall j: nat | i <= j < NSMALLBINS :: !map_[j]
    ensures forall w <- binned :: binned[w] < MIN_LARGE_SIZE ==> SmallIndex(binned[w]) < i
  {
    forall w | w in binned && binned[w] < MIN_LARGE_SIZE
      ensures SmallIndex(binned[w]) < i
    {
      var j := SmallIndex(binned[w]);
      SmallIndexRange(binned[w]);
      assert InSmall(lists, j, w);
      assert S.BinOk(m, map_[j], lists[j], j);
    }
  }

  /** Between two marks there are none either. */
  lemma NoneBetween(m: LinkMap, map_: Word, lists: seq<seq<int>>, bins: seq<Trie>, binned: map<int, nat>, lo: nat, hi: nat)
    requires S.Consistent(m, map_, lists) && Matches(lists, bins, binned) && hi <= NSMALLBINS
    requires forall j: nat | lo <= j < hi :: !map_[j]
    ensures forall w <- binned :: binned[w] < MIN_LARGE_SIZE ==> !(lo <= SmallIndex(binned[w]) < hi)
  {
    forall w | w in binned && binned[w] < MIN_LARGE_SIZE
      ensures !(lo <= SmallIndex(binned[w]) < hi)
    {
      var j := SmallIndex(binned[w]);
      SmallIndexRange(binned[w]);
      assert InSmall(lists, j, w);
      assert S.BinOk(m, map_[j], lists[j], j);
    }
  }

  lemma Marked(m: Heap, roots: seq<int>, map_: Word, bins: seq<Trie>, i: nat, w: int, z: nat)
    requires T.Consistent(m, roots, map_, bins) && InTree(bins, i, w, z)
    ensures map_[i]
  {
    assert T.BinOk(m, roots[i], map_[i], bins[i], i);
  }

  lemma NoneLarge(m: Heap, roots: seq<int>, map_: Word, lists: seq<seq<int>>, bins: seq<Trie>, binned: map<int, nat>)
    requires T.Consistent(m, roots, map_, bins) && Matches(lists, bins, binned) && map_ == Zero(NTREEBINS)
    ensures forall w <- binned :: binned[w] < MIN_LARGE_SIZE
  {
    forall w | w in binned
      ensures binned[w] < MIN_LARGE_SIZE
    {
      var z := binned[w];
      if z >= MIN_LARGE_SIZE {
        TreeIndexSpec(z);
        assert InTree(bins, TreeIndex(z), w, z);
        Marked(m, roots, map_, bins, TreeIndex(z), w, z);
      }
    }
  }

  /** The best fit over the tries is the best fit over the large binned chunks. */
  lemma BestBinned(lists: seq<seq<int>>, bins: seq<Trie>, binned: map<int, nat>, nb: nat, v: int, rsize: nat)
    requires Matches(lists, bins, binned) && BestOf(bins, nb, v, rsize)
    ensures v == 0 ==> forall w <- binned :: binned[w] >= MIN_LARGE_SIZE ==> binned[w] < nb
    ensures v != 0 ==> v in binned && binned[v] == nb + rsize && nb + rsize >= MIN_LARGE_SIZE
    ensures v != 0 ==> forall w <- binned :: binned[w] >= MIN_LARGE_SIZE && binned[w] >= nb ==> nb + rsize <= binned[w]
  {
    if v != 0 { assert InTree(bins, TreeIndex(nb + rsize), v, nb + rsize); }
    forall w | w in binned && binned[w] >= MIN_LARGE_SIZE
      ensures var z := binned[w]; TreeIndex(z) < NTREEBINS && z in Sizes(bins[TreeIndex(z)])
    {
      var z := binned[w];
      TreeIndexSpec(z);
      assert InTree(bins, TreeIndex(z), w, z);
      MemberSizes(bins[TreeIndex(z)]);
    }
  }

  // ----- the bins as an object -----

  class Bins {
    const small: SmallBins
    const tree: TreeBins

    ghost predicate Inv()
      reads small, tree
    {
      small.Inv() && tree.Inv()
    }

    ghost predicate Holds(binned: map<int, nat>)
      reads small, tree
    {
      Inv() && Matches(small.lists, tree.bins, binned)
    }

    constructor ()
      ensures Holds(map[]) && fresh(small) && fresh(tree)
    {
      small := new SmallBins();
      tree := new TreeBins();
      new;
      forall i: nat, a | i < NSMALLBINS
        ensures !InSmall(small.lists, i, a)
      {
      }
    }

    /** insert_small_chunk on a chunk in no bin. */
    method InsertSmallChunk(p: int, s: nat, ghost binned: map<int, nat>)
      requires Holds(binned) && p !in binned && p > 0 && 32 <= s < MIN_LARGE_SIZE
      modifies small
      ensures Holds(binned[p := s])
    {
      SmallIndexRange(s);
      NotListed(small.lists, tree.bins, binned, p);
      SmallInserted(small.lists, tree.bins, binned, p, s);
      small.InsertSmall(p, s);
    }

    /** insert_chunk. */
    method InsertChunk(p: int, s: nat, ghost binned: map<int, nat>)
      requires Holds(binned) && p !in binned && p > 0 && 32 <= s < SIZE_LIMIT
      modifies small, tree
      ensures Holds(binned[p := s])
    {
      if s < MIN_LARGE_SIZE {
        InsertSmallChunk(p, s, binned);
      } else {
        NotInTrees(small.lists, tree.bins, binned, p);
        ghost var bins := tree.bins;
        TreeInserted(tree.mem, tree.roots, tree.treemap, bins, p, s);
        LargeInserted(small.lists, bins, binned, p, s, Insert(bins[TreeIndex(s)], Height(TreeIndex(s)), s, p));
        tree.InsertLarge(p, s);
      }
    }

    /** unlink_chunk. */
    method UnlinkChunk(p: int, s: nat, ghost binned: map<int, nat>)
      requires Holds(binned) && p in binned && binned[p] == s
      modifies small, tree
      ensures Holds(binned - {p})
    {
      if s < MIN_LARGE_SIZE {
        SmallIndexRange(s);
        assert InSmall(small.lists, SmallIndex(s), p);
        ghost var list := small.lists[SmallIndex(s)];
        assert S.BinOk(small.mem, small.smallmap[SmallIndex(s)], list, SmallIndex(s));
        WithoutSpec(list, p);
        SmallRemoved(small.lists, tree.bins, binned, p, Without(list, p));
        small.UnlinkSmall(p, s);
      } else {
        UnlinkLargeChunk(p, s, binned);
      }
    }

    /** unlink_large_chunk on a chunk known to be binned. */
    method UnlinkLargeChunk(p: int, ghost s: nat, ghost binned: map<int, nat>)
      requires Holds(binned) && p in binned && binned[p] == s && s >= MIN_LARGE_SIZE
      modifies tree
      ensures Holds(binned - {p})
    {
      ghost var bins := tree.bins;
      TreeIndexSpec(s);
      assert InTree(bins, TreeIndex(s), p, s);
      TreeRemoved(tree.mem, tree.roots, tree.treemap, bins, p, s);
      LargeRemoved(small.lists, bins, binned, p, s, Remove(bins[TreeIndex(s)], Height(TreeIndex(s)), s, p));
      tree.UnlinkLarge(p, s);
    }

    /** unlink_first_small_chunk on a marked bin: its chunk has the bin's size. */
    method UnlinkFirst(i: nat, ghost binned: map<int, nat>) returns (p: int)
      requires Holds(binned) && i < NSMALLBINS && small.smallmap[i]
      modifies small
      ensures p in binned && binned[p] < MIN_LARGE_SIZE && SmallIndex(binned[p]) == i
      ensures Holds(binned - {p})
    {
      ghost var list := small.lists[i];
      assert S.BinOk(small.mem, small.smallmap[i], list, i);
      p := small.UnlinkFirst(i);
      assert InSmall(old(small.lists), i, p);
      FirstMembers(list);
      SmallRemoved(old(small.lists), tree.bins, binned, p, list[1..]);
    }
  }

  lemma FirstMembers(list: seq<int>)
    requires NoDup(list) && list != []
    ensures forall a :: a in list[1..] <==> a in list && a != list[0]
  {
    forall a
      ensures a in list[1..] <==> a in list && a != list[0]
    {
      if a in list && a != list[0] {
        var k :| 0 <= k < |list| && list[k] == a;
        assert list[1..][k - 1] == a;
      }
      if a in list[1..] {
        var k :| 0 <= k < |list| - 1 && list[1..][k] == a;
        assert list[k + 1] == a;
      }
    }
  }

  lemma TreeInserted(m: Heap, roots: seq<int>, map_: Word, bins: seq<Trie>, p: int, s: nat)
    requires T.Consistent(m, roots, map_, bins) && Unbinned(bins, p) && MIN_LARGE_SIZE <= s < SIZE_LIMIT
    ensures TreeIndex(s) < NTREEBINS
    ensures Members(Insert(bins[TreeIndex(s)], Height(TreeIndex(s)), s, p)) == Members(bins[TreeIndex(s)]) + {(p, s)}
  {
    var i := TreeIndex(s);
    TreeIndexSpec(s);
    assert T.BinOk(m, roots[i], map_[i], bins[i], i);
    InsertSpec(bins[i], Key(i), Height(i), s, p);
  }

  lemma TreeRemoved(m: Heap, roots: seq<int>, map_: Word, bins: seq<Trie>, p: int, s: nat)
    requires T.Consistent(m, roots, map_, bins) && TreeIndex(s) < NTREEBINS && InTree(bins, TreeIndex(s), p, s)
    ensures Members(Remove(bins[TreeIndex(s)], Height(TreeIndex(s)), s, p)) == Members(bins[TreeIndex(s)]) - {(p, s)}
  {
    var i := TreeIndex(s);
    assert T.BinOk(m, roots[i], map_[i], bins[i], i);
    RemoveSpec(bins[i], Key(i), Height(i), s, p);
  }
}
