/** The tree bins of malloc_state on chunk records: insert_large_chunk, unlink_large_chunk and the
    searches of tmalloc_large and tmalloc_small (extlib/dlmalloc/malloc.c). */
module TreeBins {
  import opened Words
  import opened Tries
  import opened TrieLinks
  import opened BinIndex
  import opened BestFit

  /** The address of bin slot i, which the root of the bin has as its parent. */
  function SlotAddr(i: nat): int { -1 - i }

  // ----- walking down a trie -----

  /** The hole of c is where the search for a size arrives with height h. */
  ghost predicate PathTo(c: Ctx, h: nat, s: nat) {
    c.Below? ==> c.b == Side(s, h + 1) && c.size != s && PathTo(c.up, h + 1, s)
  }

  ghost function Depth(c: Ctx): nat { if c.Top? then 0 else 1 + Depth(c.up) }

  lemma {:induction false} InsertPlug(c: Ctx, t: Trie, h: nat, s: nat, x: int)
    requires PathTo(c, h, s)
    ensures Insert(Plug(c, t), h + Depth(c), s, x) == Plug(c, Insert(t, h, s, x))
  {
    if c.Below? {
      InsertPlug(c.up, Fill(c, t), h + 1, s, x);
    }
  }

  lemma {:induction false} RemovePlug(c: Ctx, t: Trie, h: nat, s: nat, x: int)
    requires PathTo(c, h, s)
    ensures Remove(Plug(c, t), h + Depth(c), s, x) == Plug(c, Remove(t, h, s, x))
  {
    if c.Below? {
      RemovePlug(c.up, Fill(c, t), h + 1, s, x);
    }
  }

  ghost function ChildCtx(c: Ctx, t: Trie, b: nat): Ctx
    requires t.Node? && b < 2
  {
    Below(c, t.size, t.ring, b, Child(t, 1 - b))
  }

  /** A walk from the root of trie t0 in bin i towards size s has come to u, at height h. */
  ghost predicate Walk(t0: Trie, i: nat, s: nat, c: Ctx, u: Trie, h: nat) {
    && Plug(c, u) == t0 && PathTo(c, h, s) && h + Depth(c) == Height(i) && Slot(c) == SlotAddr(i)
    && Keyed(u, Prefix(s, h), h)
  }

  lemma WalkStep(t0: Trie, i: nat, s: nat, c: Ctx, u: Trie, h: nat)
    requires Walk(t0, i, s, c, u, h) && u.Node? && u.size != s
    ensures h > 0 && Walk(t0, i, s, ChildCtx(c, u, Side(s, h)), Child(u, Side(s, h)), h - 1)
  {
  }

  /** The node that holds a member. */
  lemma {:induction false} Locate(t0: Trie, i: nat, c: Ctx, u: Trie, h: nat, s: nat, x: int)
    returns (c': Ctx, u': Trie, h': nat)
    requires Walk(t0, i, s, c, u, h) && (x, s) in Members(u)
    ensures Walk(t0, i, s, c', u', h') && u'.Node? && u'.size == s && x in u'.ring
    decreases u
  {
    if u.size == s {
      MemberOfNode(u, Prefix(s, h), h, s, x);
      c', u', h' := c, u, h;
    } else {
      var b := Side(s, h);
      MemberSide(u, Prefix(s, h), h, s, x);
      WalkStep(t0, i, s, c, u, h);
      c', u', h' := Locate(t0, i, ChildCtx(c, u, b), Child(u, b), h - 1, s, x);
    }
  }

  // ----- the records of a bin -----

  /** Slot i holds the root of trie t, its map bit says whether there is one, and the records agree. */
  ghost predicate BinOk(m: Heap, root: int, mark: bool, t: Trie, i: nat) {
    && root == Ptr(t) && mark == t.Node?
    && Linked(m, t, SlotAddr(i), i) && Valid(t, Key(i), Height(i))
    && forall z <- Sizes(t) :: 256 <= z < SIZE_LIMIT && TreeIndex(z) == i
  }

  ghost predicate Consistent(m: Heap, roots: seq<int>, marks: Word, bins: seq<Trie>) {
    && |roots| == NTREEBINS && |marks| == NTREEBINS && |bins| == NTREEBINS
    && (forall i: nat | i < NTREEBINS :: BinOk(m, roots[i], marks[i], bins[i], i))
    && Apart(bins)
  }

  ghost predicate Agrees(m: Heap, m': Heap, addrs: set<int>) {
    addrs <= m.Keys && addrs <= m'.Keys && forall a <- addrs :: m'[a] == m[a]
  }

  ghost predicate Apart(bins: seq<Trie>) {
    forall i: nat, j: nat | i < |bins| && j < |bins| && i != j :: Addrs(bins[i]) !! Addrs(bins[j])
  }

  lemma FrameBin(m: Heap, m': Heap, root: int, mark: bool, t: Trie, i: nat)
    requires BinOk(m, root, mark, t, i) && Agrees(m, m', Addrs(t))
    ensures BinOk(m', root, mark, t, i)
  {
    LinkedFrame(m, m', t, SlotAddr(i), i);
  }

  /** Replacing one bin, when no record of the others changes. */
  lemma UpdateBin(m: Heap, roots: seq<int>, marks: Word, bins: seq<Trie>, m': Heap, i: nat, root: int, mark: bool, t: Trie)
    requires Consistent(m, roots, marks, bins) && i < NTREEBINS && BinOk(m', root, mark, t, i)
    requires forall j: nat | j < NTREEBINS && j != i :: Addrs(t) !! Addrs(bins[j]) && Agrees(m, m', Addrs(bins[j]))
    ensures Consistent(m', roots[i := root], marks[i := mark], bins[i := t])
  {
    forall j: nat | j < NTREEBINS && j != i
      ensures BinOk(m', roots[j], marks[j], bins[j], j)
    {
      FrameBin(m, m', roots[j], marks[j], bins[j], j);
    }
  }

  /** The fields of the node in the hole of c. */
  lemma NodeFields(m: Heap, t0: Trie, i: nat, c: Ctx, u: Trie)
    requires Linked(m, t0, SlotAddr(i), i) && Rings(t0) && Plug(c, u) == t0 && Slot(c) == SlotAddr(i)
    ensures At(m, c, u, i)
    ensures u.Node? ==> Ptr(u) in m && Ptr(u) != 0
    ensures u.Node? ==> m[Ptr(u)] == Cell(u.size, u.ring, 0, Ptr(u.left), Ptr(u.right), CtxPtr(c), i)
    ensures Ptr(u) == 0 <==> u.Nil?
  {
    PlugAt(m, c, u, i);
    if u.Node? {
      assert u.ring[0] in RingAddrs(u.ring);
    }
  }

  /** One step of the descent in insert_large_chunk: the sign bit of the shifting register selects
      the child that the trie order selects. */
  lemma DescendStep(m: Heap, t0: Trie, i: nat, s: nat, c: Ctx, u: Trie, h: nat)
    requires Linked(m, t0, SlotAddr(i), i) && Rings(t0) && Walk(t0, i, s, c, u, h) && u.Node? && u.size != s && h <= 64
    ensures Ptr(u) in m
    ensures var b := Side(s, h);
            var next := if b == 0 then m[Ptr(u)].child0 else m[Ptr(u)].child1;
            && h > 0 && Walk(t0, i, s, ChildCtx(c, u, b), Child(u, b), h - 1)
            && Shl(FromNat(s, 64), 64 - h)[63] == (b == 1)
            && Double(Shl(FromNat(s, 64), 64 - h)) == Shl(FromNat(s, 64), 64 - (h - 1))
            && next == Ptr(Child(u, b)) && CtxPtr(ChildCtx(c, u, b)) == Ptr(u)
            && (next == 0 <==> Child(u, b).Nil?)
            && (next != 0 ==> next in m && m[next].size == Child(u, b).size)
  {
    var b := Side(s, h);
    WalkStep(t0, i, s, c, u, h);
    NodeFields(m, t0, i, c, u);
    NodeFields(m, t0, i, ChildCtx(c, u, b), Child(u, b));
    SignBit(s, h);
  }

  // ----- insertion -----

  /** m' differs from m at most in the given records. */
  ghost predicate OnlyChanges(m: Heap, m': Heap, addrs: set<int>) {
    m.Keys <= m'.Keys && forall a <- m.Keys :: a !in addrs ==> m'[a] == m[a]
  }

  lemma InsertedTrie(t0: Trie, i: nat, s: nat, c: Ctx, u: Trie, h: nat, x: int)
    requires i < NTREEBINS && Walk(t0, i, s, c, u, h) && t0.Node? && t0.ring != [] && x !in Addrs(t0)
    requires 256 <= s < SIZE_LIMIT && TreeIndex(s) == i && Valid(t0, Key(i), Height(i))
    requires forall z <- Sizes(t0) :: 256 <= z < SIZE_LIMIT && TreeIndex(z) == i
    ensures var t1 := Insert(t0, Height(i), s, x);
            && t1 == Plug(c, Insert(u, h, s, x)) && Valid(t1, Key(i), Height(i)) && Addrs(t1) == Addrs(t0) + {x}
            && t1.Node? && Ptr(t1) == Ptr(t0)
            && forall z <- Sizes(t1) :: 256 <= z < SIZE_LIMIT && TreeIndex(z) == i
  {
    InsertPlug(c, u, h, s, x);
    TreeIndexSpec(s);
    InsertSpec(t0, Key(i), Height(i), s, x);
  }

  /** A bin after the insertion, from the context in which the chunk was linked. */
  lemma InsertedBin(m': Heap, t0: Trie, i: nat, s: nat, c: Ctx, u: Trie, h: nat, x: int)
    requires i < NTREEBINS && Walk(t0, i, s, c, u, h) && t0.Node? && x !in Addrs(t0)
    requires 256 <= s < SIZE_LIMIT && TreeIndex(s) == i && Valid(t0, Key(i), Height(i))
    requires forall z <- Sizes(t0) :: 256 <= z < SIZE_LIMIT && TreeIndex(z) == i
    requires At(m', c, Insert(u, h, s, x), i)
    ensures BinOk(m', Ptr(t0), true, Insert(t0, Height(i), s, x), i)
    ensures Addrs(Insert(t0, Height(i), s, x)) == Addrs(t0) + {x}
  {
    InsertedTrie(t0, i, s, c, u, h, x);
    PlugAt(m', c, Insert(u, h, s, x), i);
  }

  lemma LeafInserted(m: Heap, t0: Trie, i: nat, s: nat, c: Ctx, h: nat, x: int) returns (m': Heap)
    requires i < NTREEBINS && Walk(t0, i, s, c, Nil, h) && c.Below? && x !in Addrs(t0) && x != 0
    requires 256 <= s < SIZE_LIMIT && TreeIndex(s) == i && BinOk(m, Ptr(t0), true, t0, i)
    ensures CtxPtr(c) in m && CtxPtr(c) != x && c.b < 2 && CtxPtr(c) in Addrs(t0)
    ensures m' == SetChild(m, CtxPtr(c), c.b, x)[x := TChunk(s, x, x, 0, 0, CtxPtr(c), i)]
    ensures BinOk(m', Ptr(t0), true, Insert(t0, Height(i), s, x), i)
    ensures Addrs(Insert(t0, Height(i), s, x)) == Addrs(t0) + {x}
  {
    NodeFields(m, t0, i, c, Nil);
    PlugAddrs(c, Nil);
    AddLeaf(m, c, s, x, i);
    SetHoleSpec(m, c, 0, x, i);
    m' := SetHole(m, c, x)[x := TChunk(s, x, x, 0, 0, CtxPtr(c), i)];
    InsertedBin(m', t0, i, s, c, Nil, h, x);
  }

  lemma RingInserted(m: Heap, t0: Trie, i: nat, s: nat, c: Ctx, u: Trie, h: nat, x: int) returns (m': Heap, t: int, f: int)
    requires i < NTREEBINS && Walk(t0, i, s, c, u, h) && u.Node? && u.size == s && x !in Addrs(t0) && x != 0
    requires 256 <= s < SIZE_LIMIT && TreeIndex(s) == i && BinOk(m, Ptr(t0), true, t0, i)
    ensures t == Ptr(u) && t in m && f == m[t].fd && f in m && t in Addrs(t0) && f in Addrs(t0)
    ensures m' == SetBk(SetFd(m, t, x), f, x)[x := TChunk(s, f, t, 0, 0, 0, i)]
    ensures BinOk(m', Ptr(t0), true, Insert(t0, Height(i), s, x), i)
    ensures Addrs(Insert(t0, Height(i), s, x)) == Addrs(t0) + {x}
  {
    NodeFields(m, t0, i, c, u);
    PlugAddrs(c, u);
    AddToRing(m, c, u, x, i);
    t, f := u.ring[0], Fd(u.ring, 0);
    assert f in RingAddrs(u.ring) && t in RingAddrs(u.ring);
    m' := SetBk(SetFd(m, t, x), f, x)[x := TChunk(s, f, t, 0, 0, 0, i)];
    InsertedBin(m', t0, i, s, c, u, h, x);
  }

  lemma FirstInserted(m: Heap, i: nat, s: nat, x: int)
    requires i < NTREEBINS && x != 0 && 256 <= s < SIZE_LIMIT && TreeIndex(s) == i
    ensures BinOk(m[x := TChunk(s, x, x, 0, 0, SlotAddr(i), i)], x, true, Insert(Nil, Height(i), s, x), i)
    ensures Addrs(Insert(Nil, Height(i), s, x)) == {x}
  {
    AddLeaf(m, Top(SlotAddr(i)), s, x, i);
    TreeIndexSpec(s);
    InsertSpec(Nil, Key(i), Height(i), s, x);
  }

  ghost predicate Unbinned(bins: seq<Trie>, x: int) { forall j: nat | j < |bins| :: x !in Addrs(bins[j]) }

  /** Writing a record that is in no bin. */
  lemma OutsideStore(m: Heap, roots: seq<int>, marks: Word, bins: seq<Trie>, x: int, r: TChunk)
    requires Consistent(m, roots, marks, bins) && Unbinned(bins, x)
    ensures Consistent(m[x := r], roots, marks, bins)
  {
    forall j: nat | j < NTREEBINS
      ensures BinOk(m[x := r], roots[j], marks[j], bins[j], j)
    {
      assert BinOk(m, roots[j], marks[j], bins[j], j);
      LinkedKeys(m, bins[j], SlotAddr(j), j);
      FrameBin(m, m[x := r], roots[j], marks[j], bins[j], j);
    }
  }

  /** A changed bin among the others. */
  lemma InsertedBins(m: Heap, roots: seq<int>, marks: Word, bins: seq<Trie>, m': Heap, i: nat, root: int, t: Trie, x: int)
    requires Consistent(m, roots, marks, bins) && i < NTREEBINS && Unbinned(bins, x) && BinOk(m', root, true, t, i)
    requires Addrs(t) == Addrs(bins[i]) + {x} && OnlyChanges(m, m', Addrs(bins[i]) + {x})
    ensures Consistent(m', roots[i := root], marks[i := true], bins[i := t])
  {
    forall j: nat | j < NTREEBINS && j != i
      ensures Addrs(t) !! Addrs(bins[j]) && Agrees(m, m', Addrs(bins[j]))
    {
      assert BinOk(m, roots[j], marks[j], bins[j], j);
      LinkedKeys(m, bins[j], SlotAddr(j), j);
    }
    UpdateBin(m, roots, marks, bins, m', i, root, true, t);
  }

  // ----- removal -----

  /** What unlink_large_chunk has achieved before its relinking half: x holds the links that its
      replacement must take over. */
  ghost predicate ReadyToRelink(m: Heap, c: Ctx, x: int, t: Trie, i: nat) {
    && x in m && x != 0 && m[x].parent == CtxPtr(c)
    && CtxRings(c) && CtxLinked(m, c, x, i) && x !in CtxAddrs(c)
    && if t.Nil? then true
       else t.ring != [] && m[x].child0 == Ptr(t.left) && m[x].child1 == Ptr(t.right)
            && exists p :: Vacated(m, c, x, t.size, t.ring, p, t.left, t.right, i)
  }

  lemma ReadyFrom(m: Heap, c: Ctx, x: int, t: Trie, i: nat, p: int)
    requires x in m && x != 0 && m[x].parent == CtxPtr(c) && CtxRings(c) && CtxLinked(m, c, x, i) && x !in CtxAddrs(c)
    requires t.Node? && t.ring != [] && m[x].child0 == Ptr(t.left) && m[x].child1 == Ptr(t.right)
    requires Vacated(m, c, x, t.size, t.ring, p, t.left, t.right, i)
    ensures ReadyToRelink(m, c, x, t, i)
  {
  }

  /** The head of a ring of several leaves: its bk neighbour is unlinked from it. */
  lemma HeadLeaves(m: Heap, c: Ctx, u: Trie, i: nat) returns (m': Heap)
    requires At(m, c, u, i) && u.Node? && |u.ring| > 1
    ensures Fd(u.ring, 0) in m && Bk(u.ring, 0) in m
    ensures m' == Unlinked(m, u.ring, 0)
    ensures ReadyToRelink(m', c, u.ring[0], Node(u.size, RingWithout(u.ring, u.ring[0]), u.left, u.right), i)
    ensures RingWithout(u.ring, u.ring[0]) != [] && RingWithout(u.ring, u.ring[0])[0] == Bk(u.ring, 0)
    ensures m'.Keys == m.Keys && OnlyChanges(m, m', Addrs(u))
  {
    hide ReadyToRelink;
    var ring := u.ring;
    var x := ring[0];
    UnlinkedCells(m, u.size, ring, Ptr(u.left), Ptr(u.right), CtxPtr(c), i, 0);
    HeadUnlinked(m, u.size, ring, Ptr(u.left), Ptr(u.right), CtxPtr(c), i);
    m' := Unlinked(m, ring, 0);
    assert x in RingAddrs(ring) && Fd(ring, 0) in RingAddrs(ring) && Bk(ring, 0) in RingAddrs(ring);
    assert m[x] == Cell(u.size, ring, 0, Ptr(u.left), Ptr(u.right), CtxPtr(c), i);
    LinkedKeys(m, u, CtxPtr(c), i);
    CtxKeys(m, c, x, i);
    LinkedFrame(m, m', u.left, x, i);
    LinkedFrame(m, m', u.right, x, i);
    CtxFrame(m, m', c, x, i);
    RingWithoutSpec(ring, x);
    ReadyFrom(m', c, x, Node(u.size, RingWithout(ring, x), u.left, u.right), i, 0);
  }

  ghost predicate IsLeaf(t: Trie) { t.Node? && t.left.Nil? && t.right.Nil? }

  /** The side on which unlink_large_chunk looks for a leaf. */
  ghost function LeafSide(u: Trie): nat
    requires u.Node?
  {
    if u.right.Node? then 1 else 0
  }

  /** The descent to the rightmost leaf of subtrie `sub` has come to v. */
  ghost predicate ToLeaf(sub: Trie, x: int, d: Ctx, v: Trie) {
    && v.Node? && Slot(d) == x && Plug(d, v) == sub && sub.Node?
    && Rightmost(v) == Rightmost(sub) && Plug(d, DropRightmost(v)) == DropRightmost(sub)
    && (d.Below? ==> d.b < 2)
  }

  lemma ToLeafStep(sub: Trie, x: int, d: Ctx, v: Trie)
    requires ToLeaf(sub, x, d, v) && !IsLeaf(v)
    ensures ToLeaf(sub, x, ChildCtx(d, v, LeafSide(v)), Child(v, LeafSide(v)))
  {
  }

  lemma {:induction false} PlugPtr(c: Ctx, t: Trie, t': Trie)
    requires c.Below?
    ensures Ptr(Plug(c, t)) == Ptr(Plug(c, t')) && Plug(c, t).Node?
  {
    if c.up.Below? {
      PlugPtr(c.up, Fill(c, t), Fill(c, t'));
    }
  }

  lemma VacateRest(u: Trie)
    requires u.Node? && Rings(u) && !IsLeaf(u)
    ensures var t, b := Vacate(u), LeafSide(u);
            && t.Node? && t.size == Rightmost(Child(u, b)).size && t.ring == Rightmost(Child(u, b)).ring
            && Child(t, b) == DropRightmost(Child(u, b)) && Child(t, 1 - b) == Child(u, 1 - b)
            && Rings(t) && t.ring != [] && Addrs(t) == Addrs(u.left) + Addrs(u.right)
  {
    VacateRings(u);
    VacateSets(u);
  }

  /** The store *RP = 0 that cuts the rightmost leaf off: into the leaf's parent inside the subtrie,
      or into x itself. */
  ghost function CutStore(m: Heap, x: int, b: nat, d: Ctx): Heap
    requires x in m && (d.Below? ==> CtxPtr(d) in m)
  {
    if d.Top? then SetChild(m, x, b, 0) else SetHole(m, d, 0)
  }

  /** A node with a single chunk, taken apart. */
  lemma NodeParts(m: Heap, c: Ctx, u: Trie, i: nat)
    requires At(m, c, u, i) && u.Node? && |u.ring| == 1
    ensures var x := u.ring[0];
            && x in m && x != 0 && m[x] == Cell(u.size, u.ring, 0, Ptr(u.left), Ptr(u.right), CtxPtr(c), i)
            && CtxLinked(m, c, x, i) && CtxRings(c) && x !in CtxAddrs(c) && x in Addrs(u)
            && Linked(m, u.left, x, i) && Linked(m, u.right, x, i) && Rings(u)
            && x !in Addrs(u.left) && x !in Addrs(u.right) && Addrs(u.left) !! Addrs(u.right)
            && CtxAddrs(c) !! Addrs(u) && Addrs(u.left) <= Addrs(u) && Addrs(u.right) <= Addrs(u)
            && CtxAddrs(c) <= m.Keys && Addrs(u.left) <= m.Keys && Addrs(u.right) <= m.Keys
            && Rings(u.left) && Rings(u.right)
  {
    var x := u.ring[0];
    assert x in RingAddrs(u.ring);
    CtxKeys(m, c, x, i);
    LinkedKeys(m, u.left, x, i);
    LinkedKeys(m, u.right, x, i);
  }

  /** What cutting the rightmost leaf v off does to the subtrie below x. */
  lemma LeafCutOff(m: Heap, x: int, b: nat, sub: Trie, i: nat, d: Ctx, v: Trie) returns (m': Heap)
    requires LeafBelow(m, x, b, sub, i, d, v)
    ensures d.Below? ==> CtxPtr(d) in m
    ensures m' == CutStore(m, x, b, d) && m'.Keys == m.Keys && OnlyChanges(m, m', Addrs(sub) + {x})
    ensures Linked(m', DropRightmost(sub), x, i) && v.ring != [] && RingOk(m', v.size, v.ring, 0, 0, CtxPtr(d), i)
    ensures m'[x] == if b == 0 then m[x].(child0 := Ptr(DropRightmost(sub))) else m[x].(child1 := Ptr(DropRightmost(sub)))
  {
    hide Linked, RingOk, DropRightmost, Rings, LeafBelow;
    if d.Top? { m' := LeafOfX(m, x, b, sub, i, d, v); } else { m' := LeafBelowX(m, x, b, sub, i, d, v); }
  }

  /** The leaf v, below d, is the rightmost of the subtrie on side b of node x. */
  ghost predicate LeafBelow(m: Heap, x: int, b: nat, sub: Trie, i: nat, d: Ctx, v: Trie) {
    && x in m && (if b == 0 then m[x].child0 else m[x].child1) == Ptr(sub) && x !in Addrs(sub)
    && Rings(sub) && Linked(m, sub, x, i) && ToLeaf(sub, x, d, v) && IsLeaf(v) && b < 2
  }

  lemma LeafOfX(m: Heap, x: int, b: nat, sub: Trie, i: nat, d: Ctx, v: Trie) returns (m': Heap)
    requires LeafBelow(m, x, b, sub, i, d, v) && d.Top?
    ensures m' == CutStore(m, x, b, d) && m'.Keys == m.Keys && OnlyChanges(m, m', Addrs(sub) + {x})
    ensures Linked(m', DropRightmost(sub), x, i) && v.ring != [] && RingOk(m', v.size, v.ring, 0, 0, CtxPtr(d), i)
    ensures m'[x] == if b == 0 then m[x].(child0 := Ptr(DropRightmost(sub))) else m[x].(child1 := Ptr(DropRightmost(sub)))
  {
    hide NoDup;
    m' := CutStore(m, x, b, d);
    assert forall j: nat | j < |v.ring| :: v.ring[j] in RingAddrs(v.ring);
  }

  lemma LeafBelowX(m: Heap, x: int, b: nat, sub: Trie, i: nat, d: Ctx, v: Trie) returns (m': Heap)
    requires LeafBelow(m, x, b, sub, i, d, v) && d.Below?
    ensures CtxPtr(d) in m
    ensures m' == CutStore(m, x, b, d) && m'.Keys == m.Keys && OnlyChanges(m, m', Addrs(sub) + {x})
    ensures Linked(m', DropRightmost(sub), x, i) && v.ring != [] && RingOk(m', v.size, v.ring, 0, 0, CtxPtr(d), i)
    ensures m'[x] == if b == 0 then m[x].(child0 := Ptr(DropRightmost(sub))) else m[x].(child1 := Ptr(DropRightmost(sub)))
  {
    hide Rings, Linked, RingOk, CtxRings, SetHole, Plug, DropRightmost;
    LeafStands(m, x, sub, i, d, v);
    LeafCut(m, d, v, i);
    SetHoleSpec(m, d, Ptr(v), 0, i);
    m' := CutStore(m, x, b, d);
    PlugAt(m', d, Nil, i);
    PlugPtr(d, v, Nil);
    DropLeaf(v);
  }

  lemma DropLeaf(v: Trie)
    requires IsLeaf(v)
    ensures DropRightmost(v) == Nil
  {
  }

  lemma LeafStands(m: Heap, x: int, sub: Trie, i: nat, d: Ctx, v: Trie)
    requires Rings(sub) && Linked(m, sub, x, i) && x !in Addrs(sub) && ToLeaf(sub, x, d, v) && IsLeaf(v)
    ensures At(m, d, v, i) && Addrs(sub) == CtxAddrs(d) + Addrs(v) && v.ring != [] && Addrs(sub) <= m.Keys
  {
    hide Linked, DropRightmost, Rightmost;
    PlugAt(m, d, v, i);
    PlugAddrs(d, v);
    LinkedKeys(m, sub, x, i);
  }

  lemma LeafReplaces(m: Heap, c: Ctx, u: Trie, i: nat, d: Ctx, v: Trie) returns (m': Heap)
    requires At(m, c, u, i) && u.Node? && |u.ring| == 1 && !IsLeaf(u)
    requires ToLeaf(Child(u, LeafSide(u)), u.ring[0], d, v) && IsLeaf(v)
    ensures u.ring[0] in m && (d.Below? ==> CtxPtr(d) in m)
    ensures m' == CutStore(m, u.ring[0], LeafSide(u), d)
    ensures ReadyToRelink(m', c, u.ring[0], Vacate(u), i) && Ptr(Vacate(u)) == Ptr(v)
    ensures m'.Keys == m.Keys && OnlyChanges(m, m', Addrs(u))
  {
    hide ReadyToRelink, Linked, CtxLinked, RingOk, Rings, CtxRings, ToLeaf, CutStore, Rightmost, DropRightmost, Addrs, CtxAddrs;
    var x, b := u.ring[0], LeafSide(u);
    var sub, t := Child(u, b), Vacate(u);
    NodeParts(m, c, u, i);
    VacateRest(u);
    m' := LeafCutOff(m, x, b, sub, i, d, v);
    CtxFrame(m, m', c, x, i);
    LinkedFrame(m, m', Child(u, 1 - b), x, i);
    LeafIsRightmost(sub, x, d, v);
    ReadyFrom(m', c, x, t, i, CtxPtr(d));
  }

  lemma LeafIsRightmost(sub: Trie, x: int, d: Ctx, v: Trie)
    requires ToLeaf(sub, x, d, v) && IsLeaf(v)
    ensures sub.Node? && Rightmost(sub) == v
  {
  }

  ghost function RelinkStores(m: Heap, c: Ctx, t: Trie): Heap
    requires c.Below? ==> CtxPtr(c) in m
    requires t.Node? ==> t.ring != [] && t.ring[0] in m
    requires t.Node? ==> (Ptr(t.left) != 0 ==> Ptr(t.left) in m && t.ring[0] != Ptr(t.left))
    requires t.Node? ==> (Ptr(t.right) != 0 ==> Ptr(t.right) in m && t.ring[0] != Ptr(t.right))
  {
    if t.Nil? then SetHole(m, c, 0) else Relinked(m, c, t.ring, t.left, t.right)
  }

  /** The parent's child[0] is x exactly when the hole is on the left. */
  lemma RelinkSide(m: Heap, c: Ctx, x: int, i: nat)
    requires CtxLinked(m, c, x, i) && CtxRings(c) && x !in CtxAddrs(c) && x != 0 && c.Below? && c.b < 2
    ensures CtxPtr(c) in m && CtxPtr(c) in CtxAddrs(c) && (m[CtxPtr(c)].child0 == x <==> c.b == 0)
  {
    var o := c.other;
    assert c.ring[0] in RingAddrs(c.ring);
    assert m[c.ring[0]] == Cell(c.size, c.ring, 0, if c.b == 0 then x else Ptr(o), if c.b == 0 then Ptr(o) else x, CtxPtr(c.up), i);
    if o.Node? && o.ring != [] { assert o.ring[0] in RingAddrs(o.ring); }
  }

  /** The heads involved in relinking are records, distinct from each other and from x. */
  lemma RelinkHeads(m: Heap, c: Ctx, x: int, t: Trie, i: nat)
    requires ReadyToRelink(m, c, x, t, i) && t.Node?
    ensures t.ring[0] in m && t.ring[0] in Addrs(t) && t.ring[0] != 0 && t.ring[0] != x && t.ring[0] !in CtxAddrs(c)
    ensures Ptr(t.left) != 0 ==> Ptr(t.left) in m && Ptr(t.left) in Addrs(t) && Ptr(t.left) != t.ring[0] && Ptr(t.left) != x && Ptr(t.left) !in CtxAddrs(c)
    ensures Ptr(t.right) != 0 ==> Ptr(t.right) in m && Ptr(t.right) in Addrs(t) && Ptr(t.right) != t.ring[0] && Ptr(t.right) != x && Ptr(t.right) !in CtxAddrs(c)
    ensures Ptr(t.left) != 0 ==> Ptr(t.left) != Ptr(t.right)
  {
    var p :| Vacated(m, c, x, t.size, t.ring, p, t.left, t.right, i);
    assert t.ring[0] in RingAddrs(t.ring);
    if t.left.Node? { LinkedKeys(m, t.left, x, i); assert t.left.ring[0] in RingAddrs(t.left.ring); }
    if t.right.Node? { LinkedKeys(m, t.right, x, i); assert t.right.ring[0] in RingAddrs(t.right.ring); }
  }

  /** A leaf of a single chunk leaves nothing behind. */
  lemma LoneLeaf(m: Heap, c: Ctx, u: Trie, i: nat)
    requires At(m, c, u, i) && u.Node? && |u.ring| == 1 && IsLeaf(u)
    ensures u.ring[0] in m && u.ring[0] in RingAddrs(u.ring)
    ensures ReadyToRelink(m, c, u.ring[0], Vacate(u), i) && Vacate(u).Nil?
  {
    assert u.ring[0] in RingAddrs(u.ring);
    assert m[u.ring[0]] == Cell(u.size, u.ring, 0, Ptr(u.left), Ptr(u.right), CtxPtr(c), i);
  }

  /** The relinking half puts the replacement, or nothing, in the place of x. */
  lemma RelinkDone(m: Heap, c: Ctx, x: int, t: Trie, i: nat)
    requires ReadyToRelink(m, c, x, t, i) && (c.Below? ==> c.b < 2)
    ensures c.Below? ==> CtxPtr(c) in m
    ensures t.Node? ==> t.ring[0] in m
    ensures t.Node? ==> (Ptr(t.left) != 0 ==> Ptr(t.left) in m && t.ring[0] != Ptr(t.left))
    ensures t.Node? ==> (Ptr(t.right) != 0 ==> Ptr(t.right) in m && t.ring[0] != Ptr(t.right))
    ensures At(RelinkStores(m, c, t), c, t, i)
    ensures RelinkStores(m, c, t).Keys == m.Keys && OnlyChanges(m, RelinkStores(m, c, t), CtxAddrs(c) + Addrs(t))
  {
    hide Vacated, CtxLinked;
    if c.Below? { RelinkSide(m, c, x, i); }
    if t.Nil? {
      SetHoleSpec(m, c, x, 0, i);
    } else {
      RelinkHeads(m, c, x, t, i);
      var p :| Vacated(m, c, x, t.size, t.ring, p, t.left, t.right, i);
      RelinkedSpec(m, c, x, t.size, t.ring, p, t.left, t.right, i);
    }
  }

  lemma RemovedTrie(t0: Trie, i: nat, s: nat, c: Ctx, u: Trie, h: nat, x: int)
    requires i < NTREEBINS && Walk(t0, i, s, c, u, h)
    requires (x, s) in Members(t0) && Prefix(s, Height(i)) == Key(i) && Valid(t0, Key(i), Height(i))
    requires forall z <- Sizes(t0) :: 256 <= z < SIZE_LIMIT && TreeIndex(z) == i
    ensures var t1 := Remove(t0, Height(i), s, x);
            && t1 == Plug(c, Remove(u, h, s, x)) && Valid(t1, Key(i), Height(i)) && Addrs(t1) == Addrs(t0) - {x}
            && forall z <- Sizes(t1) :: 256 <= z < SIZE_LIMIT && TreeIndex(z) == i
  {
    hide Remove, Plug, Valid, Members, Addrs, Sizes, TreeIndex, Prefix, Key, PathTo, Keyed;
    RemovePlug(c, u, h, s, x);
    RemoveSpec(t0, Key(i), Height(i), s, x);
  }

  /** A bin after a removal, from the context in which the node was replaced. */
  lemma RemovedBin(m': Heap, t0: Trie, i: nat, s: nat, c: Ctx, u: Trie, h: nat, x: int, t: Trie, root: int)
    requires i < NTREEBINS && Walk(t0, i, s, c, u, h)
    requires (x, s) in Members(t0) && Prefix(s, Height(i)) == Key(i) && Valid(t0, Key(i), Height(i))
    requires forall z <- Sizes(t0) :: 256 <= z < SIZE_LIMIT && TreeIndex(z) == i
    requires t == Remove(u, h, s, x) && At(m', c, t, i)
    requires root == if c.Top? then Ptr(t) else Ptr(t0)
    ensures var t1 := Remove(t0, Height(i), s, x);
            BinOk(m', root, t1.Node?, t1, i) && Addrs(t1) == Addrs(t0) - {x} && t1.Node? == (c.Below? || t.Node?)
  {
    RemovedTrie(t0, i, s, c, u, h, x);
    PlugAt(m', c, t, i);
    if c.Below? {
      PlugPtr(c, u, t);
      PlugPtr(c, t, t);
    }
  }

  lemma RemovedBins(m: Heap, roots: seq<int>, marks: Word, bins: seq<Trie>, m': Heap, i: nat, root: int, t: Trie)
    requires Consistent(m, roots, marks, bins) && i < NTREEBINS && BinOk(m', root, t.Node?, t, i)
    requires Addrs(t) <= Addrs(bins[i]) && OnlyChanges(m, m', Addrs(bins[i]))
    ensures Consistent(m', roots[i := root], marks[i := t.Node?], bins[i := t])
  {
    forall j: nat | j < NTREEBINS && j != i
      ensures Addrs(t) !! Addrs(bins[j]) && Agrees(m, m', Addrs(bins[j]))
    {
      assert BinOk(m, roots[j], marks[j], bins[j], j);
      LinkedKeys(m, bins[j], SlotAddr(j), j);
    }
    UpdateBin(m, roots, marks, bins, m', i, root, t.Node?, t);
  }

  lemma SubtrieFields(m: Heap, c: Ctx, u: Trie, i: nat)
    requires At(m, c, u, i) && u.Node? && |u.ring| == 1 && !IsLeaf(u)
    ensures var x, sub := u.ring[0], Child(u, LeafSide(u));
            && x in m && sub.Node? && Ptr(sub) in m && ToLeaf(sub, x, Top(x), sub)
            && m[x].child0 == Ptr(u.left) && m[x].child1 == Ptr(u.right)
            && (Ptr(u.left) == 0 <==> u.left.Nil?) && (Ptr(u.right) == 0 <==> u.right.Nil?)
            && m[Ptr(sub)].child0 == Ptr(sub.left) && m[Ptr(sub)].child1 == Ptr(sub.right)
            && (Ptr(sub.left) == 0 <==> sub.left.Nil?) && (Ptr(sub.right) == 0 <==> sub.right.Nil?)
  {
    var x, sub := u.ring[0], Child(u, LeafSide(u));
    assert m[x] == Cell(u.size, u.ring, 0, Ptr(u.left), Ptr(u.right), CtxPtr(c), i);
    InnerFields(m, c, u, i, Top(x), sub);
    LinkedHead(m, u.left, x, i);
    LinkedHead(m, u.right, x, i);
  }

  /** The children of a node below x. */
  lemma InnerFields(m: Heap, c: Ctx, u: Trie, i: nat, d: Ctx, v: Trie)
    requires At(m, c, u, i) && u.Node? && |u.ring| == 1 && !IsLeaf(u) && ToLeaf(Child(u, LeafSide(u)), u.ring[0], d, v)
    ensures Ptr(v) in m && m[Ptr(v)].child0 == Ptr(v.left) && m[Ptr(v)].child1 == Ptr(v.right)
    ensures (Ptr(v.left) == 0 <==> v.left.Nil?) && (Ptr(v.right) == 0 <==> v.right.Nil?)
  {
    PlugAt(m, d, v, i);
    assert m[v.ring[0]] == Cell(v.size, v.ring, 0, Ptr(v.left), Ptr(v.right), CtxPtr(d), i);
    LinkedHead(m, v.left, v.ring[0], i);
    LinkedHead(m, v.right, v.ring[0], i);
  }

  lemma LinkedHead(m: Heap, t: Trie, p: int, i: nat)
    requires Linked(m, t, p, i)
    ensures Ptr(t) == 0 <==> t.Nil?
  {
    if t.Node? { assert t.ring[0] in m; }
  }

  lemma {:induction false} RootInCtx(c: Ctx, t: Trie)
    requires c.Below? && CtxRings(c)
    ensures Ptr(Plug(c, t)) in CtxAddrs(c)
  {
    if c.up.Below? {
      RootInCtx(c.up, Fill(c, t));
    } else {
      assert c.ring[0] in RingAddrs(c.ring);
    }
  }

  /** Where a member is and what its record holds. */
  lemma LocateChunk(m: Heap, t0: Trie, root: int, mark: bool, i: nat, s: nat, x: int) returns (c: Ctx, u: Trie, h: nat, p: nat)
    requires i < NTREEBINS && BinOk(m, root, mark, t0, i) && (x, s) in Members(t0) && TreeIndex(s) == i
    ensures Located(m, t0, i, s, x, c, u, h, p) && Prefix(s, Height(i)) == Key(i)
  {
    MemberSizes(t0);
    TreeIndexSpec(s);
    c, u, h := Locate(t0, i, Top(SlotAddr(i)), t0, Height(i), s, x);
    NodeFields(m, t0, i, c, u);
    p :| 0 <= p < |u.ring| && u.ring[p] == x;
    assert x in RingAddrs(u.ring);
  }

  /** Chunk x stands at place p in the ring of node u of bin i. */
  ghost predicate Located(m: Heap, t0: Trie, i: nat, s: nat, x: int, c: Ctx, u: Trie, h: nat, p: nat) {
    && Walk(t0, i, s, c, u, h) && u.Node? && u.size == s && p < |u.ring| && u.ring[p] == x
    && At(m, c, u, i) && x in m && m[x] == Cell(s, u.ring, p, Ptr(u.left), Ptr(u.right), CtxPtr(c), i)
  }

  /** What unlink_large_chunk can tell from the record. */
  lemma LocatedFields(m: Heap, t0: Trie, root: int, mark: bool, i: nat, s: nat, x: int, c: Ctx, u: Trie, h: nat, p: nat)
    requires i < NTREEBINS && BinOk(m, root, mark, t0, i) && Located(m, t0, i, s, x, c, u, h, p)
    ensures x == root <==> c.Top? && p == 0
    ensures CtxPtr(c) != 0 && x != 0 && (c.Below? ==> c.b < 2)
    ensures m[x].bk != x <==> |u.ring| > 1
    ensures (Ptr(u.left) == 0 <==> u.left.Nil?) && (Ptr(u.right) == 0 <==> u.right.Nil?)
    ensures CtxAddrs(c) + Addrs(u) == Addrs(t0)
  {
    PlugAddrs(c, u);
    LinkedHead(m, u.left, u.ring[0], i);
    LinkedHead(m, u.right, u.ring[0], i);
    CtxKeys(m, c, Ptr(u), i);
    if c.Below? {
      PlugPtr(c, u, u);
      RootInCtx(c, u);
      assert c.ring[0] in RingAddrs(c.ring);
    }
    assert u.ring[0] in RingAddrs(u.ring) && x in RingAddrs(u.ring);
  }

  lemma RemoveAddrs(u: Trie, h: nat, s: nat, x: int)
    requires u.Node? && u.size == s && x in u.ring && Rings(u)
    ensures Addrs(Remove(u, h, s, x)) <= Addrs(u)
  {
    VacateSets(u);
    RingWithoutSpec(u.ring, x);
  }

  /** A chained chunk leaves the tree node in place. */
  lemma RemoveChained(u: Trie, h: nat, s: nat, p: nat)
    requires u.Node? && u.size == s && 0 < p < |u.ring| && Rings(u)
    ensures Remove(u, h, s, u.ring[p]).Node? && Ptr(Remove(u, h, s, u.ring[p])) == Ptr(u)
  {
    WithoutAt(u.ring, p);
  }

  /** The bins after unlink_large_chunk. */
  lemma Removed(m: Heap, roots: seq<int>, marks: Word, bins: seq<Trie>, m': Heap, roots': seq<int>, marks': Word,
                s: nat, c: Ctx, u: Trie, h: nat, x: int)
    requires Consistent(m, roots, marks, bins) && TreeIndex(s) < NTREEBINS && (x, s) in Members(bins[TreeIndex(s)])
    requires Walk(bins[TreeIndex(s)], TreeIndex(s), s, c, u, h) && u.Node? && u.size == s && x in u.ring
    requires At(m, c, u, TreeIndex(s)) && CtxAddrs(c) + Addrs(u) == Addrs(bins[TreeIndex(s)])
    requires Prefix(s, Height(TreeIndex(s))) == Key(TreeIndex(s))
    requires var i, t := TreeIndex(s), Remove(u, h, s, x);
             && At(m', c, t, i) && OnlyChanges(m, m', CtxAddrs(c) + Addrs(u))
             && roots' == (if c.Top? then roots[i := Ptr(t)] else roots)
             && marks' == (if c.Top? && t.Nil? then marks[i := false] else marks)
    ensures var i := TreeIndex(s);
            Consistent(m', roots', marks', bins[i := Remove(bins[i], Height(i), s, x)])
  {
    var i, t := TreeIndex(s), Remove(u, h, s, x);
    var t0 := bins[i];
    assert BinOk(m, roots[i], marks[i], t0, i);
    RemovedBin(m', t0, i, s, c, u, h, x, t, roots'[i]);
    var t1 := Remove(t0, Height(i), s, x);
    RemovedBins(m, roots, marks, bins, m', i, roots'[i], t1);
    assert roots[i := roots'[i]] == roots' && marks[i := t1.Node?] == marks';
  }

  // ----- searching -----

  /** u is a subtrie of bin i. */
  ghost predicate Sub(t0: Trie, i: nat, c: Ctx, u: Trie, q: nat, h: nat) {
    Plug(c, u) == t0 && Slot(c) == SlotAddr(i) && Keyed(u, q, h)
  }

  lemma SubChild(t0: Trie, i: nat, c: Ctx, u: Trie, q: nat, h: nat, b: nat)
    requires Sub(t0, i, c, u, q, h) && u.Node? && h > 0 && b < 2
    ensures Sub(t0, i, ChildCtx(c, u, b), Child(u, b), 2 * q + b, h - 1)
  {
  }

  lemma {:induction false} PlugMembers(c: Ctx, u: Trie)
    ensures Members(u) <= Members(Plug(c, u)) && Sizes(u) <= Sizes(Plug(c, u))
  {
    if c.Below? {
      PlugMembers(c.up, Fill(c, u));
    }
  }

  /** What the records say at a node of a bin, and that it is a member. */
  lemma NodeView(m: Heap, t0: Trie, i: nat, c: Ctx, u: Trie)
    requires Linked(m, t0, SlotAddr(i), i) && Rings(t0) && Plug(c, u) == t0 && Slot(c) == SlotAddr(i) && u.Node?
    ensures Ptr(u) in m && Ptr(u) != 0 && m[Ptr(u)].size == u.size
    ensures m[Ptr(u)].child0 == Ptr(u.left) && m[Ptr(u)].child1 == Ptr(u.right)
    ensures (Ptr(u.left) == 0 <==> u.left.Nil?) && (Ptr(u.right) == 0 <==> u.right.Nil?)
    ensures Ptr(u.left) != 0 ==> Ptr(u.left) != Ptr(u.right)
    ensures (Ptr(u), u.size) in Members(t0) && u.size in Sizes(t0)
  {
    NodeFields(m, t0, i, c, u);
    NodeFields(m, t0, i, ChildCtx(c, u, 0), u.left);
    NodeFields(m, t0, i, ChildCtx(c, u, 1), u.right);
    PlugMembers(c, u);
    assert u.ring[0] in RingAddrs(u.ring);
    if u.left.Node? { assert u.left.ring[0] in RingAddrs(u.left.ring); }
    if u.right.Node? { assert u.right.ring[0] in RingAddrs(u.right.ring); }
    assert (Ptr(u), u.size) in RingMembers(u.ring, u.size);
  }

  lemma BinSizes(m: Heap, root: int, mark: bool, t: Trie, i: nat)
    requires BinOk(m, root, mark, t, i)
    ensures Linked(m, t, SlotAddr(i), i) && Rings(t) && Keyed(t, Key(i), Height(i)) && root == Ptr(t)
    ensures forall z <- Sizes(t) :: z < SIZE_LIMIT
    ensures root != 0 <==> t.Node?
  {
    LinkedHead(m, t, SlotAddr(i), i);
  }

  lemma BinsOk(m: Heap, roots: seq<int>, marks: Word, bins: seq<Trie>)
    requires Consistent(m, roots, marks, bins)
    ensures |roots| == NTREEBINS && |marks| == NTREEBINS && |bins| == NTREEBINS
    ensures forall i: nat | i < NTREEBINS :: BinOk(m, roots[i], marks[i], bins[i], i)
  {
  }

  lemma BinHead(m: Heap, root: int, mark: bool, t: Trie, i: nat)
    requires BinOk(m, root, mark, t, i)
    ensures root == Ptr(t) && mark == t.Node?
  {
  }

  lemma SearchStart(t0: Trie, nb: nat, i: nat)
    requires Keyed(t0, Prefix(nb, Height(i)), Height(i)) && nb <= INFINITY && (forall z <- Sizes(t0) :: z < INFINITY)
    ensures Searching(t0, nb, t0, Height(i), Nil, INFINITY - nb)
  {
    LeastFitSpec(t0, nb);
  }

  lemma SearchStep(t0: Trie, nb: nat, u: Trie, h: nat, r: Trie, rsize: nat)
    requires Searching(t0, nb, u, h, r, rsize) && u.Node? && h > 0 && rsize <= Remainder(u.size, nb)
    ensures Searching(t0, nb, Child(u, Side(nb, h)), h - 1, NextRst(nb, u, h, r), rsize)
  {
    if Side(nb, h) == 0 { SearchLeft(t0, nb, u, h, r, rsize); } else { SearchRight(t0, nb, u, h, r, rsize); }
  }

  lemma SearchMove(t0: Trie, nb: nat, i: nat, c: Ctx, u: Trie, h: nat, r: Trie, rsize: nat)
    requires Searching(t0, nb, u, h, r, rsize) && u.Node? && rsize <= Remainder(u.size, nb) && u.size != nb && h <= 64
    requires Sub(t0, i, c, u, Prefix(nb, h), h)
    ensures h > 0
    ensures var b := Side(nb, h);
            && Shl(FromNat(nb, 64), 64 - h)[63] == (b == 1)
            && Double(Shl(FromNat(nb, 64), 64 - h)) == Shl(FromNat(nb, 64), 64 - (h - 1))
            && Searching(t0, nb, Child(u, b), h - 1, NextRst(nb, u, h, r), rsize)
            && Sub(t0, i, ChildCtx(c, u, b), Child(u, b), Prefix(nb, h - 1), h - 1)
            && Sub(t0, i, ChildCtx(c, u, 1), u.right, 2 * Prefix(nb, h) + 1, h - 1)
  {
    SignBit(nb, h);
    SearchStep(t0, nb, u, h, r, rsize);
    SubChild(t0, i, c, u, Prefix(nb, h), h, Side(nb, h));
    SubChild(t0, i, c, u, Prefix(nb, h), h, 1);
  }

  /** v is the chunk found so far, with remainder rsize. */
  ghost predicate Found(t0: Trie, nb: nat, v: int, rsize: nat) {
    nb <= INFINITY && if v == 0 then rsize == INFINITY - nb else (v, nb + rsize) in Members(t0)
  }

  /** Where the walk is (u below c, at height h) and the right subtrie kept (r below d). */
  datatype Search = Search(c: Ctx, u: Trie, h: nat, d: Ctx, r: Trie, rq: nat, rh: nat)

  ghost function NextSearch(nb: nat, st: Search): Search
    requires st.u.Node? && st.h > 0
  {
    var b, kept := Side(nb, st.h), st.u.right.Node? && Side(nb, st.h) == 0;
    Search(ChildCtx(st.c, st.u, b), Child(st.u, b), st.h - 1,
           if kept then ChildCtx(st.c, st.u, 1) else st.d, if kept then st.u.right else st.r,
           if kept then 2 * Prefix(nb, st.h) + 1 else st.rq, if kept then st.h - 1 else st.rh)
  }

  ghost predicate SearchState(m: Heap, t0: Trie, nb: nat, i: nat, st: Search, t: int, rst: int, v: int, rsize: nat, bits: Word) {
    && Linked(m, t0, SlotAddr(i), i) && Rings(t0)
    && st.u.Node? && t == Ptr(st.u) && Sub(t0, i, st.c, st.u, Prefix(nb, st.h), st.h) && st.h <= 64
    && rst == Ptr(st.r) && (rst == 0 <==> st.r.Nil?) && (st.r.Node? ==> Sub(t0, i, st.d, st.r, st.rq, st.rh))
    && Searching(t0, nb, st.u, st.h, st.r, rsize) && Found(t0, nb, v, rsize)
    && rsize > 0 && bits == Shl(FromNat(nb, 64), 64 - st.h)
  }

  /** The first loop is over: what is left to search is u, at t. */
  ghost predicate SearchDone(t0: Trie, nb: nat, i: nat, v: int, rsize: nat, t: int, c: Ctx, u: Trie, q: nat, h: nat) {
    && Found(t0, nb, v, rsize) && t == Ptr(u) && (t == 0 <==> u.Nil?) && (u.Node? ==> Sub(t0, i, c, u, q, h))
    && Leftmost(LeastFit(t0, nb), nb, u, rsize)
  }

  lemma SearchBegin(m: Heap, root: int, mark: bool, t0: Trie, nb: nat, i: nat) returns (st: Search)
    requires BinOk(m, root, mark, t0, i) && i < NTREEBINS && TreeIndex(nb) == i && 256 <= nb < SIZE_LIMIT && root != 0
    ensures SearchState(m, t0, nb, i, st, root, 0, 0, INFINITY - nb, Shl(FromNat(nb, 64), LeftShift(i))) && st.u == t0
  {
    hide Linked, Rings, Searching, Members, Sizes, LeastFit;
    BinSizes(m, root, mark, t0, i);
    TreeIndexSpec(nb);
    LeftShiftHeight(i);
    st := Search(Top(SlotAddr(i)), t0, Height(i), Top(SlotAddr(i)), Nil, 0, 0);
    SearchStart(t0, nb, i);
  }

  /** Looking at a node: an exact fit ends the loop, otherwise the best so far is updated. */
  lemma SearchLooked(m: Heap, t0: Trie, nb: nat, i: nat, st: Search, t: int, rst: int, v: int, rsize: nat, bits: Word)
    requires SearchState(m, t0, nb, i, st, t, rst, v, rsize, bits)
    ensures t in m && |bits| == 64 && nb <= INFINITY && m[t].size == st.u.size
    ensures var trem := Remainder(m[t].size, nb);
            var v', rsize' := if trem < rsize then t else v, if trem < rsize then trem else rsize;
            && rsize' <= trem
            && if rsize' == 0 then SearchDone(t0, nb, i, v', 0, t, st.c, st.u, Prefix(nb, st.h), st.h)
               else st.u.size != nb && SearchState(m, t0, nb, i, st, t, rst, v', rsize', bits)
  {
    hide Linked, Rings, Searching, Keyed, LeastFit, Members, Sizes, Plug;
    NodeView(m, t0, i, st.c, st.u);
    SearchLook(t0, nb, st.u, st.h, st.r, rsize);
  }

  lemma MoveView(m: Heap, t0: Trie, i: nat, c: Ctx, u: Trie, b: nat)
    requires Linked(m, t0, SlotAddr(i), i) && Rings(t0) && Plug(c, u) == t0 && Slot(c) == SlotAddr(i) && u.Node? && b < 2
    ensures Ptr(u) in m
    ensures var rt, next := m[Ptr(u)].child1, if b == 1 then m[Ptr(u)].child1 else m[Ptr(u)].child0;
            && next == Ptr(Child(u, b)) && (next == 0 <==> Child(u, b).Nil?)
            && (rt != 0 && rt != next <==> u.right.Node? && b == 0) && rt == Ptr(u.right) && (rt == 0 <==> u.right.Nil?)
  {
    NodeView(m, t0, i, c, u);
  }

  /** Moving on: the walk reaches the next node, or its end with the subtrie kept. */
  lemma SearchMoved(m: Heap, t0: Trie, nb: nat, i: nat, st: Search, t: int, rst: int, v: int, rsize: nat, bits: Word)
    requires SearchState(m, t0, nb, i, st, t, rst, v, rsize, bits) && rsize <= Remainder(st.u.size, nb) && st.u.size != nb
    ensures t in m && |bits| == 64 && st.h > 0
    ensures var rt, next := m[t].child1, if bits[63] then m[t].child1 else m[t].child0;
            var rst', st' := if rt != 0 && rt != next then rt else rst, NextSearch(nb, st);
            if next == 0 then SearchDone(t0, nb, i, v, rsize, rst', st'.d, st'.r, st'.rq, st'.rh)
            else SearchState(m, t0, nb, i, st', next, rst', v, rsize, Double(bits))
  {
    hide Linked, Rings, Keyed, Members, Sizes, LeastFit, Plug, Searching;
    MoveView(m, t0, i, st.c, st.u, Side(nb, st.h));
    SearchMove(t0, nb, i, st.c, st.u, st.h, st.r, rsize);
    var st' := NextSearch(nb, st);
    if st'.u.Nil? { SearchEnd(t0, nb, st'.h, st'.r, rsize); }
  }

  /** v is a smallest chunk of size at least nb over all bins, with remainder rsize; 0 if none fits. */
  ghost predicate BestOf(bins: seq<Trie>, nb: nat, v: int, rsize: nat) {
    && |bins| == NTREEBINS
    && if v == 0 then forall j: nat, z | j < NTREEBINS && z in Sizes(bins[j]) :: z < nb
       else TreeIndex(nb + rsize) < NTREEBINS && (v, nb + rsize) in Members(bins[TreeIndex(nb + rsize)])
            && forall j: nat, z | j < NTREEBINS && z in Sizes(bins[j]) && z >= nb :: nb + rsize <= z
  }

  /** Bin i is the first that may hold a fit for nb: earlier bins hold only smaller sizes. */
  ghost predicate FirstFit(bins: seq<Trie>, nb: nat, i: nat) {
    && |bins| == NTREEBINS && i < NTREEBINS
    && (forall j: nat, z | j < i && z in Sizes(bins[j]) :: z < nb)
    && nb < SIZE_LIMIT
  }

  lemma SizesInBin(m: Heap, roots: seq<int>, marks: Word, bins: seq<Trie>, j: nat, z: nat)
    requires Consistent(m, roots, marks, bins) && j < NTREEBINS && z in Sizes(bins[j])
    ensures 256 <= z < SIZE_LIMIT && TreeIndex(z) == j
  {
    assert BinOk(m, roots[j], marks[j], bins[j], j);
  }

  lemma OwnBinFirst(m: Heap, roots: seq<int>, marks: Word, bins: seq<Trie>, nb: nat)
    requires Consistent(m, roots, marks, bins) && 256 <= nb < SIZE_LIMIT
    ensures TreeIndex(nb) < NTREEBINS && FirstFit(bins, nb, TreeIndex(nb))
  {
    TreeIndexSpec(nb);
    forall j: nat, z | j < TreeIndex(nb) && z in Sizes(bins[j])
      ensures z < nb
    {
      SizesInBin(m, roots, marks, bins, j, z);
      BinOrder(z, nb);
    }
  }

  /** The best fit of the first bin with a fit is the best over all bins. */
  lemma BestInBin(m: Heap, roots: seq<int>, marks: Word, bins: seq<Trie>, nb: nat, i: nat, v: int, rsize: nat)
    requires Consistent(m, roots, marks, bins) && FirstFit(bins, nb, i)
    requires v != 0 && (v, nb + rsize) in Members(bins[i]) && nb + rsize == LeastFit(bins[i], nb)
    ensures BestOf(bins, nb, v, rsize)
  {
    hide Consistent, TreeIndex, LeastFit, Members, Sizes;
    MemberSizes(bins[i]);
    SizesInBin(m, roots, marks, bins, i, nb + rsize);
    LeastFitSpec(bins[i], nb);
    forall j: nat, z | j < NTREEBINS && z in Sizes(bins[j]) && z >= nb
      ensures nb + rsize <= z
    {
      SizesInBin(m, roots, marks, bins, j, z);
      if i < j { BinOrder(nb + rsize, z); }
    }
  }

  /** The bins to the left of idx that have chunks. */
  lemma LeftMarks(marks: Word, idx: nat, leftbits: Word)
    requires |marks| == NTREEBINS && idx < NTREEBINS && leftbits == And(LeftBits(Bit(NTREEBINS, idx)), marks)
    ensures forall j: nat | j < NTREEBINS :: leftbits[j] <==> idx < j && marks[j]
  {
    forall j: nat | j < NTREEBINS
      ensures leftbits[j] <==> idx < j && marks[j]
    {
      LeftBitsSpec(NTREEBINS, idx, j);
    }
  }

  /** All sizes of bin j fit, so its least size is its best fit. */
  lemma WholeBin(m: Heap, root: int, mark: bool, t: Trie, nb: nat, j: nat)
    requires BinOk(m, root, mark, t, j) && mark && nb < SIZE_LIMIT && forall z <- Sizes(t) :: nb <= z
    ensures root != 0 && root == Ptr(t) && t.Node? && Sub(t, j, Top(SlotAddr(j)), t, Key(j), Height(j))
    ensures Leftmost(LeastFit(t, nb), nb, t, INFINITY - nb) && LeastFit(t, nb) < INFINITY
  {
    BinSizes(m, root, mark, t, j);
    LeastFitSpec(t, nb);
    assert t.size in Sizes(t);
  }

  lemma EmptyBins(m: Heap, roots: seq<int>, marks: Word, bins: seq<Trie>)
    requires Consistent(m, roots, marks, bins)
    ensures forall k: nat | k < NTREEBINS && !marks[k] :: Sizes(bins[k]) == {}
  {
    forall k: nat | k < NTREEBINS && !marks[k]
      ensures Sizes(bins[k]) == {}
    {
      assert BinOk(m, roots[k], marks[k], bins[k], k);
    }
  }

  lemma NextMarked(m: Heap, roots: seq<int>, marks: Word, bins: seq<Trie>, nb: nat, idx: nat, leftbits: Word) returns (j: nat)
    requires Consistent(m, roots, marks, bins) && 256 <= nb < SIZE_LIMIT && idx == TreeIndex(nb) < NTREEBINS
    requires leftbits == And(LeftBits(Bit(NTREEBINS, idx)), marks) && leftbits != Zero(NTREEBINS)
    requires forall z <- Sizes(bins[idx]) :: z < nb
    ensures j == Ctz(LeastBit(leftbits)) && idx < j < NTREEBINS && marks[j] && FirstFit(bins, nb, j)
    ensures forall z <- Sizes(bins[j]) :: nb <= z
  {
    LeftMarks(marks, idx, leftbits);
    LeastBitIsolates(leftbits);
    CtzZero(leftbits);
    j := Ctz(leftbits);
    OwnBinFirst(m, roots, marks, bins, nb);
    EmptyBins(m, roots, marks, bins);
    assert forall k: nat | idx < k < j :: !leftbits[k] && !marks[k];
    forall z | z in Sizes(bins[j])
      ensures nb <= z
    {
      SizesInBin(m, roots, marks, bins, j, z);
      BinOrder(nb, z);
    }
  }

  lemma NoneMarked(m: Heap, roots: seq<int>, marks: Word, bins: seq<Trie>, nb: nat, idx: nat, leftbits: Word, rsize: nat)
    requires Consistent(m, roots, marks, bins) && 256 <= nb < SIZE_LIMIT && idx == TreeIndex(nb) < NTREEBINS
    requires leftbits == And(LeftBits(Bit(NTREEBINS, idx)), marks) && leftbits == Zero(NTREEBINS)
    requires forall z <- Sizes(bins[idx]) :: z < nb
    ensures BestOf(bins, nb, 0, rsize)
  {
    LeftMarks(marks, idx, leftbits);
    OwnBinFirst(m, roots, marks, bins, nb);
    EmptyBins(m, roots, marks, bins);
    assert forall k: nat | idx < k < NTREEBINS :: !leftbits[k] && !marks[k];
  }

  lemma FirstMarked(m: Heap, roots: seq<int>, marks: Word, bins: seq<Trie>, nb: nat) returns (j: nat)
    requires Consistent(m, roots, marks, bins) && nb <= 256 && marks != Zero(NTREEBINS)
    ensures j == Ctz(LeastBit(marks)) && j < NTREEBINS && marks[j] && FirstFit(bins, nb, j)
    ensures forall z <- Sizes(bins[j]) :: nb <= z
  {
    LeastBitIsolates(marks);
    CtzZero(marks);
    j := Ctz(marks);
    EmptyBins(m, roots, marks, bins);
    assert BinOk(m, roots[j], marks[j], bins[j], j);
  }

  /** When the own bin of nb has nothing left to search and nothing found, nothing in it fits. */
  lemma OwnBinSearched(t0: Trie, nb: nat, i: nat, v: int, rsize: nat, t: int, c: Ctx, u: Trie, q: nat, h: nat)
    requires SearchDone(t0, nb, i, v, rsize, t, c, u, q, h) && nb < SIZE_LIMIT && (forall z <- Sizes(t0) :: z < SIZE_LIMIT)
    ensures t == 0 && v == 0 ==> forall z <- Sizes(t0) :: z < nb
    ensures t != 0 || v != 0 ==> LeastFit(t0, nb) < INFINITY
  {
    LeastFitSpec(t0, nb);
    MemberSizes(t0);
    if u.Node? {
      PlugMembers(c, u);
      LeastFitSpec(u, nb);
      assert u.size in Sizes(u);
    }
  }

  /** One round of the last loop. */
  lemma LeftmostMoved(m: Heap, t0: Trie, nb: nat, i: nat, best: nat, d: Ctx, w: Trie, k: nat, g: nat, p: int, v: int, rsize: nat)
    returns (b: nat)
    requires Linked(m, t0, SlotAddr(i), i) && Rings(t0) && Found(t0, nb, v, rsize) && Leftmost(best, nb, w, rsize)
    requires w.Node? && p == Ptr(w) && Sub(t0, i, d, w, k, g)
    ensures p in m && b < 2 && nb <= INFINITY
    ensures var trem, next := Remainder(m[p].size, nb), if m[p].child0 != 0 then m[p].child0 else m[p].child1;
            var v', rsize' := if trem < rsize then p else v, if trem < rsize then trem else rsize;
            && Found(t0, nb, v', rsize') && Leftmost(best, nb, Child(w, b), rsize')
            && next == Ptr(Child(w, b)) && (next == 0 <==> Child(w, b).Nil?)
            && (Child(w, b).Node? ==> g > 0 && Sub(t0, i, ChildCtx(d, w, b), Child(w, b), 2 * k + b, g - 1))
  {
    hide Linked, Rings, Leftmost, Members, Sizes, LeastFit;
    b := if w.left.Node? then 0 else 1;
    NodeView(m, t0, i, d, w);
    LeftmostStep(best, nb, w, k, g, rsize);
    if Child(w, b).Node? { SubChild(t0, i, d, w, k, g, b); }
  }

  lemma SmallestBegin(m: Heap, root: int, mark: bool, t: Trie, nb: nat, i: nat) returns (c: Ctx, u: Trie, b: nat)
    requires BinOk(m, root, mark, t, i) && mark && nb <= 256 && i < NTREEBINS && forall z <- Sizes(t) :: nb <= z
    ensures u == t && u.Node? && b < 2 && root in m && root != 0 && Height(i) > 0
    ensures var rsize, next := Remainder(m[root].size, nb), if m[root].child0 != 0 then m[root].child0 else m[root].child1;
            && Found(t, nb, root, rsize) && Leftmost(LeastFit(t, nb), nb, Child(u, b), rsize)
            && next == Ptr(Child(u, b)) && (next == 0 <==> Child(u, b).Nil?)
            && (Child(u, b).Node? ==> Sub(t, i, ChildCtx(c, u, b), Child(u, b), 2 * Key(i) + b, Height(i) - 1))
    ensures LeastFit(t, nb) < INFINITY
  {
    hide Linked, Rings, Leftmost, Members, LeastFit, BinOk;
    c, u := Top(SlotAddr(i)), t;
    WholeBin(m, root, mark, t, nb, i);
    b := if u.left.Node? then 0 else 1;
    BinSizes(m, root, mark, t, i);
    NodeView(m, t, i, c, u);
    LeftmostStep(LeastFit(t, nb), nb, u, Key(i), Height(i), INFINITY - nb);
    SubChild(t, i, c, u, Key(i), Height(i), b);
  }

  // ----- requests larger than any chunk -----

  /** From 2^40 bytes on the search may start in a wrong bin, but every remainder wraps around to more
      than the one it starts with, so nothing is chosen. */
  ghost predicate Huge(nb: nat) { SIZE_LIMIT <= nb < INFINITY }

  /** t is the node u of bin i, or null. */
  ghost predicate Stands(t0: Trie, i: nat, c: Ctx, u: Trie, t: int) {
    t == Ptr(u) && (t == 0 <==> u.Nil?) && (u.Node? ==> Plug(c, u) == t0 && Slot(c) == SlotAddr(i))
  }

  ghost predicate HugeState(m: Heap, t0: Trie, nb: nat, i: nat, st: Search, t: int, rst: int, v: int, rsize: nat, bits: Word) {
    && Linked(m, t0, SlotAddr(i), i) && Rings(t0) && (forall z <- Sizes(t0) :: z < SIZE_LIMIT) && Huge(nb)
    && st.u.Node? && Stands(t0, i, st.c, st.u, t) && Stands(t0, i, st.d, st.r, rst)
    && v == 0 && rsize == INFINITY - nb && |bits| == 64
  }

  ghost function HugeNext(st: Search, b: nat): Search
    requires st.u.Node? && b < 2
  {
    var kept := st.u.right.Node? && b == 0;
    Search(ChildCtx(st.c, st.u, b), Child(st.u, b), 0, if kept then ChildCtx(st.c, st.u, 1) else st.d,
           if kept then st.u.right else st.r, 0, 0)
  }

  lemma HugeBegin(m: Heap, root: int, mark: bool, t0: Trie, nb: nat, i: nat) returns (c: Ctx, st: Search)
    requires BinOk(m, root, mark, t0, i) && i < NTREEBINS && Huge(nb)
    ensures Stands(t0, i, c, t0, root)
    ensures root != 0 ==> HugeState(m, t0, nb, i, st, root, 0, 0, INFINITY - nb, Shl(FromNat(nb, 64), LeftShift(i))) && st.u == t0
  {
    BinSizes(m, root, mark, t0, i);
    LeftShiftHeight(i);
    c := Top(SlotAddr(i));
    st := Search(c, t0, 0, c, Nil, 0, 0);
  }

  lemma HugeMoved(m: Heap, t0: Trie, nb: nat, i: nat, st: Search, t: int, rst: int, v: int, rsize: nat, bits: Word)
    requires HugeState(m, t0, nb, i, st, t, rst, v, rsize, bits)
    ensures t in m && rsize <= Remainder(m[t].size, nb) && rsize > 0
    ensures var rt, next, st' := m[t].child1, if bits[63] then m[t].child1 else m[t].child0, HugeNext(st, if bits[63] then 1 else 0);
            var rst' := if rt != 0 && rt != next then rt else rst;
            if next == 0 then Stands(t0, i, st'.d, st'.r, rst') && st'.u.Nil?
            else HugeState(m, t0, nb, i, st', next, rst', v, rsize, Double(bits))
  {
    hide Linked, Rings, Sizes;
    NodeView(m, t0, i, st.c, st.u);
    MoveView(m, t0, i, st.c, st.u, if bits[63] then 1 else 0);
  }

  lemma HugeDown(m: Heap, t0: Trie, nb: nat, i: nat, d: Ctx, w: Trie, p: int) returns (b: nat)
    requires Linked(m, t0, SlotAddr(i), i) && Rings(t0) && (forall z <- Sizes(t0) :: z < SIZE_LIMIT) && Huge(nb)
    requires w.Node? && Stands(t0, i, d, w, p)
    ensures p in m && b < 2 && INFINITY - nb <= Remainder(m[p].size, nb)
    ensures Stands(t0, i, ChildCtx(d, w, b), Child(w, b), if m[p].child0 != 0 then m[p].child0 else m[p].child1)
  {
    hide Linked, Rings, Sizes;
    b := if w.left.Node? then 0 else 1;
    NodeView(m, t0, i, d, w);
  }

  /** The state of the first loop. */
  ghost predicate Looking(m: Heap, t0: Trie, nb: nat, i: nat, st: Search, t: int, rst: int, v: int, rsize: nat, bits: Word) {
    if Huge(nb) then HugeState(m, t0, nb, i, st, t, rst, v, rsize, bits) else SearchState(m, t0, nb, i, st, t, rst, v, rsize, bits)
  }

  /** The state of the last loop, at node u of bin i. */
  ghost predicate Descending(t0: Trie, nb: nat, i: nat, best: nat, c: Ctx, u: Trie, q: nat, h: nat, t: int, v: int, rsize: nat) {
    if Huge(nb) then v == 0 && rsize == INFINITY - nb && Stands(t0, i, c, u, t)
    else && Found(t0, nb, v, rsize) && Leftmost(best, nb, u, rsize)
         && t == Ptr(u) && (t == 0 <==> u.Nil?) && (u.Node? ==> Sub(t0, i, c, u, q, h))
  }

  lemma StandsAt(t0: Trie, nb: nat, i: nat, best: nat, c: Ctx, u: Trie, q: nat, h: nat, t: int, v: int, rsize: nat)
    requires Descending(t0, nb, i, best, c, u, q, h, t, v, rsize)
    ensures t == Ptr(u) && (t == 0 <==> u.Nil?)
  {
  }

  lemma HugeMarked(m: Heap, roots: seq<int>, marks: Word, bins: seq<Trie>, idx: nat, leftbits: Word) returns (j: nat)
    requires Consistent(m, roots, marks, bins) && idx < NTREEBINS
    requires leftbits == And(LeftBits(Bit(NTREEBINS, idx)), marks) && leftbits != Zero(NTREEBINS)
    ensures j == Ctz(LeastBit(leftbits)) && j < NTREEBINS
  {
    LeastBitIsolates(leftbits);
    CtzZero(leftbits);
    j := Ctz(leftbits);
  }

  lemma HugeNone(m: Heap, roots: seq<int>, marks: Word, bins: seq<Trie>, nb: nat, rsize: nat)
    requires Consistent(m, roots, marks, bins) && Huge(nb)
    ensures BestOf(bins, nb, 0, rsize)
    ensures forall i: nat, z | i < NTREEBINS && z in Sizes(bins[i]) :: z < SIZE_LIMIT
  {
    forall i: nat, z | i < NTREEBINS && z in Sizes(bins[i])
      ensures z < SIZE_LIMIT
    {
      SizesInBin(m, roots, marks, bins, i, z);
    }
  }

  lemma RingCells(m: Heap, c: Ctx, u: Trie, i: nat, p: nat)
    requires At(m, c, u, i) && u.Node? && p < |u.ring| && |u.ring| > 1
    ensures Fd(u.ring, p) in m && Bk(u.ring, p) in m && Fd(u.ring, p) in Addrs(u) && Bk(u.ring, p) in Addrs(u)
  {
    UnlinkedCells(m, u.size, u.ring, Ptr(u.left), Ptr(u.right), CtxPtr(c), i, p);
    assert Fd(u.ring, p) in RingAddrs(u.ring) && Bk(u.ring, p) in RingAddrs(u.ring);
  }

  class TreeBins {
    var mem: Heap          // link fields and sizes of chunk records
    var roots: seq<int>    // treebins[]
    var treemap: Word
    ghost var bins: seq<Trie>

    /** Every bin is a trie of its sizes laid out in the records, its map bit says whether it has a
        chunk, and no chunk is in two bins. */
    ghost predicate Inv()
      reads this
    {
      Consistent(mem, roots, treemap, bins)
    }

    constructor ()
      ensures Inv() && bins == seq(NTREEBINS, _ => Nil)
    {
      mem := map[];
      roots := seq(NTREEBINS, _ => 0);
      treemap := Zero(NTREEBINS);
      bins := seq(NTREEBINS, _ => Nil);
    }

    /** Follows the bits of s from the root of bin i to the node of its size or to an empty place. */
    method Descend(s: nat, i: nat) returns (t: int, b: nat, exact: bool, ghost c: Ctx, ghost u: Trie, ghost h: nat)
      requires Inv() && i < NTREEBINS && bins[i].Node? && 256 <= s < SIZE_LIMIT && TreeIndex(s) == i
      ensures Walk(bins[i], i, s, c, u, h)
      ensures exact ==> u.Node? && u.size == s && t == Ptr(u)
      ensures !exact ==> u.Nil? && c.Below? && t == CtxPtr(c) && b == c.b
    {
      hide Linked, Rings;
      ghost var t0 := bins[i];
      assert BinOk(mem, roots[i], treemap[i], t0, i);
      TreeIndexSpec(s);
      LeftShiftHeight(i);
      t := roots[i];
      var k := Shl(FromNat(s, 64), LeftShift(i));
      exact, b := true, 0;
      c, u, h := Top(SlotAddr(i)), t0, Height(i);
      NodeFields(mem, t0, i, c, u);
      while mem[t].size != s
        invariant Walk(t0, i, s, c, u, h)
        invariant u.Node? && t == Ptr(u) && t in mem && mem[t].size == u.size
        invariant h <= 64 && k == Shl(FromNat(s, 64), 64 - h)
        decreases u
      {
        DescendStep(mem, t0, i, s, c, u, h);
        b := if k[63] then 1 else 0;
        k := Double(k);
        var next := if b == 0 then mem[t].child0 else mem[t].child1;
        c, u, h := ChildCtx(c, u, b), Child(u, b), h - 1;
        if next == 0 { exact := false; return; }
        t := next;
      }
    }

    /** insert_large_chunk: links chunk x of size s into the bin of its size. */
    method InsertLarge(x: int, s: nat)
      requires Inv() && Unbinned(bins, x) && x > 0 && 256 <= s < SIZE_LIMIT
      modifies this
      ensures Inv()
      ensures TreeIndex(s) < NTREEBINS
      ensures bins == old(bins)[TreeIndex(s) := Insert(old(bins)[TreeIndex(s)], Height(TreeIndex(s)), s, x)]
    {
      hide Linked, Keyed, Insert, Members, Sizes, Rings, Plug, Prefix, TreeIndex, Height, Key, BinOk, Consistent;
      TreeIndexSpec(s);
      BinsOk(mem, roots, treemap, bins);
      var i := TreeIndex(s);
      ghost var t0 := bins[i];
      OutsideStore(mem, roots, treemap, bins, x, TChunk(s, 0, 0, 0, 0, 0, i));
      mem := mem[x := TChunk(s, 0, 0, 0, 0, 0, i)];
      ghost var m := mem;
      BinsOk(m, roots, treemap, bins);
      BinHead(m, roots[i], treemap[i], t0, i);
      if !treemap[i] {
        MapBit(treemap, i);
        treemap := Or(treemap, Bit(NTREEBINS, i));
        roots := roots[i := x];
        mem := mem[x := mem[x].(parent := SlotAddr(i), fd := x, bk := x)];
        FirstInserted(m, i, s, x);
      } else {
        var t, b, exact;
        ghost var c, u, h;
        t, b, exact, c, u, h := Descend(s, i);
        if !exact {
          ghost var m' := LeafInserted(m, t0, i, s, c, h, x);
          if b == 0 { mem := mem[t := mem[t].(child0 := x)]; } else { mem := mem[t := mem[t].(child1 := x)]; }
          mem := mem[x := mem[x].(parent := t, fd := x, bk := x)];
        } else {
          ghost var m', t', f' := RingInserted(m, t0, i, s, c, u, h, x);
          var f := mem[t].fd;
          mem := mem[t := mem[t].(fd := x)];
          mem := mem[f := mem[f].(bk := x)];
          mem := mem[x := mem[x].(fd := f, bk := t, parent := 0)];
        }
      }
      ghost var t1 := Insert(t0, Height(i), s, x);
      InsertedBins(m, old(roots), old(treemap), old(bins), mem, i, roots[i], t1, x);
      assert roots == old(roots)[i := roots[i]] && treemap == old(treemap)[i := true];
      bins := bins[i := t1];
    }

    /** The search of unlink_large_chunk for the rightmost leaf below x, and its removal there. */
    method CutLeaf(x: int, ghost i: nat, ghost c: Ctx, ghost u: Trie) returns (r: int)
      requires At(mem, c, u, i) && u.Node? && u.ring == [x] && !IsLeaf(u)
      modifies this`mem
      ensures ReadyToRelink(mem, c, x, Vacate(u), i) && r == Ptr(Vacate(u))
      ensures mem.Keys == old(mem).Keys && OnlyChanges(old(mem), mem, Addrs(u))
    {
      ghost var side := LeafSide(u);
      ghost var sub := Child(u, side);
      ghost var d, v := Top(x), sub;
      SubtrieFields(mem, c, u, i);
      // RP, the place of the pointer to R, is a record and a side
      var owner, b := x, 1;
      r := mem[x].child1;
      if r == 0 { b := 0; r := mem[x].child0; }
      while mem[r].child1 != 0 || mem[r].child0 != 0
        invariant mem == old(mem) && ToLeaf(sub, x, d, v) && r == Ptr(v) && r in mem
        invariant mem[r].child0 == Ptr(v.left) && mem[r].child1 == Ptr(v.right)
        invariant (Ptr(v.left) == 0 <==> v.left.Nil?) && (Ptr(v.right) == 0 <==> v.right.Nil?)
        invariant owner == (if d.Top? then x else CtxPtr(d)) && b == (if d.Top? then side else d.b)
        decreases v
      {
        ToLeafStep(sub, x, d, v);
        d, v := ChildCtx(d, v, LeafSide(v)), Child(v, LeafSide(v));
        owner, b := r, if mem[r].child1 != 0 then 1 else 0;
        r := if b == 1 then mem[r].child1 else mem[r].child0;
        InnerFields(mem, c, u, i, d, v);
      }
      ghost var m' := LeafReplaces(mem, c, u, i, d, v);
      if b == 0 { mem := mem[owner := mem[owner].(child0 := 0)]; } else { mem := mem[owner := mem[owner].(child1 := 0)]; }
    }

    /** The relinking half of unlink_large_chunk: r takes over the parent and the children of x. */
    method Relink(x: int, xp: int, r: int, i: nat, ghost c: Ctx, ghost t: Trie)
      requires |roots| == NTREEBINS && |treemap| == NTREEBINS && i < NTREEBINS
      requires ReadyToRelink(mem, c, x, t, i) && (c.Below? ==> c.b < 2) && r == Ptr(t) && xp == CtxPtr(c)
      requires roots[i] == x <==> c.Top?
      modifies this`mem, this`roots, this`treemap
      ensures At(mem, c, t, i) && mem.Keys == old(mem).Keys && OnlyChanges(old(mem), mem, CtxAddrs(c) + Addrs(t))
      ensures roots == if c.Top? then old(roots)[i := r] else old(roots)
      ensures treemap == if c.Top? && t.Nil? then old(treemap)[i := false] else old(treemap)
    {
      RelinkDone(mem, c, x, t, i);
      if c.Below? { RelinkSide(mem, c, x, i); }
      if t.Node? { RelinkHeads(mem, c, x, t, i); }
      if x == roots[i] {
        roots := roots[i := r];
        if r == 0 {
          MapBit(treemap, i);
          treemap := And(treemap, Not(Bit(NTREEBINS, i)));
        }
      } else if mem[xp].child0 == x {
        mem := mem[xp := mem[xp].(child0 := r)];
      } else {
        mem := mem[xp := mem[xp].(child1 := r)];
      }
      if r != 0 {
        mem := mem[r := mem[r].(parent := xp)];
        var c0 := mem[x].child0;
        if c0 != 0 {
          mem := mem[r := mem[r].(child0 := c0)];
          mem := mem[c0 := mem[c0].(parent := r)];
        }
        var c1 := mem[x].child1;
        if c1 != 0 {
          mem := mem[r := mem[r].(child1 := c1)];
          mem := mem[c1 := mem[c1].(parent := r)];
        }
      }
    }

    /** x leaves a ring of several chunks; r is its bk neighbour, the new head if x was the head. */
    method LeaveRing(x: int, ghost i: nat, ghost c: Ctx, ghost u: Trie, ghost p: nat) returns (r: int)
      requires At(mem, c, u, i) && u.Node? && p < |u.ring| && u.ring[p] == x && |u.ring| > 1
      requires x in mem && mem[x] == Cell(u.size, u.ring, p, Ptr(u.left), Ptr(u.right), CtxPtr(c), i)
      modifies this`mem
      ensures var t := Node(u.size, RingWithout(u.ring, x), u.left, u.right);
              if p == 0 then ReadyToRelink(mem, c, x, t, i) && r == Ptr(t) else At(mem, c, t, i)
      ensures mem.Keys == old(mem).Keys && OnlyChanges(old(mem), mem, Addrs(u))
    {
      hide ReadyToRelink, CtxLinked, CtxRings, RingWithout;
      ghost var m := mem;
      var f := mem[x].fd;
      r := mem[x].bk;
      RingCells(m, c, u, i, p);
      mem := mem[f := mem[f].(bk := r)];
      mem := mem[r := mem[r].(fd := f)];
      if p == 0 {
        ghost var m' := HeadLeaves(m, c, u, i);
      } else {
        ChainedLeaves(m, c, u, i, p);
      }
    }

    /** The first half of unlink_large_chunk: x leaves its ring, or a leaf is cut off to replace it. */
    method Detach(x: int, ghost s: nat, ghost i: nat, ghost c: Ctx, ghost u: Trie, ghost h: nat, ghost p: nat) returns (r: int)
      requires At(mem, c, u, i) && u.Node? && u.size == s && p < |u.ring| && u.ring[p] == x
      requires x in mem && mem[x] == Cell(s, u.ring, p, Ptr(u.left), Ptr(u.right), CtxPtr(c), i) && x != 0
      requires (mem[x].bk != x <==> |u.ring| > 1)
      requires (Ptr(u.left) == 0 <==> u.left.Nil?) && (Ptr(u.right) == 0 <==> u.right.Nil?)
      modifies this`mem
      ensures var t := Remove(u, h, s, x);
              if p == 0 then ReadyToRelink(mem, c, x, t, i) && r == Ptr(t) else At(mem, c, t, i)
      ensures mem.Keys == old(mem).Keys && OnlyChanges(old(mem), mem, Addrs(u))
    {
      hide ReadyToRelink, At, Vacate, RingWithout;
      r := 0;
      if mem[x].bk != x {
        r := LeaveRing(x, i, c, u, p);
      } else if mem[x].child1 != 0 || mem[x].child0 != 0 {
        r := CutLeaf(x, i, c, u);
      } else {
        LoneLeaf(mem, c, u, i);
      }
    }

    method UnlinkAt(x: int, ghost s: nat, ghost i: nat, ghost c: Ctx, ghost u: Trie, ghost h: nat, ghost p: nat)
      requires |roots| == NTREEBINS && |treemap| == NTREEBINS && i < NTREEBINS
      requires At(mem, c, u, i) && u.Node? && u.size == s && p < |u.ring| && u.ring[p] == x
      requires x in mem && mem[x] == Cell(s, u.ring, p, Ptr(u.left), Ptr(u.right), CtxPtr(c), i) && x != 0
      requires (mem[x].bk != x <==> |u.ring| > 1)
      requires (Ptr(u.left) == 0 <==> u.left.Nil?) && (Ptr(u.right) == 0 <==> u.right.Nil?)
      requires (x == roots[i] <==> c.Top? && p == 0) && CtxPtr(c) != 0 && (c.Below? ==> c.b < 2)
      requires c.Top? ==> roots[i] == Ptr(u)
      modifies this`mem, this`roots, this`treemap
      ensures var t := Remove(u, h, s, x);
              && At(mem, c, t, i) && OnlyChanges(old(mem), mem, CtxAddrs(c) + Addrs(u))
              && roots == (if c.Top? then old(roots)[i := Ptr(t)] else old(roots))
              && treemap == (if c.Top? && t.Nil? then old(treemap)[i := false] else old(treemap))
    {
      ghost var t := Remove(u, h, s, x);
      var xp, index := mem[x].parent, mem[x].index;
      RemoveAddrs(u, h, s, x);
      var r := Detach(x, s, i, c, u, h, p);
      if xp != 0 {
        Relink(x, xp, r, index, c, t);
      } else {
        RemoveChained(u, h, s, p);
      }
    }

    /** unlink_large_chunk: takes chunk x out of the bin of its size s. */
    method UnlinkLarge(x: int, ghost s: nat)
      requires Inv() && TreeIndex(s) < NTREEBINS && (x, s) in Members(bins[TreeIndex(s)])
      modifies this
      ensures Inv()
      ensures bins == old(bins)[TreeIndex(s) := Remove(old(bins)[TreeIndex(s)], Height(TreeIndex(s)), s, x)]
    {
      ghost var i := TreeIndex(s);
      ghost var t0 := bins[i];
      ghost var c, u, h, p := LocateChunk(mem, t0, roots[i], treemap[i], i, s, x);
      LocatedFields(mem, t0, roots[i], treemap[i], i, s, x, c, u, h, p);
      UnlinkAt(x, s, i, c, u, h, p);
      bins := bins[i := Remove(t0, Height(i), s, x)];
      Removed(old(mem), old(roots), old(treemap), old(bins), mem, roots, treemap, s, c, u, h, x);
    }

    /** The first loop of tmalloc_large: down the bin of nb, until an exact fit or the end of the path.
        It hands over the best chunk so far and the deepest right subtrie passed by. */
    method SearchBin(nb: nat, idx: nat)
      returns (v: int, rsize: nat, t: int, ghost c: Ctx, ghost u: Trie, ghost q: nat, ghost h: nat)
      requires Inv() && idx < NTREEBINS && TreeIndex(nb) == idx && 256 <= nb < INFINITY && roots[idx] != 0
      ensures if Huge(nb) then v == 0 && rsize == INFINITY - nb && Stands(bins[idx], idx, c, u, t)
              else SearchDone(bins[idx], nb, idx, v, rsize, t, c, u, q, h)
    {
      ghost var t0 := bins[idx];
      v, rsize := 0, INFINITY - nb;
      t := roots[idx];
      var bits := Shl(FromNat(nb, 64), LeftShift(idx));
      var rst := 0;
      ghost var st;
      if Huge(nb) {
        HugeNone(mem, roots, treemap, bins, nb, rsize);
        c, st := HugeBegin(mem, roots[idx], treemap[idx], t0, nb, idx);
      } else {
        st := SearchBegin(mem, roots[idx], treemap[idx], t0, nb, idx);
      }
      while true
        invariant Looking(mem, t0, nb, idx, st, t, rst, v, rsize, bits)
        decreases st.u
      {
        if Huge(nb) {
          HugeMoved(mem, t0, nb, idx, st, t, rst, v, rsize, bits);
        } else {
          SearchLooked(mem, t0, nb, idx, st, t, rst, v, rsize, bits);
        }
        var trem := Remainder(mem[t].size, nb);
        if trem < rsize {
          v := t;
          rsize := trem;
          if rsize == 0 { c, u, q, h := st.c, st.u, Prefix(nb, st.h), st.h; return; }
        }
        if !Huge(nb) { SearchMoved(mem, t0, nb, idx, st, t, rst, v, rsize, bits); }
        var rt := mem[t].child1;
        t := if bits[63] then mem[t].child1 else mem[t].child0;
        if rt != 0 && rt != t { rst := rt; }
        st := if Huge(nb) then HugeNext(st, if bits[63] then 1 else 0) else NextSearch(nb, st);
        bits := Double(bits);
        if t == 0 {
          t := rst;
          c, u, q, h := st.d, st.r, st.rq, st.rh;
          return;
        }
      }
    }

    /** The last loop of tmalloc_large: down the left side of a subtrie whose sizes all fit. */
    method SearchLeftmost(nb: nat, t: int, v: int, rsize: nat, ghost i: nat, ghost c: Ctx, ghost u: Trie, ghost q: nat, ghost h: nat, ghost best: nat)
      returns (v': int, rsize': nat)
      requires Inv() && i < NTREEBINS && nb <= INFINITY && Descending(bins[i], nb, i, best, c, u, q, h, t, v, rsize)
      ensures if Huge(nb) then v' == 0 else Found(bins[i], nb, v', rsize') && nb + rsize' == best
    {
      hide Linked, Rings, Keyed, Sub, Found, Leftmost, Members, Sizes, LeastFit, Stands, Huge;
      ghost var t0 := bins[i];
      BinSizes(mem, roots[i], treemap[i], t0, i);
      v', rsize' := v, rsize;
      var p := t;
      ghost var d, w := c, u;
      ghost var k, g := q, h;
      while p != 0
        invariant Descending(t0, nb, i, best, d, w, k, g, p, v', rsize')
        decreases w
      {
        ghost var b;
        StandsAt(t0, nb, i, best, d, w, k, g, p, v', rsize');
        if Huge(nb) {
          HugeNone(mem, roots, treemap, bins, nb, rsize');
          b := HugeDown(mem, t0, nb, i, d, w, p);
        } else {
          b := LeftmostMoved(mem, t0, nb, i, best, d, w, k, g, p, v', rsize');
        }
        var trem := Remainder(mem[p].size, nb);
        if trem < rsize' {
          rsize' := trem;
          v' := p;
        }
        p := if mem[p].child0 != 0 then mem[p].child0 else mem[p].child1;
        d, w, k, g := ChildCtx(d, w, b), Child(w, b), 2 * k + b, if g > 0 then g - 1 else 0;
      }
      if !Huge(nb) {
        StandsAt(t0, nb, i, best, d, w, k, g, p, v', rsize');
        LeftmostDone(best, nb, rsize');
      }
    }

    /** The search of tmalloc_large over all tree bins. */
    method FindBestFit(nb: nat) returns (v: int, rsize: nat)
      requires Inv() && 256 <= nb < INFINITY
      ensures BestOf(bins, nb, v, rsize)
    {
      hide Linked, Rings, Keyed, Sub, Leftmost, LeastFit, FirstFit, BestOf, LeastBit, Ctz, BinOk, Consistent, Prefix, Height, Key, TreeIndex;
      BinsOk(mem, roots, treemap, bins);
      TreeIndexBound(nb);
      if Huge(nb) {
        HugeNone(mem, roots, treemap, bins, nb, INFINITY - nb);
      } else {
        OwnBinFirst(mem, roots, treemap, bins, nb);
      }
      var idx := TreeIndex(nb);
      BinSizes(mem, roots[idx], treemap[idx], bins[idx], idx);
      var t := roots[idx];
      ghost var i, best := idx, LeastFit(bins[idx], nb);
      ghost var c, u := Top(SlotAddr(idx)), bins[idx];
      ghost var q: nat, h: nat := Key(idx), Height(idx);
      v, rsize := 0, INFINITY - nb;
      if t != 0 {
        v, rsize, t, c, u, q, h := SearchBin(nb, idx);
        if !Huge(nb) { OwnBinSearched(bins[idx], nb, idx, v, rsize, t, c, u, q, h); }
      }
      if t == 0 && v == 0 { // on to the next non-empty bin
        var leftbits := And(LeftBits(Bit(NTREEBINS, idx)), treemap);
        if leftbits == Zero(NTREEBINS) {
          if !Huge(nb) { NoneMarked(mem, roots, treemap, bins, nb, idx, leftbits, rsize); }
          return;
        }
        if Huge(nb) {
          i := HugeMarked(mem, roots, treemap, bins, idx, leftbits);
          BinSizes(mem, roots[i], treemap[i], bins[i], i);
        } else {
          i := NextMarked(mem, roots, treemap, bins, nb, idx, leftbits);
          WholeBin(mem, roots[i], treemap[i], bins[i], nb, i);
        }
        t := roots[Ctz(LeastBit(leftbits))];
        best, c, u, q, h := LeastFit(bins[i], nb), Top(SlotAddr(i)), bins[i], Key(i), Height(i);
      }
      v, rsize := SearchLeftmost(nb, t, v, rsize, i, c, u, q, h, best);
      if Huge(nb) {
        HugeNone(mem, roots, treemap, bins, nb, rsize);
      } else {
        BestInBin(mem, roots, treemap, bins, nb, i, v, rsize);
      }
    }

    /** The search of tmalloc_small: the smallest chunk of the first marked bin. */
    method FindSmallest(nb: nat) returns (v: int, rsize: nat)
      requires Inv() && nb <= 256 && treemap != Zero(NTREEBINS)
      ensures BestOf(bins, nb, v, rsize) && v != 0
    {
      hide Linked, Rings, Keyed, Sub, Leftmost, LeastFit, FirstFit, BestOf, LeastBit, Ctz, Sizes, Members, Plug;
      ghost var i := FirstMarked(mem, roots, treemap, bins, nb);
      ghost var c, u, b := SmallestBegin(mem, roots[i], treemap[i], bins[i], nb, i);
      v := roots[Ctz(LeastBit(treemap))];
      rsize := Remainder(mem[v].size, nb);
      var t := if mem[v].child0 != 0 then mem[v].child0 else mem[v].child1;
      v, rsize := SearchLeftmost(nb, t, v, rsize, i, ChildCtx(c, u, b), Child(u, b), 2 * Key(i) + b, Height(i) - 1, LeastFit(u, nb));
      BestInBin(mem, roots, treemap, bins, nb, i, v, rsize);
    }
  }
}
