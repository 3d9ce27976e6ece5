/** Tries laid out in chunk records: what every link field of a binned chunk must hold, and how the
    stores of insert_large_chunk and unlink_large_chunk (extlib/dlmalloc/malloc.c) change it.

    Addresses are integers, 0 is the null pointer. `Ctx` is a trie with a hole, innermost node first. */
module TrieLinks {
  import opened Tries

  datatype TChunk = TChunk(size: nat, fd: int, bk: int, child0: int, child1: int, parent: int, index: nat)

  type Heap = map<int, TChunk>

  ghost function Fd(ring: seq<int>, i: nat): int
    requires i < |ring|
  {
    if i + 1 < |ring| then ring[i + 1] else ring[0]
  }

  ghost function Bk(ring: seq<int>, i: nat): int
    requires i < |ring|
  {
    if i > 0 then ring[i - 1] else ring[|ring| - 1]
  }

  /** The pointer to a subtrie: its tree node, or null. */
  ghost function Ptr(t: Trie): int { if t.Nil? || t.ring == [] then 0 else t.ring[0] }

  /** The fields of ring member i. Only the tree node has a parent and children. */
  ghost function Cell(z: nat, ring: seq<int>, i: nat, c0: int, c1: int, parent: int, idx: nat): TChunk
    requires i < |ring|
  {
    TChunk(z, Fd(ring, i), Bk(ring, i), if i == 0 then c0 else 0, if i == 0 then c1 else 0, if i == 0 then parent else 0, idx)
  }

  ghost predicate RingOk(m: Heap, z: nat, ring: seq<int>, c0: int, c1: int, parent: int, idx: nat) {
    forall i: nat | i < |ring| :: ring[i] in m && ring[i] != 0 && m[ring[i]] == Cell(z, ring, i, c0, c1, parent, idx)
  }

  ghost predicate Linked(m: Heap, t: Trie, parent: int, idx: nat) {
    match t
    case Nil => true
    case Node(z, ring, l, r) =>
      && ring != [] && RingOk(m, z, ring, Ptr(l), Ptr(r), parent, idx)
      && Linked(m, l, ring[0], idx) && Linked(m, r, ring[0], idx)
  }

  /** Node over a hole on side b, with the other subtrie. */
  datatype Ctx = Top(slot: int) | Below(up: Ctx, size: nat, ring: seq<int>, b: nat, other: Trie)

  ghost function CtxAddrs(c: Ctx): set<int> {
    match c
    case Top(_) => {}
    case Below(up, _, ring, _, o) => RingAddrs(ring) + CtxAddrs(up) + Addrs(o)
  }

  ghost function CtxPtr(c: Ctx): int {
    match c
    case Top(slot) => slot
    case Below(_, _, ring, _, _) => if ring == [] then 0 else ring[0]
  }

  ghost function Fill(c: Ctx, t: Trie): Trie
    requires c.Below?
  {
    if c.b == 0 then Node(c.size, c.ring, t, c.other) else Node(c.size, c.ring, c.other, t)
  }

  ghost function Plug(c: Ctx, t: Trie): Trie {
    if c.Top? then t else Plug(c.up, Fill(c, t))
  }

  ghost predicate CtxRings(c: Ctx) {
    match c
    case Top(_) => true
    case Below(up, _, ring, _, o) =>
      && ring != [] && NoDup(ring) && CtxRings(up) && Rings(o)
      && RingAddrs(ring) !! CtxAddrs(up) && RingAddrs(ring) !! Addrs(o) && CtxAddrs(up) !! Addrs(o)
  }

  ghost predicate CtxLinked(m: Heap, c: Ctx, hole: int, idx: nat) {
    match c
    case Top(_) => true
    case Below(up, z, ring, b, o) =>
      && ring != []
      && RingOk(m, z, ring, if b == 0 then hole else Ptr(o), if b == 0 then Ptr(o) else hole, CtxPtr(up), idx)
      && CtxLinked(m, up, ring[0], idx) && Linked(m, o, ring[0], idx)
  }

  /** The trie is c with t in its hole, and every record agrees. */
  ghost predicate At(m: Heap, c: Ctx, t: Trie, idx: nat) {
    && CtxRings(c) && Rings(t) && CtxAddrs(c) !! Addrs(t)
    && CtxLinked(m, c, Ptr(t), idx) && Linked(m, t, CtxPtr(c), idx)
  }

  lemma {:induction false} LinkedFrame(m: Heap, m': Heap, t: Trie, parent: int, idx: nat)
    requires Linked(m, t, parent, idx)
    requires forall a <- Addrs(t) :: a in m && a in m' ==> m'[a] == m[a]
    requires Addrs(t) <= m'.Keys
    ensures Linked(m', t, parent, idx)
  {
    if t.Node? {
      LinkedFrame(m, m', t.left, t.ring[0], idx);
      LinkedFrame(m, m', t.right, t.ring[0], idx);
      assert forall i: nat | i < |t.ring| :: t.ring[i] in RingAddrs(t.ring);
    }
  }

  lemma {:induction false} CtxFrame(m: Heap, m': Heap, c: Ctx, hole: int, idx: nat)
    requires CtxLinked(m, c, hole, idx)
    requires forall a <- CtxAddrs(c) :: a in m && a in m' ==> m'[a] == m[a]
    requires CtxAddrs(c) <= m'.Keys
    ensures CtxLinked(m', c, hole, idx)
  {
    if c.Below? {
      LinkedFrame(m, m', c.other, c.ring[0], idx);
      CtxFrame(m, m', c.up, c.ring[0], idx);
      assert forall i: nat | i < |c.ring| :: c.ring[i] in RingAddrs(c.ring);
    }
  }

  lemma {:induction false} LinkedKeys(m: Heap, t: Trie, parent: int, idx: nat)
    requires Linked(m, t, parent, idx)
    ensures Addrs(t) <= m.Keys && 0 !in Addrs(t)
  {
    if t.Node? {
      LinkedKeys(m, t.left, t.ring[0], idx);
      LinkedKeys(m, t.right, t.ring[0], idx);
    }
  }

  lemma {:induction false} CtxKeys(m: Heap, c: Ctx, hole: int, idx: nat)
    requires CtxLinked(m, c, hole, idx)
    ensures CtxAddrs(c) <= m.Keys && 0 !in CtxAddrs(c)
  {
    if c.Below? {
      LinkedKeys(m, c.other, c.ring[0], idx);
      CtxKeys(m, c.up, c.ring[0], idx);
    }
  }

  lemma {:induction false} PlugAt(m: Heap, c: Ctx, t: Trie, idx: nat)
    ensures At(m, c, t, idx) <==> At(m, Top(Slot(c)), Plug(c, t), idx)
  {
    if c.Below? {
      PlugAt(m, c.up, Fill(c, t), idx);
    }
  }

  ghost function Slot(c: Ctx): int { if c.Top? then c.slot else Slot(c.up) }

  lemma {:induction false} PlugAddrs(c: Ctx, t: Trie)
    ensures Addrs(Plug(c, t)) == CtxAddrs(c) + Addrs(t)
  {
    if c.Below? {
      PlugAddrs(c.up, Fill(c, t));
    }
  }

  // ----- single stores -----

  ghost function SetFd(m: Heap, a: int, v: int): Heap
    requires a in m
  {
    m[a := m[a].(fd := v)]
  }

  ghost function SetBk(m: Heap, a: int, v: int): Heap
    requires a in m
  {
    m[a := m[a].(bk := v)]
  }

  ghost function SetParent(m: Heap, a: int, v: int): Heap
    requires a in m
  {
    m[a := m[a].(parent := v)]
  }

  ghost function SetChild(m: Heap, a: int, b: nat, v: int): Heap
    requires a in m
  {
    if b == 0 then m[a := m[a].(child0 := v)] else m[a := m[a].(child1 := v)]
  }

  lemma RingSetChild(m: Heap, z: nat, ring: seq<int>, c0: int, c1: int, parent: int, idx: nat, b: nat, v: int)
    requires ring != [] && NoDup(ring) && RingOk(m, z, ring, c0, c1, parent, idx) && b < 2
    ensures RingOk(SetChild(m, ring[0], b, v), z, ring, if b == 0 then v else c0, if b == 0 then c1 else v, parent, idx)
  {
    var m' := SetChild(m, ring[0], b, v);
    forall i: nat | i < |ring|
      ensures ring[i] in m' && m'[ring[i]] == Cell(z, ring, i, if b == 0 then v else c0, if b == 0 then c1 else v, parent, idx)
    {
      assert m[ring[i]] == Cell(z, ring, i, c0, c1, parent, idx);
    }
  }

  /** Storing another child pointer into the node over a hole; nothing to store at the top. */
  ghost function SetHole(m: Heap, c: Ctx, v: int): Heap
    requires c.Below? ==> CtxPtr(c) in m
  {
    if c.Top? then m else SetChild(m, CtxPtr(c), c.b, v)
  }

  lemma SetHoleSpec(m: Heap, c: Ctx, v: int, v': int, idx: nat)
    requires CtxLinked(m, c, v, idx) && CtxRings(c) && (c.Below? ==> c.b < 2)
    ensures c.Below? ==> CtxPtr(c) in m && CtxPtr(c) in RingAddrs(c.ring)
    ensures CtxLinked(SetHole(m, c, v'), c, v', idx)
    ensures SetHole(m, c, v').Keys == m.Keys
    ensures forall a <- m.Keys :: a !in CtxAddrs(c) ==> SetHole(m, c, v')[a] == m[a]
  {
    if c.Below? {
      assert c.ring[0] in RingAddrs(c.ring);
      var m' := SetHole(m, c, v');
      CtxKeys(m, c, v, idx);
      LinkedFrame(m, m', c.other, c.ring[0], idx);
      CtxFrame(m, m', c.up, c.ring[0], idx);
      RingSetChild(m, c.size, c.ring, if c.b == 0 then v else Ptr(c.other), if c.b == 0 then Ptr(c.other) else v, CtxPtr(c.up), idx, c.b, v');
    }
  }

  lemma Refather(m: Heap, t: Trie, p: int, p': int, idx: nat)
    requires t.Node? && Linked(m, t, p, idx) && Rings(t)
    ensures t.ring[0] in m && t.ring[0] in RingAddrs(t.ring) && Linked(SetParent(m, t.ring[0], p'), t, p', idx)
  {
    var m' := SetParent(m, t.ring[0], p');
    assert t.ring[0] in RingAddrs(t.ring);
    LinkedKeys(m, t, p, idx);
    LinkedFrame(m, m', t.left, t.ring[0], idx);
    LinkedFrame(m, m', t.right, t.ring[0], idx);
  }

  // ----- what an insertion stores -----

  /** A new leaf in the hole of c. */
  lemma AddLeaf(m: Heap, c: Ctx, s: nat, x: int, idx: nat)
    requires At(m, c, Nil, idx) && x !in CtxAddrs(c) && x != 0 && (c.Below? ==> c.b < 2)
    ensures c.Below? ==> CtxPtr(c) in m && CtxPtr(c) != x
    ensures var m' := SetHole(m, c, x)[x := TChunk(s, x, x, 0, 0, CtxPtr(c), idx)];
            At(m', c, Node(s, [x], Nil, Nil), idx)
  {
    SetHoleSpec(m, c, 0, x, idx);
    var m1 := SetHole(m, c, x);
    var m' := m1[x := TChunk(s, x, x, 0, 0, CtxPtr(c), idx)];
    CtxKeys(m1, c, x, idx);
    CtxFrame(m1, m', c, x, idx);
  }

  lemma RingGrows(m: Heap, z: nat, ring: seq<int>, c0: int, c1: int, parent: int, idx: nat, x: int) returns (m': Heap)
    requires ring != [] && NoDup(ring) && RingOk(m, z, ring, c0, c1, parent, idx) && x !in ring && x != 0
    ensures Fd(ring, 0) in ring && Fd(ring, 0) in m
    ensures m' == SetBk(SetFd(m, ring[0], x), Fd(ring, 0), x)[x := TChunk(z, Fd(ring, 0), ring[0], 0, 0, 0, idx)]
    ensures RingOk(m', z, RingWith(ring, x), c0, c1, parent, idx)
  {
    var f, ring' := Fd(ring, 0), RingWith(ring, x);
    assert f == ring[if |ring| > 1 then 1 else 0];
    m' := SetBk(SetFd(m, ring[0], x), f, x)[x := TChunk(z, f, ring[0], 0, 0, 0, idx)];
    forall i: nat | i < |ring'|
      ensures ring'[i] in m' && ring'[i] != 0 && m'[ring'[i]] == Cell(z, ring', i, c0, c1, parent, idx)
    {
      if i != 1 {
        var j := if i == 0 then 0 else i - 1;
        assert ring'[i] == ring[j];
        assert m[ring[j]] == Cell(z, ring, j, c0, c1, parent, idx);
      }
    }
  }

  /** Changes in the ring of a node touch nothing else of the bin. */
  lemma AroundRing(m: Heap, m': Heap, c: Ctx, t: Trie, x: int, idx: nat)
    requires At(m, c, t, idx) && t.Node? && x !in CtxAddrs(c) && x !in Addrs(t)
    requires m.Keys <= m'.Keys && forall a <- m.Keys :: a !in RingAddrs(t.ring) && a != x ==> m'[a] == m[a]
    ensures Linked(m', t.left, t.ring[0], idx) && Linked(m', t.right, t.ring[0], idx) && CtxLinked(m', c, t.ring[0], idx)
  {
    assert t.ring[0] in RingAddrs(t.ring);
    LinkedKeys(m, t, CtxPtr(c), idx);
    CtxKeys(m, c, t.ring[0], idx);
    LinkedFrame(m, m', t.left, t.ring[0], idx);
    LinkedFrame(m, m', t.right, t.ring[0], idx);
    CtxFrame(m, m', c, t.ring[0], idx);
  }

  /** Another chunk of the size of node t, next to its tree node. */
  lemma AddToRing(m: Heap, c: Ctx, t: Trie, x: int, idx: nat)
    requires At(m, c, t, idx) && t.Node? && x !in CtxAddrs(c) && x !in Addrs(t) && x != 0
    ensures t.ring[0] in m && Fd(t.ring, 0) in m
    ensures var f := Fd(t.ring, 0);
            var m' := SetBk(SetFd(m, t.ring[0], x), f, x)[x := TChunk(t.size, f, t.ring[0], 0, 0, 0, idx)];
            At(m', c, Node(t.size, RingWith(t.ring, x), t.left, t.right), idx)
  {
    hide CtxLinked, CtxRings, CtxAddrs, NoDup, RingWith, RingOk;
    RingWithSpec(t.ring, x, t.size);
    var m' := RingGrows(m, t.size, t.ring, Ptr(t.left), Ptr(t.right), CtxPtr(c), idx, x);
    LinkedKeys(m, t, CtxPtr(c), idx);
    assert t.ring[0] in RingAddrs(t.ring) && Fd(t.ring, 0) in RingAddrs(t.ring);
    AroundRing(m, m', c, t, x, idx);
    NodeGrown(c, t, x);
  }

  lemma NodeGrown(c: Ctx, t: Trie, x: int)
    requires t.Node? && Rings(t) && CtxAddrs(c) !! Addrs(t) && x !in CtxAddrs(c) && x !in Addrs(t)
    ensures var t' := Node(t.size, RingWith(t.ring, x), t.left, t.right);
            Rings(t') && CtxAddrs(c) !! Addrs(t') && Ptr(t') == t.ring[0]
  {
    hide CtxAddrs;
    RingWithSpec(t.ring, x, t.size);
  }

  // ----- what a removal stores -----

  lemma {:induction false} WithoutAt(ring: seq<int>, p: nat)
    requires p < |ring| && NoDup(ring)
    ensures Without(ring, ring[p]) == ring[..p] + ring[p + 1..]
  {
    if p > 0 {
      assert ring[1..][p - 1] == ring[p];
      assert forall i | 0 <= i < |ring| - 1 :: ring[1..][i] == ring[i + 1];
      WithoutAt(ring[1..], p - 1);
      assert [ring[0]] + ring[1..][..p - 1] == ring[..p];
    }
  }

  /** The index after (before) i on a ring of n. */
  ghost function After(i: nat, n: nat): nat { if i + 1 < n then i + 1 else 0 }

  ghost function Before(i: nat, n: nat): nat { if i > 0 then i - 1 else if n > 0 then n - 1 else 0 }

  /** The two stores that unlink ring member p. */
  ghost function Unlinked(m: Heap, ring: seq<int>, p: nat): Heap
    requires p < |ring| && Fd(ring, p) in m && Bk(ring, p) in m
  {
    SetFd(SetBk(m, Fd(ring, p), Bk(ring, p)), Bk(ring, p), Fd(ring, p))
  }

  lemma UnlinkedCells(m: Heap, z: nat, ring: seq<int>, c0: int, c1: int, parent: int, idx: nat, p: nat)
    requires |ring| > 1 && NoDup(ring) && RingOk(m, z, ring, c0, c1, parent, idx) && p < |ring|
    ensures Fd(ring, p) == ring[After(p, |ring|)] && Bk(ring, p) == ring[Before(p, |ring|)]
    ensures Fd(ring, p) in m && Bk(ring, p) in m
    ensures forall j: nat | j < |ring| && j != p ::
              && ring[j] in m && ring[j] != 0
              && Unlinked(m, ring, p)[ring[j]] == Cell(z, ring, j, c0, c1, parent, idx).(
                   fd := if j == Before(p, |ring|) then Fd(ring, p) else Fd(ring, j),
                   bk := if j == After(p, |ring|) then Bk(ring, p) else Bk(ring, j))
  {
    forall j: nat | j < |ring| && j != p
      ensures
        && ring[j] in m && ring[j] != 0
        && Unlinked(m, ring, p)[ring[j]] == Cell(z, ring, j, c0, c1, parent, idx).(
             fd := if j == Before(p, |ring|) then Fd(ring, p) else Fd(ring, j),
             bk := if j == After(p, |ring|) then Bk(ring, p) else Bk(ring, j))
    {
      assert m[ring[j]] == Cell(z, ring, j, c0, c1, parent, idx);
    }
  }

  /** The ring left by unlinking p, index by index: position i was position j, and its neighbours
      are the old ones except across the gap. */
  lemma ShrunkRing(ring: seq<int>, p: nat, i: nat) returns (j: nat)
    requires |ring| > 1 && NoDup(ring) && p < |ring| && i < |ring| - 1
    ensures var r := RingWithout(ring, ring[p]);
            && |r| == |ring| - 1
            && j == (if p == 0 && i == 0 then |ring| - 1 else if p == 0 || i < p then i else i + 1) && j != p && j < |ring|
            && r[i] == ring[j]
            && Fd(r, i) == (if j == Before(p, |ring|) then Fd(ring, p) else Fd(ring, j))
            && Bk(r, i) == (if j == After(p, |ring|) then Bk(ring, p) else Bk(ring, j))
  {
    var n := |ring|;
    var r := RingWithout(ring, ring[p]);
    if p == 0 {
      assert r == [ring[n - 1]] + ring[1..n - 1];
      assert forall k: nat | 0 < k < n - 1 :: r[k] == ring[k];
      j := if i == 0 then n - 1 else i;
    } else {
      WithoutAt(ring, p);
      assert forall k: nat | k < n - 1 :: r[k] == ring[if k < p then k else k + 1];
      j := if i < p then i else i + 1;
    }
  }

  lemma HeadUnlinked(m: Heap, z: nat, ring: seq<int>, c0: int, c1: int, parent: int, idx: nat)
    requires |ring| > 1 && NoDup(ring) && RingOk(m, z, ring, c0, c1, parent, idx)
    ensures Fd(ring, 0) in m && Bk(ring, 0) in m
    ensures var r := RingWithout(ring, ring[0]);
            r != [] && r[0] == Bk(ring, 0) && RingOk(Unlinked(m, ring, 0), z, r, 0, 0, 0, idx)
  {
    UnlinkedCells(m, z, ring, c0, c1, parent, idx, 0);
    var r := RingWithout(ring, ring[0]);
    var k := ShrunkRing(ring, 0, 0);
    forall i: nat | i < |r|
      ensures r[i] in m && r[i] != 0 && Unlinked(m, ring, 0)[r[i]] == Cell(z, r, i, 0, 0, 0, idx)
    {
      var j := ShrunkRing(ring, 0, i);
    }
  }

  lemma ChainedUnlinked(m: Heap, z: nat, ring: seq<int>, c0: int, c1: int, parent: int, idx: nat, p: nat)
    requires |ring| > 1 && NoDup(ring) && RingOk(m, z, ring, c0, c1, parent, idx) && 0 < p < |ring|
    ensures Fd(ring, p) in m && Bk(ring, p) in m
    ensures var r := RingWithout(ring, ring[p]);
            r != [] && r[0] == ring[0] && RingOk(Unlinked(m, ring, p), z, r, c0, c1, parent, idx)
  {
    UnlinkedCells(m, z, ring, c0, c1, parent, idx, p);
    var r := RingWithout(ring, ring[p]);
    var k := ShrunkRing(ring, p, 0);
    forall i: nat | i < |r|
      ensures r[i] in m && r[i] != 0 && Unlinked(m, ring, p)[r[i]] == Cell(z, r, i, c0, c1, parent, idx)
    {
      var j := ShrunkRing(ring, p, i);
    }
  }

  /** A chunk that is not the tree node leaves its ring. */
  lemma ChainedLeaves(m: Heap, c: Ctx, t: Trie, idx: nat, p: nat)
    requires At(m, c, t, idx) && t.Node? && 0 < p < |t.ring|
    ensures Fd(t.ring, p) in m && Bk(t.ring, p) in m
    ensures At(Unlinked(m, t.ring, p), c, Node(t.size, RingWithout(t.ring, t.ring[p]), t.left, t.right), idx)
  {
    UnlinkedCells(m, t.size, t.ring, Ptr(t.left), Ptr(t.right), CtxPtr(c), idx, p);
    ChainedUnlinked(m, t.size, t.ring, Ptr(t.left), Ptr(t.right), CtxPtr(c), idx, p);
    var m' := Unlinked(m, t.ring, p);
    assert Fd(t.ring, p) in RingAddrs(t.ring) && Bk(t.ring, p) in RingAddrs(t.ring);
    LinkedKeys(m, t, CtxPtr(c), idx);
    CtxKeys(m, c, t.ring[0], idx);
    LinkedFrame(m, m', t.left, t.ring[0], idx);
    LinkedFrame(m, m', t.right, t.ring[0], idx);
    CtxFrame(m, m', c, t.ring[0], idx);
    RingWithoutSpec(t.ring, t.ring[p]);
  }

  /** Everything around a vacated tree node x: its context, its subtries, and the ring that will
      take its place, whose head has no children yet. */
  ghost predicate Vacated(m: Heap, c: Ctx, x: int, z: nat, ring: seq<int>, p: int, l: Trie, r: Trie, idx: nat) {
    && CtxRings(c) && Rings(Node(z, ring, l, r)) && CtxAddrs(c) !! Addrs(Node(z, ring, l, r))
    && x !in CtxAddrs(c) && x !in Addrs(Node(z, ring, l, r))
    && CtxLinked(m, c, x, idx) && Linked(m, l, x, idx) && Linked(m, r, x, idx)
    && RingOk(m, z, ring, 0, 0, p, idx)
  }

  /** Hooking subtrie u below node a: both directions, when there is a subtrie. */
  ghost function Hook(m: Heap, a: int, b: nat, u: Trie): Heap
    requires Ptr(u) != 0 ==> a in m && Ptr(u) in m && a != Ptr(u)
  {
    if Ptr(u) == 0 then m else SetParent(SetChild(m, a, b, Ptr(u)), Ptr(u), a)
  }

  lemma HookSpec(m: Heap, z: nat, ring: seq<int>, c0: int, c1: int, p: int, idx: nat, b: nat, x: int, u: Trie)
    requires ring != [] && NoDup(ring) && RingOk(m, z, ring, c0, c1, p, idx) && b < 2 && (if b == 0 then c0 else c1) == 0
    requires Linked(m, u, x, idx) && Rings(u) && RingAddrs(ring) !! Addrs(u)
    ensures ring[0] in m && (Ptr(u) != 0 ==> Ptr(u) in m && Ptr(u) != ring[0] && Ptr(u) in Addrs(u))
    ensures var m' := Hook(m, ring[0], b, u);
            && RingOk(m', z, ring, if b == 0 then Ptr(u) else c0, if b == 0 then c1 else Ptr(u), p, idx)
            && Linked(m', u, ring[0], idx)
            && m'.Keys == m.Keys
            && forall a <- m.Keys :: a !in RingAddrs(ring) && a !in Addrs(u) ==> m'[a] == m[a]
  {
    hide NoDup, Rings;
    var r := ring[0];
    assert r in RingAddrs(ring);
    if u.Node? {
      LinkedKeys(m, u, x, idx);
      assert u.ring[0] in RingAddrs(u.ring);
      var m1 := SetChild(m, r, b, Ptr(u));
      RingSetChild(m, z, ring, c0, c1, p, idx, b, Ptr(u));
      LinkedFrame(m, m1, u, x, idx);
      Refather(m1, u, x, r, idx);
      assert forall i: nat | i < |ring| :: ring[i] in RingAddrs(ring);
    }
  }

  /** All stores of the relinking half of unlink_large_chunk, for a replacement ring. */
  ghost function Relinked(m: Heap, c: Ctx, ring: seq<int>, l: Trie, r: Trie): Heap
    requires ring != [] && ring[0] in m && (c.Below? ==> CtxPtr(c) in m)
    requires Ptr(l) != 0 ==> Ptr(l) in m && ring[0] != Ptr(l)
    requires Ptr(r) != 0 ==> Ptr(r) in m && ring[0] != Ptr(r)
  {
    Hook(Hook(SetParent(SetHole(m, c, ring[0]), ring[0], CtxPtr(c)), ring[0], 0, l), ring[0], 1, r)
  }

  lemma {:induction false} RelinkedSpec(m: Heap, c: Ctx, x: int, z: nat, ring: seq<int>, p: int, l: Trie, r: Trie, idx: nat)
    requires Vacated(m, c, x, z, ring, p, l, r, idx) && (c.Below? ==> c.b < 2)
    ensures ring != [] && ring[0] in m && (c.Below? ==> CtxPtr(c) in m)
    ensures Ptr(l) != 0 ==> Ptr(l) in m && ring[0] != Ptr(l)
    ensures Ptr(r) != 0 ==> Ptr(r) in m && ring[0] != Ptr(r)
    ensures At(Relinked(m, c, ring, l, r), c, Node(z, ring, l, r), idx)
  {
    assert ring[0] in RingAddrs(ring);
    SetHoleSpec(m, c, x, ring[0], idx);
    LinkedKeys(m, l, x, idx);
    LinkedKeys(m, r, x, idx);
    assert forall i: nat | i < |ring| :: ring[i] in RingAddrs(ring);
    var m1 := SetHole(m, c, ring[0]);
    var m2 := SetParent(m1, ring[0], CtxPtr(c));
    RingFathered(m1, z, ring, p, CtxPtr(c), idx);
    CtxKeys(m1, c, ring[0], idx);
    CtxFrame(m1, m2, c, ring[0], idx);
    LinkedFrame(m, m2, l, x, idx);
    LinkedFrame(m, m2, r, x, idx);
    HookSpec(m2, z, ring, 0, 0, CtxPtr(c), idx, 0, x, l);
    var m3 := Hook(m2, ring[0], 0, l);
    CtxFrame(m2, m3, c, ring[0], idx);
    LinkedFrame(m2, m3, r, x, idx);
    HookSpec(m3, z, ring, Ptr(l), 0, CtxPtr(c), idx, 1, x, r);
    var m4 := Hook(m3, ring[0], 1, r);
    CtxFrame(m3, m4, c, ring[0], idx);
    LinkedFrame(m3, m4, l, ring[0], idx);
  }

  lemma RingFathered(m: Heap, z: nat, ring: seq<int>, p: int, p': int, idx: nat)
    requires ring != [] && NoDup(ring) && RingOk(m, z, ring, 0, 0, p, idx)
    ensures RingOk(SetParent(m, ring[0], p'), z, ring, 0, 0, p', idx)
  {
    var m' := SetParent(m, ring[0], p');
    forall i: nat | i < |ring|
      ensures ring[i] in m' && m'[ring[i]] == Cell(z, ring, i, 0, 0, p', idx)
    {
      assert m[ring[i]] == Cell(z, ring, i, 0, 0, p, idx);
    }
  }

  /** Cutting the leaf in the hole of d off the trie around it. */
  lemma LeafCut(m: Heap, d: Ctx, v: Trie, idx: nat)
    requires At(m, d, v, idx) && v.Node? && v.left.Nil? && v.right.Nil? && (d.Below? ==> d.b < 2)
    ensures d.Below? ==> CtxPtr(d) in m
    ensures At(SetHole(m, d, 0), d, Nil, idx)
    ensures RingOk(SetHole(m, d, 0), v.size, v.ring, 0, 0, CtxPtr(d), idx)
  {
    SetHoleSpec(m, d, Ptr(v), 0, idx);
    LinkedKeys(m, v, CtxPtr(d), idx);
    assert forall i: nat | i < |v.ring| :: v.ring[i] in RingAddrs(v.ring);
  }
}
