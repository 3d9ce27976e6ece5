/** The tree bins of extlib/dlmalloc/malloc.c as values.

    A tree bin is a bitwise trie keyed on chunk size. Each node stands for one size and carries the
    ring of all free chunks of that size in `fd` order, the chunk that sits in the tree first.
    Below a node at height w only the w low bits of sizes differ, and bit w - 1 selects the side. */
module Tries {

  datatype Trie = Nil | Node(size: nat, ring: seq<int>, left: Trie, right: Trie)

  function RingAddrs(ring: seq<int>): set<int> { set a | a in ring }

  function RingMembers(ring: seq<int>, z: nat): set<(int, nat)> { set a | a in ring :: (a, z) }

  function Addrs(t: Trie): set<int> {
    match t
    case Nil => {}
    case Node(_, ring, l, r) => RingAddrs(ring) + Addrs(l) + Addrs(r)
  }

  function Sizes(t: Trie): set<nat> {
    match t
    case Nil => {}
    case Node(z, _, l, r) => {z} + Sizes(l) + Sizes(r)
  }

  /** The chunks in a trie with their sizes. */
  function Members(t: Trie): set<(int, nat)> {
    match t
    case Nil => {}
    case Node(z, ring, l, r) => RingMembers(ring, z) + Members(l) + Members(r)
  }

  ghost predicate NoDup(s: seq<int>) { forall i, j :: 0 <= i < j < |s| ==> s[i] != s[j] }

  /** s >> w. */
  function Prefix(s: nat, w: nat): nat { if w == 0 then s else Prefix(s, w - 1) / 2 }

  /** The bit of a size that selects the side below a node at height w. */
  function Side(s: nat, w: nat): (b: nat)
    ensures b == 0 || b == 1
    ensures w > 0 ==> Prefix(s, w - 1) == 2 * Prefix(s, w) + b
  {
    if w == 0 then 0 else Prefix(s, w - 1) % 2
  }

  /** A bitwise trie of unique sizes whose bits from w up are q. */
  ghost predicate Keyed(t: Trie, q: nat, w: nat) {
    match t
    case Nil => true
    case Node(z, _, l, r) =>
      && Prefix(z, w) == q && z !in Sizes(l) && z !in Sizes(r)
      && if w == 0 then l.Nil? && r.Nil? else Keyed(l, 2 * q, w - 1) && Keyed(r, 2 * q + 1, w - 1)
  }

  /** No chunk stands in two places. */
  ghost predicate Rings(t: Trie) {
    match t
    case Nil => true
    case Node(_, ring, l, r) =>
      && ring != [] && NoDup(ring) && Rings(l) && Rings(r)
      && RingAddrs(ring) !! Addrs(l) && RingAddrs(ring) !! Addrs(r) && Addrs(l) !! Addrs(r)
  }

  ghost predicate Valid(t: Trie, q: nat, w: nat) { Keyed(t, q, w) && Rings(t) }

  function Down(w: nat): nat { if w == 0 then 0 else w - 1 }

  function Child(t: Trie, b: nat): Trie
    requires t.Node?
  {
    if b == 0 then t.left else t.right
  }

  function WithChild(t: Trie, b: nat, u: Trie): Trie
    requires t.Node?
  {
    if b == 0 then Node(t.size, t.ring, u, t.right) else Node(t.size, t.ring, t.left, u)
  }

  function RingWith(ring: seq<int>, x: int): seq<int> {
    if ring == [] then [x] else [ring[0], x] + ring[1..]
  }

  /** A chunk joins the ring of its size just after the tree node, or becomes a new leaf. */
  function Insert(t: Trie, w: nat, s: nat, x: int): Trie {
    match t
    case Nil => Node(s, [x], Nil, Nil)
    case Node(z, ring, l, r) =>
      if z == s then Node(z, RingWith(ring, x), l, r)
      else if Side(s, w) == 0 then Node(z, ring, Insert(l, Down(w), s, x), r)
      else Node(z, ring, l, Insert(r, Down(w), s, x))
  }

  /** The leaf reached by going right where possible and left otherwise. */
  function Rightmost(t: Trie): (leaf: Trie)
    requires t.Node?
    ensures leaf.Node?
  {
    if t.right.Node? then Rightmost(t.right) else if t.left.Node? then Rightmost(t.left) else t
  }

  function DropRightmost(t: Trie): Trie
    requires t.Node?
  {
    if t.right.Node? then WithChild(t, 1, DropRightmost(t.right))
    else if t.left.Node? then WithChild(t, 0, DropRightmost(t.left))
    else Nil
  }

  function Without(ring: seq<int>, x: int): seq<int> {
    if ring == [] then [] else if ring[0] == x then ring[1..] else [ring[0]] + Without(ring[1..], x)
  }

  /** The ring without x. When x is the tree node its `bk` neighbour, the last in `fd` order,
      takes its place. */
  function RingWithout(ring: seq<int>, x: int): seq<int> {
    if |ring| > 0 && ring[0] == x then (if |ring| == 1 then [] else [ring[|ring| - 1]] + ring[1..|ring| - 1])
    else Without(ring, x)
  }

  /** A node whose last chunk is gone is replaced by the rightmost leaf below it. */
  function Vacate(t: Trie): Trie
    requires t.Node?
  {
    if t.right.Node? then
      var leaf := Rightmost(t.right);
      Node(leaf.size, leaf.ring, t.left, DropRightmost(t.right))
    else if t.left.Node? then
      var leaf := Rightmost(t.left);
      Node(leaf.size, leaf.ring, DropRightmost(t.left), t.right)
    else Nil
  }

  function Remove(t: Trie, w: nat, s: nat, x: int): Trie {
    match t
    case Nil => Nil
    case Node(z, ring, l, r) =>
      if z == s then (if |ring| <= 1 then Vacate(t) else Node(z, RingWithout(ring, x), l, r))
      else if Side(s, w) == 0 then Node(z, ring, Remove(l, Down(w), s, x), r)
      else Node(z, ring, l, Remove(r, Down(w), s, x))
  }

  // ----- prefixes -----

  lemma {:induction false} PrefixOrder(s: nat, z: nat, w: nat)
    requires Prefix(s, w) < Prefix(z, w)
    ensures s < z
  {
    if w > 0 {
      PrefixOrder(s, z, w - 1);
    }
  }

  lemma {:induction false} Prefixes(t: Trie, q: nat, w: nat, z: nat)
    requires Keyed(t, q, w) && z in Sizes(t)
    ensures Prefix(z, w) == q
  {
    if z in Sizes(t.left) {
      Prefixes(t.left, 2 * q, w - 1, z);
    } else if z in Sizes(t.right) {
      Prefixes(t.right, 2 * q + 1, w - 1, z);
    }
  }

  lemma SidesApart(t: Trie, q: nat, w: nat)
    requires Keyed(t, q, w) && t.Node?
    ensures Sizes(t.left) !! Sizes(t.right)
  {
    forall z | z in Sizes(t.left) && z in Sizes(t.right)
      ensures false
    {
      Prefixes(t.left, 2 * q, w - 1, z);
      Prefixes(t.right, 2 * q + 1, w - 1, z);
    }
  }

  lemma {:induction false} MemberSizes(t: Trie)
    ensures forall a, z :: (a, z) in Members(t) ==> a in Addrs(t) && z in Sizes(t)
  {
    if t.Node? {
      MemberSizes(t.left);
      MemberSizes(t.right);
    }
  }

  /** A chunk not of the node's size is on the side its bit selects. */
  lemma MemberSide(t: Trie, q: nat, w: nat, s: nat, x: int)
    requires Keyed(t, q, w) && (x, s) in Members(t) && t.size != s
    ensures w > 0
    ensures (x, s) in Members(Child(t, Side(s, w)))
    ensures (x, s) !in Members(Child(t, 1 - Side(s, w))) && (x, s) !in RingMembers(t.ring, t.size)
    ensures x in Addrs(Child(t, Side(s, w)))
  {
    MemberSizes(t.left);
    MemberSizes(t.right);
    if (x, s) in Members(t.left) {
      Prefixes(t.left, 2 * q, w - 1, s);
    }
    if (x, s) in Members(t.right) {
      Prefixes(t.right, 2 * q + 1, w - 1, s);
    }
  }

  // ----- insertion -----

  lemma RingWithSpec(ring: seq<int>, x: int, z: nat)
    ensures RingAddrs(RingWith(ring, x)) == RingAddrs(ring) + {x}
    ensures RingMembers(RingWith(ring, x), z) == RingMembers(ring, z) + {(x, z)}
    ensures NoDup(ring) && x !in ring ==> NoDup(RingWith(ring, x))
  {
    var r := RingWith(ring, x);
    assert forall a :: a in r <==> a in ring || a == x;
    if NoDup(ring) && x !in ring {
      forall i, j | 0 <= i < j < |r|
        ensures r[i] != r[j]
      {
        if ring != [] && i != 1 && j != 1 {
          assert r[i] == ring[if i == 0 then 0 else i - 1] && r[j] == ring[j - 1];
        }
      }
    }
  }

  lemma {:induction false} InsertSets(t: Trie, w: nat, s: nat, x: int)
    ensures Sizes(Insert(t, w, s, x)) == Sizes(t) + {s}
    ensures Addrs(Insert(t, w, s, x)) == Addrs(t) + {x}
    ensures Members(Insert(t, w, s, x)) == Members(t) + {(x, s)}
  {
    if t.Node? && t.size != s {
      InsertSets(Child(t, Side(s, w)), Down(w), s, x);
    } else if t.Node? {
      RingWithSpec(t.ring, x, s);
    }
  }

  lemma GrowKeyed(t: Trie, q: nat, w: nat, b: nat, u: Trie, s: nat)
    requires t.Node? && Keyed(t, q, w) && w > 0 && b < 2 && Keyed(u, 2 * q + b, w - 1)
    requires Sizes(u) == Sizes(Child(t, b)) + {s} && t.size != s
    ensures Keyed(WithChild(t, b, u), q, w)
  {
  }

  lemma {:induction false} InsertKeyed(t: Trie, q: nat, w: nat, s: nat, x: int)
    requires Keyed(t, q, w) && Prefix(s, w) == q
    ensures Keyed(Insert(t, w, s, x), q, w)
  {
    if t.Node? && t.size != s && w > 0 {
      var b := Side(s, w);
      var u := Insert(Child(t, b), w - 1, s, x);
      InsertKeyed(Child(t, b), 2 * q + b, w - 1, s, x);
      InsertSets(Child(t, b), w - 1, s, x);
      assert Insert(t, w, s, x) == WithChild(t, b, u);
      GrowKeyed(t, q, w, b, u, s);
    }
  }

  lemma {:induction false} InsertRings(t: Trie, w: nat, s: nat, x: int)
    requires Rings(t) && x !in Addrs(t)
    ensures Rings(Insert(t, w, s, x))
  {
    if t.Node? && t.size != s {
      InsertRings(Child(t, Side(s, w)), Down(w), s, x);
      InsertSets(Child(t, Side(s, w)), Down(w), s, x);
    } else if t.Node? {
      RingWithSpec(t.ring, x, s);
    }
  }

  /** Insertion keeps the trie order and adds exactly one chunk. */
  lemma InsertSpec(t: Trie, q: nat, w: nat, s: nat, x: int)
    requires Valid(t, q, w) && Prefix(s, w) == q && x !in Addrs(t)
    ensures Valid(Insert(t, w, s, x), q, w)
    ensures Members(Insert(t, w, s, x)) == Members(t) + {(x, s)}
    ensures Addrs(Insert(t, w, s, x)) == Addrs(t) + {x}
    ensures Sizes(Insert(t, w, s, x)) == Sizes(t) + {s}
  {
    InsertSets(t, w, s, x);
    InsertKeyed(t, q, w, s, x);
    InsertRings(t, w, s, x);
  }

  // ----- taking out the rightmost leaf -----

  lemma {:induction false} RightmostSets(t: Trie)
    requires t.Node?
    ensures var leaf, d := Rightmost(t), DropRightmost(t);
            && Sizes(t) == Sizes(d) + {leaf.size}
            && Addrs(t) == Addrs(d) + RingAddrs(leaf.ring)
            && Members(t) == Members(d) + RingMembers(leaf.ring, leaf.size)
  {
    if t.right.Node? {
      RightmostSets(t.right);
    } else if t.left.Node? {
      RightmostSets(t.left);
    }
  }

  /** A subtree may be replaced by one with fewer sizes. */
  lemma ShrinkKeyed(t: Trie, q: nat, w: nat, b: nat, u: Trie)
    requires t.Node? && Keyed(t, q, w) && w > 0 && b < 2 && Keyed(u, 2 * q + b, w - 1) && Sizes(u) <= Sizes(Child(t, b))
    ensures Keyed(WithChild(t, b, u), q, w)
  {
  }

  lemma ShrinkRings(t: Trie, b: nat, u: Trie)
    requires t.Node? && Rings(t) && b < 2 && Rings(u) && Addrs(u) <= Addrs(Child(t, b))
    ensures Rings(WithChild(t, b, u))
  {
  }

  lemma {:induction false} RightmostKeyed(t: Trie, q: nat, w: nat)
    requires Keyed(t, q, w) && t.Node?
    ensures Keyed(DropRightmost(t), q, w) && Rightmost(t).size !in Sizes(DropRightmost(t))
  {
    if t.right.Node? || t.left.Node? {
      var b := if t.right.Node? then 1 else 0;
      var c := Child(t, b);
      SidesApart(t, q, w);
      RightmostKeyed(c, 2 * q + b, w - 1);
      RightmostSets(c);
      ShrinkKeyed(t, q, w, b, DropRightmost(c));
    }
  }

  lemma {:induction false} RightmostRings(t: Trie)
    requires Rings(t) && t.Node?
    ensures var leaf, d := Rightmost(t), DropRightmost(t);
            leaf.ring != [] && NoDup(leaf.ring) && Rings(d) && RingAddrs(leaf.ring) !! Addrs(d)
  {
    if t.right.Node? || t.left.Node? {
      var b := if t.right.Node? then 1 else 0;
      var c := Child(t, b);
      RightmostRings(c);
      RightmostSets(c);
      ShrinkRings(t, b, DropRightmost(c));
    }
  }

  lemma VacateSets(t: Trie)
    requires t.Node?
    ensures Sizes(Vacate(t)) == Sizes(t.left) + Sizes(t.right)
    ensures Addrs(Vacate(t)) == Addrs(t.left) + Addrs(t.right)
    ensures Members(Vacate(t)) == Members(t.left) + Members(t.right)
  {
    if t.right.Node? {
      RightmostSets(t.right);
    } else if t.left.Node? {
      RightmostSets(t.left);
    }
  }

  lemma VacateKeyed(t: Trie, q: nat, w: nat)
    requires Keyed(t, q, w) && t.Node?
    ensures Keyed(Vacate(t), q, w)
  {
    if t.right.Node? || t.left.Node? {
      var b := if t.right.Node? then 1 else 0;
      var c := Child(t, b);
      SidesApart(t, q, w);
      RightmostKeyed(c, 2 * q + b, w - 1);
      RightmostSets(c);
      Prefixes(c, 2 * q + b, w - 1, Rightmost(c).size);
    }
  }

  lemma VacateRings(t: Trie)
    requires Rings(t) && t.Node?
    ensures Rings(Vacate(t))
  {
    if t.right.Node? || t.left.Node? {
      var c := Child(t, if t.right.Node? then 1 else 0);
      RightmostRings(c);
      RightmostSets(c);
    }
  }

  // ----- removal -----

  lemma {:induction false} WithoutSpec(ring: seq<int>, x: int)
    requires NoDup(ring)
    ensures NoDup(Without(ring, x))
    ensures forall a :: a in Without(ring, x) <==> a in ring && a != x
    ensures |Without(ring, x)| == |ring| - (if x in ring then 1 else 0)
  {
    if ring != [] {
      var tl := ring[1..];
      assert forall i | 0 <= i < |tl| :: tl[i] == ring[i + 1];
      assert forall a :: a in ring <==> a == ring[0] || a in tl;
      WithoutSpec(tl, x);
      if ring[0] != x {
        var r := Without(tl, x);
        assert ring[0] !in r;
        assert forall i | 0 < i <= |r| :: Without(ring, x)[i] == r[i - 1];
      } else {
        assert x !in tl;
      }
    }
  }

  lemma RingWithoutSpec(ring: seq<int>, x: int)
    requires NoDup(ring) && x in ring
    ensures NoDup(RingWithout(ring, x))
    ensures |RingWithout(ring, x)| == |ring| - 1
    ensures RingAddrs(RingWithout(ring, x)) == RingAddrs(ring) - {x}
    ensures forall z :: RingMembers(RingWithout(ring, x), z) == RingMembers(ring, z) - {(x, z)}
  {
    var k := |ring| - 1;
    var r := RingWithout(ring, x);
    if ring[0] == x {
      if |ring| > 1 {
        assert forall i | 0 < i < k :: r[i] == ring[i];
        forall a | a in ring && a != x
          ensures a in r
        {
          var i :| 0 <= i <= k && ring[i] == a;
          assert i < k ==> r[i] == a;
          assert i == k ==> r[0] == a;
        }
      }
    } else {
      WithoutSpec(ring, x);
    }
    assert forall a :: a in r <==> a in ring && a != x;
  }

  /** What is left of a node when chunk x leaves it. */
  function Left(t: Trie, x: int): Trie
    requires t.Node?
  {
    if |t.ring| <= 1 then Vacate(t) else Node(t.size, RingWithout(t.ring, x), t.left, t.right)
  }

  ghost predicate Taken(t: Trie, r: Trie, q: nat, w: nat, x: int)
    requires t.Node?
  {
    && Valid(r, q, w) && Members(r) == Members(t) - {(x, t.size)} && Addrs(r) == Addrs(t) - {x} && Sizes(r) <= Sizes(t)
  }

  lemma AloneSets(t: Trie, x: int)
    requires t.Node? && Rings(t) && t.ring == [x]
    ensures Members(t) - {(x, t.size)} == Members(t.left) + Members(t.right)
    ensures Addrs(t) - {x} == Addrs(t.left) + Addrs(t.right)
    ensures Sizes(t.left) + Sizes(t.right) <= Sizes(t)
  {
    MemberSizes(t.left);
    MemberSizes(t.right);
    assert RingAddrs([x]) == {x};
    assert RingMembers([x], t.size) == {(x, t.size)};
  }

  lemma RemoveLast(t: Trie, q: nat, w: nat, x: int)
    requires Valid(t, q, w) && t.Node? && t.ring == [x]
    ensures Taken(t, Vacate(t), q, w, x)
  {
    hide Vacate, Keyed, Rings, Members, Addrs, Sizes;
    AloneSets(t, x);
    VacateSets(t);
    VacateKeyed(t, q, w);
    VacateRings(t);
  }

  lemma RemoveOne(t: Trie, q: nat, w: nat, x: int)
    requires Valid(t, q, w) && t.Node? && x in t.ring && |t.ring| > 1
    ensures Taken(t, Node(t.size, RingWithout(t.ring, x), t.left, t.right), q, w, x)
  {
    hide RingWithout;
    MemberSizes(t.left);
    MemberSizes(t.right);
    RingWithoutSpec(t.ring, x);
  }

  lemma RemoveHere(t: Trie, q: nat, w: nat, x: int)
    requires Valid(t, q, w) && t.Node? && x in t.ring
    ensures Taken(t, Left(t, x), q, w, x)
  {
    hide Taken, Valid, Vacate, RingWithout;
    if |t.ring| == 1 {
      RemoveLast(t, q, w, x);
    } else {
      RemoveOne(t, q, w, x);
    }
  }

  lemma MemberOfNode(t: Trie, q: nat, w: nat, s: nat, x: int)
    requires Keyed(t, q, w) && (x, s) in Members(t) && t.size == s
    ensures x in t.ring
  {
    MemberSizes(t.left);
    MemberSizes(t.right);
  }

  lemma RemoveBelow(t: Trie, q: nat, w: nat, s: nat, x: int, u: Trie)
    requires Valid(t, q, w) && (x, s) in Members(t) && t.size != s
    requires var c := Child(t, Side(s, w));
             && Members(u) == Members(c) - {(x, s)} && Addrs(u) == Addrs(c) - {x} && Sizes(u) <= Sizes(c)
    ensures var r := WithChild(t, Side(s, w), u);
            && Members(r) == Members(t) - {(x, s)}
            && Addrs(r) == Addrs(t) - {x}
            && Sizes(r) <= Sizes(t)
  {
    MemberSide(t, q, w, s, x);
  }

  /** Removal takes out exactly one chunk and keeps the trie order, also when an inner node is
      replaced by a leaf. */
  lemma {:induction false} RemoveSpec(t: Trie, q: nat, w: nat, s: nat, x: int)
    requires Valid(t, q, w) && (x, s) in Members(t)
    ensures Valid(Remove(t, w, s, x), q, w)
    ensures Members(Remove(t, w, s, x)) == Members(t) - {(x, s)}
    ensures Addrs(Remove(t, w, s, x)) == Addrs(t) - {x}
    ensures Sizes(Remove(t, w, s, x)) <= Sizes(t)
  {
    if t.size == s {
      MemberOfNode(t, q, w, s, x);
      RemoveHere(t, q, w, x);
    } else {
      MemberSide(t, q, w, s, x);
      var b := Side(s, w);
      var c := Child(t, b);
      var u := Remove(c, w - 1, s, x);
      RemoveSpec(c, 2 * q + b, w - 1, s, x);
      assert Remove(t, w, s, x) == WithChild(t, b, u);
      RemoveBelow(t, q, w, s, x, u);
      ShrinkKeyed(t, q, w, b, u);
      ShrinkRings(t, b, u);
    }
  }
}
