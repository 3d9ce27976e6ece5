/** Treaps as values: the meaning of util/tree.c's pointer structure.

    A tree is ordered by `key` and heap-ordered by `prio` (the source's `internal` field).
    Equal priorities are legal, as in the source, where they come from a random number. */
module TreapSpec {

  datatype Tree = Leaf | Node(left: Tree, key: nat, prio: nat, right: Tree)

  function Keys(t: Tree): set<nat> {
    match t
    case Leaf => {}
    case Node(l, k, _, r) => Keys(l) + {k} + Keys(r)
  }

  function Entries(t: Tree): set<(nat, nat)> {
    match t
    case Leaf => {}
    case Node(l, k, p, r) => Entries(l) + {(k, p)} + Entries(r)
  }

  ghost predicate Below(t: Tree, k: nat) { forall x <- Keys(t) :: x < k }

  ghost predicate Above(t: Tree, k: nat) { forall x <- Keys(t) :: k < x }

  /** Search order. */
  ghost predicate Ordered(t: Tree) {
    match t
    case Leaf => true
    case Node(l, k, _, r) => Ordered(l) && Ordered(r) && Below(l, k) && Above(r, k)
  }

  predicate RootAtLeast(t: Tree, p: nat) { t.Leaf? || p <= t.prio }

  /** Min-heap order on priorities. */
  predicate Heap(t: Tree) {
    match t
    case Leaf => true
    case Node(l, _, p, r) => Heap(l) && Heap(r) && RootAtLeast(l, p) && RootAtLeast(r, p)
  }

  ghost predicate Treap(t: Tree) { Ordered(t) && Heap(t) }

  /** A fresh key goes to the leaf where the search ends and is rotated up while its father's
      priority is strictly greater. */
  function InsertNew(t: Tree, k: nat, p: nat): Tree {
    match t
    case Leaf => Node(Leaf, k, p, Leaf)
    case Node(l, x, q, r) =>
      if k < x then
        var l' := InsertNew(l, k, p);
        if l'.Node? && l'.key == k && p < q then Node(l'.left, k, p, Node(l'.right, x, q, r)) else Node(l', x, q, r)
      else
        var r' := InsertNew(r, k, p);
        if r'.Node? && r'.key == k && p < q then Node(Node(l, x, q, r'.left), k, p, r'.right) else Node(l, x, q, r')
  }

  /** Insertion of any key: a present key leaves the tree alone. */
  function Insert(t: Tree, k: nat, p: nat): Tree {
    if k in Keys(t) then t else InsertNew(t, k, p)
  }

  /** The tree left behind when a node with subtrees l and r is rotated down and cut off:
      the right son rises on equal priorities. */
  function Join(l: Tree, r: Tree): Tree {
    if l.Leaf? then r
    else if r.Leaf? then l
    else if l.prio < r.prio then Node(l.left, l.key, l.prio, Join(l.right, r))
    else Node(Join(l, r.left), r.key, r.prio, r.right)
  }

  function Delete(t: Tree, k: nat): Tree {
    match t
    case Leaf => Leaf
    case Node(l, x, q, r) =>
      if k < x then Node(Delete(l, k), x, q, r)
      else if x < k then Node(l, x, q, Delete(r, k))
      else Join(l, r)
  }

  // ----- what insertion and deletion keep -----

  lemma SubKeys(t: Tree)
    requires t.Node?
    ensures forall x <- Keys(t.left) :: x in Keys(t)
    ensures forall x <- Keys(t.right) :: x in Keys(t)
    ensures t.key in Keys(t)
  {
  }

  lemma {:induction false} InsertNewKeys(t: Tree, k: nat, p: nat)
    requires k !in Keys(t)
    ensures InsertNew(t, k, p).Node?
    ensures InsertNew(t, k, p).key == k ==> InsertNew(t, k, p).prio == p
    ensures Keys(InsertNew(t, k, p)) == Keys(t) + {k}
    ensures Entries(InsertNew(t, k, p)) == Entries(t) + {(k, p)}
  {
    match t
    case Leaf =>
    case Node(l, x, q, r) =>
      if k < x {
        InsertNewKeys(l, k, p);
      } else {
        InsertNewKeys(r, k, p);
      }
  }

  lemma {:induction false} InsertNewOrdered(t: Tree, k: nat, p: nat)
    requires Ordered(t) && k !in Keys(t)
    ensures Ordered(InsertNew(t, k, p))
  {
    match t
    case Leaf =>
    case Node(l, x, q, r) =>
      var s := if k < x then l else r;
      var s' := InsertNew(s, k, p);
      InsertNewOrdered(s, k, p);
      InsertNewKeys(s, k, p);
      SubKeys(s');
  }

  /** The root of the new tree is the new node, or the old root when its priority is not greater. */
  lemma {:induction false} InsertNewHeap(t: Tree, k: nat, p: nat)
    requires Heap(t) && k !in Keys(t)
    ensures Heap(InsertNew(t, k, p)) && InsertNew(t, k, p).Node?
    ensures var n := InsertNew(t, k, p);
            if n.key == k then n.prio == p && (t.Node? ==> RootAtLeast(n.left, t.prio) && RootAtLeast(n.right, t.prio))
            else t.Node? && n.key == t.key && n.prio == t.prio <= p
  {
    match t
    case Leaf =>
    case Node(l, x, q, r) =>
      if k < x {
        InsertNewHeap(l, k, p);
      } else {
        InsertNewHeap(r, k, p);
      }
  }

  /** Insertion adds exactly one entry, and none when the key is present. */
  lemma InsertKeepsTreap(t: Tree, k: nat, p: nat)
    requires Treap(t)
    ensures Treap(Insert(t, k, p))
    ensures Keys(Insert(t, k, p)) == Keys(t) + {k}
    ensures Entries(Insert(t, k, p)) == Entries(t) + (if k in Keys(t) then {} else {(k, p)})
  {
    if k !in Keys(t) {
      InsertNewKeys(t, k, p);
      InsertNewOrdered(t, k, p);
      InsertNewHeap(t, k, p);
    }
  }

  lemma {:induction false} JoinKeys(l: Tree, r: Tree)
    ensures Entries(Join(l, r)) == Entries(l) + Entries(r)
    ensures Keys(Join(l, r)) == Keys(l) + Keys(r)
  {
    if l.Leaf? || r.Leaf? {
    } else if l.prio < r.prio {
      JoinKeys(l.right, r);
    } else {
      JoinKeys(l, r.left);
    }
  }

  lemma {:induction false} JoinKeepsTreap(l: Tree, r: Tree, k: nat)
    requires Treap(l) && Treap(r) && Below(l, k) && Above(r, k)
    ensures Treap(Join(l, r))
    ensures Join(l, r).Node? ==> (l.Node? && Join(l, r).prio == l.prio) || (r.Node? && Join(l, r).prio == r.prio)
  {
    if l.Leaf? || r.Leaf? {
    } else {
      SubKeys(l);
      SubKeys(r);
      if l.prio < r.prio {
        JoinKeepsTreap(l.right, r, k);
        JoinKeys(l.right, r);
      } else {
        JoinKeepsTreap(l, r.left, k);
        JoinKeys(l, r.left);
      }
    }
  }

  lemma {:induction false} EntriesKeys(t: Tree)
    ensures forall k, p :: (k, p) in Entries(t) ==> k in Keys(t)
    ensures forall k <- Keys(t) :: exists p :: (k, p) in Entries(t)
  {
    match t
    case Leaf =>
    case Node(l, x, q, r) =>
      EntriesKeys(l);
      EntriesKeys(r);
      forall k | k in Keys(t)
        ensures exists p :: (k, p) in Entries(t)
      {
        if k in Keys(l) {
          var p :| (k, p) in Entries(l);
          assert (k, p) in Entries(t);
        } else if k in Keys(r) {
          var p :| (k, p) in Entries(r);
          assert (k, p) in Entries(t);
        } else {
          assert (k, q) in Entries(t);
        }
      }
  }

  lemma {:induction false} DeleteKeys(t: Tree, k: nat)
    requires Ordered(t)
    ensures Keys(Delete(t, k)) == Keys(t) - {k}
    ensures Entries(Delete(t, k)) == set e | e in Entries(t) && e.0 != k
  {
    match t
    case Leaf =>
    case Node(l, x, q, r) =>
      EntriesKeys(l);
      EntriesKeys(r);
      if k < x {
        DeleteKeys(l, k);
      } else if x < k {
        DeleteKeys(r, k);
      } else {
        JoinKeys(l, r);
      }
  }

  /** Deletion keeps both orders, whatever the priorities. */
  lemma {:induction false} DeleteKeepsTreap(t: Tree, k: nat)
    requires Treap(t)
    ensures Treap(Delete(t, k))
    ensures t.Node? ==> RootAtLeast(Delete(t, k), t.prio)
  {
    match t
    case Leaf =>
    case Node(l, x, q, r) =>
      if k < x {
        DeleteKeepsTreap(l, k);
        DeleteKeys(l, k);
      } else if x < k {
        DeleteKeepsTreap(r, k);
        DeleteKeys(r, k);
      } else {
        JoinKeepsTreap(l, r, k);
      }
  }

  // ----- uniqueness of the shape -----

  /** No two entries share a priority. */
  ghost predicate DistinctPrios(s: set<(nat, nat)>) {
    forall a, b :: a in s && b in s && a.1 == b.1 ==> a == b
  }

  lemma {:induction false} RootIsLeast(t: Tree)
    requires Heap(t) && t.Node?
    ensures (t.key, t.prio) in Entries(t)
    ensures forall e <- Entries(t) :: t.prio <= e.1
  {
    if t.left.Node? {
      RootIsLeast(t.left);
    }
    if t.right.Node? {
      RootIsLeast(t.right);
    }
  }

  lemma NoEntries(t: Tree)
    ensures Entries(t) == {} <==> t.Leaf?
  {
    if t.Node? {
      assert (t.key, t.prio) in Entries(t);
    }
  }

  lemma SplitEntries(t: Tree)
    requires t.Node? && Ordered(t)
    ensures Entries(t.left) == set e | e in Entries(t) && e.0 < t.key
    ensures Entries(t.right) == set e | e in Entries(t) && t.key < e.0
  {
    EntriesKeys(t.left);
    EntriesKeys(t.right);
  }

  /** Two treaps over the same (key, priority) entries with distinct priorities are equal. */
  lemma {:induction false} ShapeIsUnique(a: Tree, b: Tree)
    requires Treap(a) && Treap(b) && Entries(a) == Entries(b) && DistinctPrios(Entries(a))
    ensures a == b
  {
    if a.Node? && b.Node? {
      RootIsLeast(a);
      RootIsLeast(b);
      SplitEntries(a);
      SplitEntries(b);
      ShapeIsUnique(a.left, b.left);
      ShapeIsUnique(a.right, b.right);
    } else {
      NoEntries(a);
      NoEntries(b);
    }
  }

  // ----- histories -----

  datatype Op = Add(key: nat, prio: nat) | Remove(key: nat)

  /** The tree after a history of operations; adding a present key changes nothing. */
  function Run(ops: seq<Op>): Tree {
    if ops == [] then Leaf
    else
      var t := Run(ops[..|ops| - 1]);
      match ops[|ops| - 1]
      case Add(k, p) => Insert(t, k, p)
      case Remove(k) => Delete(t, k)
  }

  /** What a history amounts to: the entries present at its end. */
  function RunEntries(ops: seq<Op>): set<(nat, nat)> {
    if ops == [] then {}
    else
      var s := RunEntries(ops[..|ops| - 1]);
      match ops[|ops| - 1]
      case Add(k, p) => if exists e <- s :: e.0 == k then s else s + {(k, p)}
      case Remove(k) => set e | e in s && e.0 != k
  }

  lemma {:induction false} RunIsTreap(ops: seq<Op>)
    ensures Treap(Run(ops)) && Entries(Run(ops)) == RunEntries(ops)
  {
    if ops != [] {
      var t := Run(ops[..|ops| - 1]);
      RunIsTreap(ops[..|ops| - 1]);
      EntriesKeys(t);
      match ops[|ops| - 1]
      case Add(k, p) =>
        InsertKeepsTreap(t, k, p);
      case Remove(k) =>
        DeleteKeepsTreap(t, k);
        DeleteKeys(t, k);
    }
  }

  /** The shape depends on the entries alone, not on the order of the operations that left them. */
  lemma ShapeForgetsHistory(a: seq<Op>, b: seq<Op>)
    requires RunEntries(a) == RunEntries(b) && DistinctPrios(RunEntries(a))
    ensures Run(a) == Run(b)
  {
    RunIsTreap(a);
    RunIsTreap(b);
    ShapeIsUnique(Run(a), Run(b));
  }

  // ----- deleting what was just inserted -----

  /** Priority of the first node with a key above k on the search path of k, if any. */
  function NextTurn(t: Tree, k: nat): (r: int) {
    match t
    case Leaf => -1
    case Node(l, x, q, r) => if k < x then q else NextTurn(r, k)
  }

  /** No two nodes that rotations of (k, p) would separate stand level: on the search path, a node
      passed on its right with priority above p differs from the next node passed on its left. */
  predicate NoTie(t: Tree, k: nat, p: nat) {
    match t
    case Leaf => true
    case Node(l, x, q, r) =>
      if k < x then NoTie(l, k, p) else NoTie(r, k, p) && (p < q ==> NextTurn(r, k) != q)
  }

  /** Below every node on its path, a new node ends up at the root; joining its sons rebuilds the
      old tree exactly when nothing on the path ties. */
  lemma {:induction false} JoinUndoesInsert(t: Tree, k: nat, p: nat)
    requires Treap(t) && k !in Keys(t) && (t.Node? ==> p < t.prio)
    ensures var n := InsertNew(t, k, p);
            && n.Node? && n.key == k
            && (Join(n.left, n.right) == t <==> NoTie(t, k, p))
            && (t.Node? ==> RootAtLeast(n.left, t.prio) && RootAtLeast(n.right, t.prio))
            && NextTurn(t, k) == (if n.right.Leaf? then -1 else n.right.prio)
            && (n.right.Node? ==> n.right.key in Keys(t))
    ensures NextTurn(t, k) == -1 || (t.Node? && NextTurn(t, k) >= t.prio)
  {
    match t
    case Leaf =>
    case Node(l, x, q, r) =>
      if k < x {
        JoinUndoesInsert(l, k, p);
      } else {
        JoinUndoesInsert(r, k, p);
      }
  }

  /** The nodes that a search for k passes. */
  function SearchPath(t: Tree, k: nat): seq<(nat, nat)> {
    match t
    case Leaf => []
    case Node(l, x, q, r) => if k == x then [] else [(x, q)] + SearchPath(if k < x then l else r, k)
  }

  /** The first of them, up to one of greater priority. */
  function UpTo(path: seq<(nat, nat)>, p: nat): seq<(nat, nat)> {
    if path == [] || path[0].1 > p then [] else [path[0]] + UpTo(path[1..], p)
  }

  /** A new node rises past the nodes of greater priority on its way and stays below the others, those
      of equal priority included. */
  lemma {:induction false} InsertPlace(t: Tree, k: nat, p: nat)
    requires Treap(t) && k !in Keys(t)
    ensures SearchPath(InsertNew(t, k, p), k) == UpTo(SearchPath(t, k), p)
  {
    if t.Leaf? || p < t.prio {
      JoinUndoesInsert(t, k, p);
    } else {
      InsertPlace(if k < t.key then t.left else t.right, k, p);
    }
  }

  /** Deleting a node that was just inserted restores the tree exactly when no tie is met. */
  lemma {:induction false} DeleteUndoesInsert(t: Tree, k: nat, p: nat)
    requires Treap(t) && k !in Keys(t)
    ensures Delete(Insert(t, k, p), k) == t <==> NoTie(t, k, p)
  {
    if t.Leaf? || p < t.prio {
      JoinUndoesInsert(t, k, p);
    } else {
      DeleteUndoesInsert(if k < t.key then t.left else t.right, k, p);
    }
  }

  lemma {:induction false} NextTurnIsEntry(t: Tree, k: nat)
    ensures NextTurn(t, k) == -1 || exists e <- Entries(t) :: e.1 == NextTurn(t, k)
  {
    match t
    case Leaf =>
    case Node(l, x, q, r) =>
      assert (x, q) in Entries(t);
      NextTurnIsEntry(r, k);
  }

  /** With pairwise distinct priorities there is never a tie. */
  lemma {:induction false} DistinctNoTie(t: Tree, k: nat, p: nat)
    requires Ordered(t) && DistinctPrios(Entries(t))
    ensures NoTie(t, k, p)
  {
    match t
    case Leaf =>
    case Node(l, x, q, r) =>
      assert DistinctPrios(Entries(l)) && DistinctPrios(Entries(r));
      if k < x {
        DistinctNoTie(l, k, p);
      } else {
        DistinctNoTie(r, k, p);
        NextTurnIsEntry(r, k);
        EntriesKeys(r);
        assert (x, q) in Entries(t);
      }
  }

  /** A tree on which the restoration fails: 2 inserted between the level nodes 1 and 3. */
  lemma TieIsNotRestored()
    ensures var t := Node(Leaf, 1, 5, Node(Leaf, 3, 5, Leaf));
            Treap(t) && Delete(Insert(t, 2, 0), 2) == Node(Node(Leaf, 1, 5, Leaf), 3, 5, Leaf) != t
  {
    var r := Node(Leaf, 3, 5, Leaf);
    var t := Node(Leaf, 1, 5, r);
    assert Keys(r) == {3} && Keys(t) == {1, 3};
    assert InsertNew(r, 2, 0) == Node(Leaf, 2, 0, r);
    assert InsertNew(t, 2, 0) == Node(Node(Leaf, 1, 5, Leaf), 2, 0, r);
    assert Join(Node(Leaf, 1, 5, Leaf), r) == Node(Join(Node(Leaf, 1, 5, Leaf), Leaf), 3, 5, Leaf);
  }

  // ----- order statistics used by iteration -----

  /** The least key of a tree is at the end of its left spine. */
  function Least(t: Tree): nat
    requires t.Node?
  {
    if t.left.Leaf? then t.key else Least(t.left)
  }

  function Greatest(t: Tree): nat
    requires t.Node?
  {
    if t.right.Leaf? then t.key else Greatest(t.right)
  }

  lemma {:induction false} LeastIsLeast(t: Tree)
    requires Ordered(t) && t.Node?
    ensures Least(t) in Keys(t) && forall x <- Keys(t) :: Least(t) <= x
  {
    if t.left.Node? {
      LeastIsLeast(t.left);
    }
  }

  lemma {:induction false} GreatestIsGreatest(t: Tree)
    requires Ordered(t) && t.Node?
    ensures Greatest(t) in Keys(t) && forall x <- Keys(t) :: x <= Greatest(t)
  {
    if t.right.Node? {
      GreatestIsGreatest(t.right);
    }
  }
}
