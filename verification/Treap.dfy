/** The treap of util/tree.c on linked nodes with father pointers.

    A ghost `Shape` records which node objects hang where; a ghost `Ctx` is the rest of the tree
    seen from a node inside it, innermost father first, so that walking up father pointers is
    recursion on the context. `Links` lists what every pointer must be, and `View` forgets the
    objects and gives the value of module TreapSpec. */
module Treap {
  import opened TreapSpec

  class TreeNode {
    const key: nat
    const internal: nat
    var left: TreeNode?
    var right: TreeNode?
    var father: TreeNode?

    constructor (key: nat, father: TreeNode?, internal: nat)
      ensures this.key == key && this.internal == internal
      ensures this.left == null && this.right == null && this.father == father
    {
      this.key := key;
      this.internal := internal;
      this.left, this.right := null, null;
      this.father := father;
    }
  }

  datatype Shape = Nil | Bin(left: Shape, node: TreeNode, right: Shape)

  ghost function Nodes(s: Shape): set<TreeNode> {
    match s
    case Nil => {}
    case Bin(l, n, r) => Nodes(l) + {n} + Nodes(r)
  }

  ghost predicate Unique(s: Shape) {
    match s
    case Nil => true
    case Bin(l, n, r) => Unique(l) && Unique(r) && n !in Nodes(l) && n !in Nodes(r) && Nodes(l) !! Nodes(r)
  }

  ghost function View(s: Shape): (t: Tree)
    ensures t.Leaf? <==> s.Nil?
  {
    match s
    case Nil => Leaf
    case Bin(l, n, r) => Node(View(l), n.key, n.internal, View(r))
  }

  ghost function Ptr(s: Shape): (p: TreeNode?)
    ensures p != null ==> p in Nodes(s)
  {
    if s.Nil? then null else s.node
  }

  /** What the three pointers of a node must be. */
  datatype Link = Link(father: TreeNode?, left: TreeNode?, right: TreeNode?)

  ghost function LinkOf(n: TreeNode): Link
    reads n
  {
    Link(n.father, n.left, n.right)
  }

  ghost function Links(s: Shape, father: TreeNode?): (m: map<TreeNode, Link>)
    ensures m.Keys == Nodes(s)
  {
    match s
    case Nil => map[]
    case Bin(l, n, r) => (Links(l, n) + Links(r, n))[n := Link(father, Ptr(l), Ptr(r))]
  }

  ghost predicate Matches(m: map<TreeNode, Link>)
    reads m.Keys
  {
    forall n <- m.Keys :: LinkOf(n) == m[n]
  }

  /** A tree with a hole: the hole is the left (right) son of `node`. */
  datatype Ctx = Top | InLeft(up: Ctx, node: TreeNode, right: Shape) | InRight(up: Ctx, left: Shape, node: TreeNode)

  ghost function CtxNodes(c: Ctx): set<TreeNode> {
    match c
    case Top => {}
    case InLeft(up, n, r) => CtxNodes(up) + {n} + Nodes(r)
    case InRight(up, l, n) => CtxNodes(up) + {n} + Nodes(l)
  }

  ghost predicate UniqueCtx(c: Ctx) {
    match c
    case Top => true
    case InLeft(up, n, r) =>
      UniqueCtx(up) && Unique(r) && n !in CtxNodes(up) && n !in Nodes(r) && CtxNodes(up) !! Nodes(r)
    case InRight(up, l, n) =>
      UniqueCtx(up) && Unique(l) && n !in CtxNodes(up) && n !in Nodes(l) && CtxNodes(up) !! Nodes(l)
  }

  ghost function CtxPtr(c: Ctx): (p: TreeNode?)
    ensures p != null ==> p in CtxNodes(c)
  {
    if c.Top? then null else c.node
  }

  ghost function CtxLinks(c: Ctx, hole: TreeNode?): (m: map<TreeNode, Link>)
    ensures m.Keys == CtxNodes(c)
  {
    match c
    case Top => map[]
    case InLeft(up, n, r) => (CtxLinks(up, n) + Links(r, n))[n := Link(CtxPtr(up), hole, Ptr(r))]
    case InRight(up, l, n) => (CtxLinks(up, n) + Links(l, n))[n := Link(CtxPtr(up), Ptr(l), hole)]
  }

  ghost function Plug(c: Ctx, s: Shape): Shape {
    match c
    case Top => s
    case InLeft(up, n, r) => Plug(up, Bin(s, n, r))
    case InRight(up, l, n) => Plug(up, Bin(l, n, s))
  }

  ghost predicate Apart(c: Ctx, s: Shape) { UniqueCtx(c) && Unique(s) && CtxNodes(c) !! Nodes(s) }

  ghost function All(c: Ctx, s: Shape): (m: map<TreeNode, Link>)
    ensures m.Keys == CtxNodes(c) + Nodes(s)
  {
    CtxLinks(c, Ptr(s)) + Links(s, CtxPtr(c))
  }

  /** The tree is c with s in its hole, and every pointer agrees. */
  ghost predicate At(c: Ctx, s: Shape)
    reads CtxNodes(c) + Nodes(s)
  {
    Apart(c, s) && Matches(All(c, s))
  }

  lemma MergeSwap<K, V>(a: map<K, V>, b: map<K, V>, d: map<K, V>, k: K, v: V)
    requires a.Keys !! d.Keys && b.Keys !! d.Keys && k !in a && k !in d && k !in b && a.Keys !! b.Keys
    ensures (a + b)[k := v] + d == a + (d + b)[k := v]
    ensures (a + b)[k := v] + d == a + (b + d)[k := v]
  {
  }

  /** A whole tree whose pointers all agree. */
  ghost predicate Whole(s: Shape)
    reads Nodes(s)
  {
    Unique(s) && Matches(Links(s, null))
  }

  /** Looking at a tree from inside or from its root is the same. */
  lemma {:induction false} PlugSame(c: Ctx, s: Shape)
    ensures Nodes(Plug(c, s)) == CtxNodes(c) + Nodes(s)
    ensures Apart(c, s) <==> Apart(Top, Plug(c, s))
    ensures Apart(c, s) ==> All(c, s) == All(Top, Plug(c, s))
  {
    match c
    case Top =>
    case InLeft(up, n, r) =>
      PlugSame(up, Bin(s, n, r));
      if Apart(c, s) {
        MergeSwap(CtxLinks(up, n), Links(r, n), Links(s, n), n, Link(CtxPtr(up), Ptr(s), Ptr(r)));
      }
    case InRight(up, l, n) =>
      PlugSame(up, Bin(l, n, s));
      if Apart(c, s) {
        MergeSwap(CtxLinks(up, n), Links(l, n), Links(s, n), n, Link(CtxPtr(up), Ptr(l), Ptr(s)));
      }
  }

  // ----- util/tree_internal.h -----

  datatype Side = Left | Right

  function Invert(side: Side): Side { if side.Left? then Right else Left }

  function Tell(son: TreeNode): Side
    reads son, son.father
  {
    if son.father == null then Left else if son.father.left == son then Left else Right
  }

  function Get(father: TreeNode, side: Side): TreeNode?
    reads father
  {
    if side.Left? then father.left else father.right
  }

  method Connect(father: TreeNode?, son: TreeNode?, side: Side)
    modifies father, son
    ensures father != null && father != son ==>
              && father.left == (if side.Left? then son else old(father.left))
              && father.right == (if side.Right? then son else old(father.right))
              && father.father == old(father.father)
    ensures son != null && father != son ==>
              son.father == father && son.left == old(son.left) && son.right == old(son.right)
  {
    if son != null { son.father := father; }
    if father != null {
      if side.Left? { father.left := son; } else { father.right := son; }
    }
  }

  ghost function SetSon(k: Link, side: Side, son: TreeNode?): Link {
    if side.Left? then k.(left := son) else k.(right := son)
  }

  method SetSonOf(node: TreeNode, side: Side, son: TreeNode?, ghost m: map<TreeNode, Link>)
    requires Matches(m) && node in m
    modifies node
    ensures Matches(m[node := SetSon(m[node], side, son)])
  {
    if side.Left? { node.left := son; } else { node.right := son; }
  }

  /** The effect of rotating the node in the hole over its father. */
  ghost function RotateUp(c: Ctx, s: Shape): Shape
    requires !c.Top? && s.Bin?
  {
    match c
    case InLeft(_, f, r) => Bin(s.left, s.node, Bin(s.right, f, r))
    case InRight(_, l, f) => Bin(Bin(l, f, s.left), s.node, s.right)
  }

  /** Which son of its father the hole is, as Tell computes it. */
  ghost function HoleSide(c: Ctx): Side { if c.InRight? then Right else Left }

  lemma {:induction false} LinksOfRoot(s: Shape, f: TreeNode?, g: TreeNode?)
    requires s.Bin? && Unique(s)
    ensures Links(s, g) == Links(s, f)[s.node := Links(s, f)[s.node].(father := g)]
  {
  }

  lemma {:induction false} CtxLinksOfHole(c: Ctx, p: TreeNode?, q: TreeNode?)
    requires !c.Top? && UniqueCtx(c)
    ensures CtxLinks(c, q) == CtxLinks(c, p)[c.node := SetSon(CtxLinks(c, p)[c.node], HoleSide(c), q)]
  {
  }

  ghost function Inner(c: Ctx, s: Shape): Shape
    requires !c.Top? && s.Bin?
  {
    if c.InLeft? then s.right else s.left
  }

  ghost function Outer(c: Ctx, s: Shape): Shape
    requires !c.Top? && s.Bin?
  {
    if c.InLeft? then s.left else s.right
  }

  ghost function Sibling(c: Ctx): Shape
    requires !c.Top?
  {
    if c.InLeft? then c.right else c.left
  }

  /** m lists the links of a node, its father, and the four parts of the tree around them. */
  ghost predicate Parts(m: map<TreeNode, Link>, c: Ctx, s: Shape, n: TreeNode, innerFather: TreeNode)
    requires !c.Top? && s.Bin?
  {
    && (forall x <- CtxNodes(c.up) :: x in m && m[x] == CtxLinks(c.up, n)[x])
    && (forall x <- Nodes(Outer(c, s)) :: x in m && m[x] == Links(Outer(c, s), s.node)[x])
    && (forall x <- Nodes(Inner(c, s)) :: x in m && m[x] == Links(Inner(c, s), innerFather)[x])
    && (forall x <- Nodes(Sibling(c)) :: x in m && m[x] == Links(Sibling(c), c.node)[x])
  }

  lemma {:induction false} PartsBefore(c: Ctx, s: Shape)
    requires !c.Top? && s.Bin? && Apart(c, s)
    ensures var m, n, f := All(c, s), s.node, c.node;
            && Parts(m, c, s, f, n)
            && m[n] == Link(f, Ptr(s.left), Ptr(s.right))
            && m[f] == (if c.InLeft? then Link(CtxPtr(c.up), n, Ptr(c.right)) else Link(CtxPtr(c.up), Ptr(c.left), n))
  {
  }

  lemma {:induction false} ApartAfter(c: Ctx, s: Shape)
    requires !c.Top? && s.Bin? && Apart(c, s)
    ensures Apart(c.up, RotateUp(c, s))
    ensures CtxNodes(c) + Nodes(s) == CtxNodes(c.up) + Nodes(RotateUp(c, s))
  {
  }

  lemma LinksOfSons(t: Shape, g: TreeNode?)
    requires t.Bin? && Unique(t)
    ensures forall x <- Nodes(t.left) :: x in Nodes(t) && Links(t, g)[x] == Links(t.left, t.node)[x]
    ensures forall x <- Nodes(t.right) :: x in Nodes(t) && Links(t, g)[x] == Links(t.right, t.node)[x]
  {
  }

  lemma {:induction false} PartsAfter(c: Ctx, s: Shape)
    requires !c.Top? && s.Bin? && Apart(c, s) && Apart(c.up, RotateUp(c, s))
    ensures var m, n, f, g := All(c.up, RotateUp(c, s)), s.node, c.node, CtxPtr(c.up);
            && Parts(m, c, s, n, f)
            && m[n] == (if c.InLeft? then Link(g, Ptr(s.left), f) else Link(g, f, Ptr(s.right)))
            && m[f] == (if c.InLeft? then Link(n, Ptr(s.right), Ptr(c.right)) else Link(n, Ptr(c.left), Ptr(s.left)))
  {
    var n, f, g := s.node, c.node, CtxPtr(c.up);
    var m, s' := All(c.up, RotateUp(c, s)), RotateUp(c, s);
    var t := if c.InLeft? then s'.right else s'.left;
    assert t.node == f && s'.node == n;
    assert forall x <- Nodes(s') :: m[x] == Links(s', g)[x];
    assert forall x <- Nodes(t) :: x in Nodes(s') && Links(s', g)[x] == Links(t, n)[x];
    assert forall x <- Nodes(Outer(c, s)) :: x in Nodes(s') && Links(s', g)[x] == Links(Outer(c, s), n)[x];
    LinksOfSons(t, n);
  }

  lemma {:induction false} PartsCompared(m: map<TreeNode, Link>, m': map<TreeNode, Link>, c: Ctx, s: Shape, x: TreeNode)
    requires !c.Top? && s.Bin? && Apart(c, s) && x in CtxNodes(c) + Nodes(s) && x != s.node && x != c.node
    requires Parts(m, c, s, c.node, s.node) && Parts(m', c, s, s.node, c.node)
    ensures x in m && x in m'
    ensures m'[x] == if x == Ptr(Inner(c, s)) then m[x].(father := c.node)
                     else if x == CtxPtr(c.up) then SetSon(m[x], HoleSide(c.up), s.node)
                     else m[x]
  {
    if x in CtxNodes(c.up) {
      CtxLinksOfHole(c.up, c.node, s.node);
    } else if x in Nodes(Inner(c, s)) {
      LinksOfRoot(Inner(c, s), s.node, c.node);
    } else if x in Nodes(Outer(c, s)) {
    } else {
      assert x in Nodes(Sibling(c));
    }
  }

  /** Rotation changes the links of the node, its father, the inner subtree and the grandfather. */
  lemma {:induction false} RotateLinks(c: Ctx, s: Shape)
    requires !c.Top? && s.Bin? && Apart(c, s)
    ensures Apart(c.up, RotateUp(c, s))
    ensures var n, f, g, inner := s.node, c.node, CtxPtr(c.up), Ptr(Inner(c, s));
            var m, m' := All(c, s), All(c.up, RotateUp(c, s));
            && m.Keys == m'.Keys
            && m'[n] == SetSon(m[n].(father := g), Invert(HoleSide(c)), f)
            && m'[f] == SetSon(m[f].(father := n), HoleSide(c), inner)
            && (inner != null ==> m'[inner] == m[inner].(father := f))
            && (g != null ==> m'[g] == SetSon(m[g], HoleSide(c.up), n))
            && forall x <- m.Keys :: x !in {n, f, inner, g} ==> m'[x] == m[x]
  {
    var n, f, g, inner := s.node, c.node, CtxPtr(c.up), Ptr(Inner(c, s));
    var m, m' := All(c, s), All(c.up, RotateUp(c, s));
    ApartAfter(c, s);
    PartsBefore(c, s);
    PartsAfter(c, s);
    if inner != null { PartsCompared(m, m', c, s, inner); }
    if g != null { PartsCompared(m, m', c, s, g); }
    forall x | x in m && x !in {n, f, inner, g}
      ensures m'[x] == m[x]
    {
      PartsCompared(m, m', c, s, x);
    }
  }

  lemma {:induction false} PlugRoot(c: Ctx, s: Shape, t: Shape)
    requires !c.Top?
    ensures Ptr(Plug(c, s)) == Ptr(Plug(c, t))
  {
    if !c.up.Top? {
      if c.InLeft? {
        PlugRoot(c.up, Bin(s, c.node, c.right), Bin(t, c.node, c.right));
      } else {
        PlugRoot(c.up, Bin(c.left, c.node, s), Bin(c.left, c.node, t));
      }
    }
  }

  lemma {:induction false} PlugAt(c: Ctx, s: Shape)
    ensures At(c, s) <==> Whole(Plug(c, s))
  {
    PlugSame(c, s);
    assert All(Top, Plug(c, s)) == Links(Plug(c, s), null);
  }

  // ----- the place of a key or a node in a tree -----

  /** The hole of c is where the search for k arrives. */
  ghost predicate Path(c: Ctx, k: nat) {
    match c
    case Top => true
    case InLeft(up, n, _) => k < n.key && Path(up, k)
    case InRight(up, _, n) => n.key < k && Path(up, k)
  }

  /** The context of node n in Plug(c, s), for a node of s. */
  ghost function Locate(c: Ctx, s: Shape, n: TreeNode): (r: (Ctx, Shape))
    requires n in Nodes(s)
    ensures r.1.Bin? && r.1.node == n && Plug(r.0, r.1) == Plug(c, s)
    decreases s
  {
    if s.node == n then (c, s)
    else if n in Nodes(s.left) then Locate(InLeft(c, s.node, s.right), s.left, n)
    else Locate(InRight(c, s.left, s.node), s.right, n)
  }

  ghost function CtxKeys(c: Ctx): set<nat> {
    match c
    case Top => {}
    case InLeft(up, n, r) => CtxKeys(up) + {n.key} + Keys(View(r))
    case InRight(up, l, n) => CtxKeys(up) + {n.key} + Keys(View(l))
  }

  ghost predicate Between(s: Shape, x: nat) { Below(View(s), x) || Above(View(s), x) }

  /** In a search tree the keys of a subtree are an interval. */
  lemma {:induction false} SubtreeIsInterval(c: Ctx, s: Shape)
    requires Ordered(View(Plug(c, s)))
    ensures Ordered(View(s))
    ensures Keys(View(Plug(c, s))) == CtxKeys(c) + Keys(View(s))
    ensures forall x <- CtxKeys(c) :: Between(s, x)
    ensures c.InLeft? ==> Below(View(s), c.node.key) && Above(View(c.right), c.node.key)
    ensures c.InRight? ==> Above(View(s), c.node.key) && Below(View(c.left), c.node.key)
  {
    if !c.Top? {
      var t := if c.InLeft? then Bin(s, c.node, c.right) else Bin(c.left, c.node, s);
      SubtreeIsInterval(c.up, t);
      SubKeys(View(t));
      forall x | x in CtxKeys(c)
        ensures Between(s, x)
      {
        if x in CtxKeys(c.up) { assert Between(t, x); }
      }
    }
  }

  lemma {:induction false} KeyIsOnPath(c: Ctx, s: Shape, k: nat)
    requires k in Keys(View(s)) && Ordered(View(Plug(c, s)))
    ensures Path(c, k)
  {
    if !c.Top? {
      var t := if c.InLeft? then Bin(s, c.node, c.right) else Bin(c.left, c.node, s);
      SubtreeIsInterval(c, s);
      KeyIsOnPath(c.up, t, k);
    }
  }

  // ----- insertion: rotating up refines the recursive insertion -----

  /** The tree after rotating the node in the hole up while its father is strictly greater. */
  ghost function Adjusted(c: Ctx, s: Shape): Shape
    requires s.Bin?
  {
    if c.Top? || c.node.internal <= s.node.internal then Plug(c, s) else Adjusted(c.up, RotateUp(c, s))
  }

  lemma {:induction false} InsertBelow(c: Ctx, s: Shape, t: Shape, k: nat, p: nat)
    requires Path(c, k) && View(t) == InsertNew(View(s), k, p) && t.Bin? && t.node.key != k
    ensures View(Plug(c, t)) == InsertNew(View(Plug(c, s)), k, p)
  {
    match c
    case Top =>
    case InLeft(up, n, r) => InsertBelow(up, Bin(s, n, r), Bin(t, n, r), k, p);
    case InRight(up, l, n) => InsertBelow(up, Bin(l, n, s), Bin(l, n, t), k, p);
  }

  lemma {:induction false} AdjustedIsInsert(c: Ctx, s: Shape, t: Shape)
    requires t.Bin? && Path(c, t.node.key) && View(t) == InsertNew(View(s), t.node.key, t.node.internal)
    ensures View(Adjusted(c, t)) == InsertNew(View(Plug(c, s)), t.node.key, t.node.internal)
  {
    var k, p := t.node.key, t.node.internal;
    if !c.Top? {
      var s' := if c.InLeft? then Bin(s, c.node, c.right) else Bin(c.left, c.node, s);
      var t' := if c.InLeft? then Bin(t, c.node, c.right) else Bin(c.left, c.node, t);
      if c.node.internal <= p {
        assert View(t') == InsertNew(View(s'), k, p);
        InsertBelow(c.up, s', t', k, p);
      } else {
        assert View(RotateUp(c, t)) == InsertNew(View(s'), k, p);
        AdjustedIsInsert(c.up, s', RotateUp(c, t));
      }
    }
  }

  // ----- deletion: rotating down refines Join -----

  ghost function Joined(l: Shape, r: Shape): Shape {
    if l.Nil? then r
    else if r.Nil? then l
    else if l.node.internal < r.node.internal then Bin(l.left, l.node, Joined(l.right, r))
    else Bin(Joined(l, r.left), r.node, r.right)
  }

  lemma {:induction false} JoinedIsJoin(l: Shape, r: Shape)
    ensures View(Joined(l, r)) == Join(View(l), View(r))
    ensures Nodes(Joined(l, r)) == Nodes(l) + Nodes(r)
  {
    if l.Nil? || r.Nil? {
    } else if l.node.internal < r.node.internal {
      JoinedIsJoin(l.right, r);
    } else {
      JoinedIsJoin(l, r.left);
    }
  }

  lemma {:induction false} DeleteBelow(c: Ctx, s: Shape, t: Shape, k: nat)
    requires Path(c, k) && View(t) == Delete(View(s), k)
    ensures View(Plug(c, t)) == Delete(View(Plug(c, s)), k)
  {
    match c
    case Top =>
    case InLeft(up, n, r) => DeleteBelow(up, Bin(s, n, r), Bin(t, n, r), k);
    case InRight(up, l, n) => DeleteBelow(up, Bin(l, n, s), Bin(l, n, t), k);
  }

  /** What the pointers around the hole say before a rotation. */
  lemma RotateSides(c: Ctx, s: Shape)
    requires !c.Top? && s.Bin? && At(c, s)
    ensures s.node.father == c.node && c.node.father == CtxPtr(c.up)
    ensures Tell(s.node) == HoleSide(c) && Tell(c.node) == HoleSide(c.up)
    ensures Get(s.node, Invert(Tell(s.node))) == Ptr(Inner(c, s))
    ensures {s.node, c.node} !! CtxNodes(c.up) && s.node != c.node
    ensures Inner(c, s).Bin? ==> Inner(c, s).node != s.node && Inner(c, s).node != c.node && Inner(c, s).node !in CtxNodes(c.up)
    ensures Inner(c, s).Bin? ==> Inner(c, s).node in Nodes(s)
    ensures All(c, s).Keys == CtxNodes(c) + Nodes(s)
  {
    PartsBefore(c, s);
    var m := All(c, s);
    if !c.up.Top? {
      var g := c.up.node;
      assert m[g] == CtxLinks(c.up, c.node)[g];
    }
  }

  lemma RotatedAt(c: Ctx, s: Shape)
    requires !c.Top? && s.Bin? && Apart(c, s)
    requires var n, f, g, b, m := s.node, c.node, CtxPtr(c.up), Ptr(Inner(c, s)), All(c, s);
             && LinkOf(n) == SetSon(m[n].(father := g), Invert(HoleSide(c)), f)
             && LinkOf(f) == SetSon(m[f].(father := n), HoleSide(c), b)
             && (b != null ==> LinkOf(b) == m[b].(father := f))
             && (g != null ==> LinkOf(g) == SetSon(m[g], HoleSide(c.up), n))
             && forall x <- m.Keys :: x != n && x != f && x != b && x != g ==> LinkOf(x) == m[x]
    ensures At(c.up, RotateUp(c, s))
  {
    RotateLinks(c, s);
  }

  lemma RotateRoot(c: Ctx, s: Shape)
    requires !c.Top? && s.Bin?
    ensures Ptr(Plug(c.up, RotateUp(c, s))) == if c.up.Top? then s.node else Ptr(Plug(c, s))
  {
    if !c.up.Top? {
      PlugRoot(c.up, if c.InLeft? then Bin(s, c.node, c.right) else Bin(c.left, c.node, s), RotateUp(c, s));
    }
  }

  /** The pointers of the node in the hole. */
  lemma HoleLinks(c: Ctx, s: Shape)
    requires At(c, s) && s.Bin?
    ensures LinkOf(s.node) == Link(CtxPtr(c), Ptr(s.left), Ptr(s.right))
    ensures !c.Top? ==> Tell(s.node) == HoleSide(c)
    ensures !c.Top? ==> c.node.father == CtxPtr(c.up)
  {
    assert All(c, s)[s.node] == LinkOf(s.node);
    if !c.Top? {
      assert All(c, s)[c.node] == LinkOf(c.node);
    }
  }

  lemma StepDown(c: Ctx, s: Shape, c': Ctx, u: Shape)
    requires s.Bin? && ((c' == InLeft(c, s.node, s.right) && u == s.left) || (c' == InRight(c, s.left, s.node) && u == s.right))
    ensures Plug(c', u) == Plug(c, s)
    ensures At(c, s) <==> At(c', u)
    ensures CtxNodes(c) + Nodes(s) == CtxNodes(c') + Nodes(u)
  {
    PlugAt(c, s);
    PlugAt(c', u);
    PlugSame(c, s);
    PlugSame(c', u);
  }

  lemma LeafApart(c: Ctx, n: TreeNode)
    requires Apart(c, Nil) && n !in CtxNodes(c)
    ensures Apart(c, Bin(Nil, n, Nil)) && Nodes(Bin(Nil, n, Nil)) == {n} && Links(Nil, CtxPtr(c)) == map[]
    ensures Links(Bin(Nil, n, Nil), CtxPtr(c)) == map[n := Link(CtxPtr(c), null, null)]
  {
    hide CtxLinks, CtxNodes, UniqueCtx;
  }

  lemma LeafHung(c: Ctx, n: TreeNode)
    requires !c.Top? && Apart(c, Nil) && n !in CtxNodes(c)
    ensures Apart(c, Bin(Nil, n, Nil))
    ensures All(c, Bin(Nil, n, Nil)) ==
            All(c, Nil)[n := Link(c.node, null, null)][c.node := SetSon(All(c, Nil)[c.node], HoleSide(c), n)]
  {
    hide CtxLinks, CtxNodes, Links, Nodes, Unique, UniqueCtx;
    LeafApart(c, n);
    CtxLinksOfHole(c, null, n);
  }

  /** The links that hold when a recursive insertion returns, before its caller stores the son. */
  ghost function Stored(c: Ctx, u: Shape, d: Ctx, n: TreeNode, added: bool): map<TreeNode, Link> {
    if !added then All(c, u)
    else if u.Nil? then All(c, u)[n := Link(CtxPtr(c), null, null)]
    else All(d, Bin(Nil, n, Nil))
  }

  lemma StoringAgain(m: map<TreeNode, Link>, n: TreeNode, side: Side)
    requires n in m && m[n] == LinkOf(n)
    ensures m == m[n := SetSon(m[n], side, Get(n, side))]
  {
  }

  /** Storing the son completes the links, or stores what is there already. */
  lemma StoredLinks(c: Ctx, u: Shape, d: Ctx, n: TreeNode, added: bool) returns (m: map<TreeNode, Link>, m': map<TreeNode, Link>)
    requires !c.Top? && Apart(c, u) && Get(c.node, HoleSide(c)) == Ptr(u)
    requires !added || u.Nil? ==> At(c, u)
    requires added && u.Nil? ==> d == c && LinkOf(n) == Link(c.node, null, null) && n !in CtxNodes(c)
    requires added && u.Bin? ==> At(d, Bin(Nil, n, Nil)) && Plug(d, Nil) == Plug(c, u)
    ensures m == Stored(c, u, d, n, added) && Matches(m) && c.node in m
    ensures m' == m[c.node := SetSon(m[c.node], HoleSide(c), if added && u.Nil? then n else Ptr(u))]
    ensures if added then m' == All(d, Bin(Nil, n, Nil)) && Apart(d, Bin(Nil, n, Nil)) else m' == All(c, u)
  {
    m := Stored(c, u, d, n, added);
    if added && u.Nil? {
      m' := m[c.node := SetSon(m[c.node], HoleSide(c), n)];
      LeafHung(c, n);
    } else {
      m' := m;
      if added {
        PlugSame(c, u);
        PlugSame(d, Nil);
        assert c.node in CtxNodes(d);
      }
      StoringAgain(m, c.node, HoleSide(c));
    }
  }

  lemma KeySide(c: Ctx, s: Shape, k: nat)
    requires s.Bin? && Ordered(View(Plug(c, s)))
    ensures k < s.node.key ==> (k in Keys(View(s)) <==> k in Keys(View(s.left)))
    ensures s.node.key < k ==> (k in Keys(View(s)) <==> k in Keys(View(s.right)))
    ensures s.node.key in Keys(View(s))
  {
    SubtreeIsInterval(c, s);
  }

  lemma LeafPlaced(s: Shape, d: Ctx, leaf: Shape)
    requires leaf.Bin? && Plug(d, Nil) == s && leaf.left.Nil? && leaf.right.Nil? && leaf.node !in Nodes(s)
    requires if s.Bin? then At(d, leaf) else d.Top? && LinkOf(leaf.node) == Link(null, null, null)
    requires Treap(View(s)) && Path(d, leaf.node.key)
    ensures At(d, leaf)
    ensures Ptr(Plug(d, leaf)) == if s.Bin? then Ptr(s) else leaf.node
    ensures CtxNodes(d) == Nodes(s)
    ensures View(Adjusted(d, leaf)) == InsertNew(View(s), leaf.node.key, leaf.node.internal)
  {
    PlugSame(d, Nil);
    if s.Bin? { PlugRoot(d, Nil, leaf); }
    AdjustedIsInsert(d, Nil, leaf);
  }

  lemma BothSons(c: Ctx, s: Shape)
    requires At(c, s) && s.Bin?
    ensures LinkOf(s.node) == Link(CtxPtr(c), Ptr(s.left), Ptr(s.right))
    ensures At(InLeft(c, s.node, s.right), s.left) && At(InRight(c, s.left, s.node), s.right)
  {
    HoleLinks(c, s);
    StepDown(c, s, InLeft(c, s.node, s.right), s.left);
    StepDown(c, s, InRight(c, s.left, s.node), s.right);
  }

  lemma {:induction false} DeleteRefined(c: Ctx, s: Shape)
    requires s.Bin? && Treap(View(Plug(c, s))) && Apart(c, s)
    ensures View(Plug(c, Joined(s.left, s.right))) == Delete(View(Plug(c, s)), s.node.key)
    ensures Treap(View(Plug(c, Joined(s.left, s.right))))
    ensures Nodes(Plug(c, Joined(s.left, s.right))) == Nodes(Plug(c, s)) - {s.node}
  {
    KeyIsOnPath(c, s, s.node.key);
    JoinedIsJoin(s.left, s.right);
    DeleteBelow(c, s, Joined(s.left, s.right), s.node.key);
    DeleteKeepsTreap(View(Plug(c, s)), s.node.key);
    PlugSame(c, s);
    PlugSame(c, Joined(s.left, s.right));
  }

  lemma RootIsTop(c: Ctx, s: Shape)
    requires s.Bin? && Apart(c, s)
    ensures Ptr(Plug(c, s)) == s.node <==> c.Top?
  {
    if !c.Top? {
      PlugRoot(c, s, Nil);
      PlugSame(c, Nil);
    }
  }

  lemma CutPart(c: Ctx, s: Shape, t: Shape, x: TreeNode)
    requires s.Bin? && Apart(c, s) && ((s.left.Nil? && t == s.right) || (s.right.Nil? && t == s.left))
    requires x in All(c, t)
    ensures x in All(c, s) && x != s.node
    ensures var m := All(c, s);
            All(c, t)[x] == if x == Ptr(t) then m[x].(father := CtxPtr(c))
                            else if x == CtxPtr(c) then SetSon(m[x], HoleSide(c), Ptr(t))
                            else m[x]
  {
    if x in Nodes(t) {
      assert All(c, s)[x] == Links(t, s.node)[x];
      LinksOfRoot(t, s.node, CtxPtr(c));
    } else {
      assert All(c, s)[x] == CtxLinks(c, s.node)[x];
      CtxLinksOfHole(c, s.node, Ptr(t));
    }
  }

  /** Replacing a node with one son by that son. */
  lemma CutLinks(c: Ctx, s: Shape, t: Shape)
    requires s.Bin? && Apart(c, s) && ((s.left.Nil? && t == s.right) || (s.right.Nil? && t == s.left))
    requires var m := All(c, s);
             && (t.Bin? ==> LinkOf(t.node) == m[t.node].(father := CtxPtr(c)))
             && (!c.Top? ==> LinkOf(c.node) == SetSon(m[c.node], HoleSide(c), Ptr(t)))
             && forall x <- m.Keys :: x != s.node && x != Ptr(t) && x != CtxPtr(c) ==> LinkOf(x) == m[x]
    ensures At(c, t)
    ensures Ptr(Plug(c, t)) == if c.Top? then Ptr(t) else Ptr(Plug(c, s))
  {
    var m, m' := All(c, s), All(c, t);
    if !c.Top? { PlugRoot(c, s, t); }
    forall x | x in m'
      ensures LinkOf(x) == m'[x]
    {
      CutPart(c, s, t, x);
    }
  }

  // ----- util/tree.c -----

  class TreapTree {
    var root: TreeNode?
    ghost var shape: Shape

    ghost predicate Valid()
      reads this, Nodes(shape)
    {
      root == Ptr(shape) && Whole(shape) && Treap(View(shape))
    }

    constructor ()
      ensures Valid() && shape == Nil
    {
      root, shape := null, Nil;
    }

    /** The three connections of a rotation: node takes its father's place under g, the father
        becomes its son, the inner subtree b changes hands, and a node
        without a father is the root. */
    method Relink(node: TreeNode, f: TreeNode, g: TreeNode?, b: TreeNode?, side: Side, gside: Side)
      requires node != f && node != g && node != b && f != g && f != b && (g == null || g != b)
      modifies this`root, node, f, g, b
      ensures root == if g == null then node else old(root)
      ensures LinkOf(node) == SetSon(old(LinkOf(node)).(father := g), Invert(side), f)
      ensures LinkOf(f) == SetSon(old(LinkOf(f)).(father := node), side, b)
      ensures b != null ==> LinkOf(b) == old(LinkOf(b)).(father := f)
      ensures g != null ==> LinkOf(g) == SetSon(old(LinkOf(g)), gside, node)
    {
      Connect(g, node, gside);
      Connect(node, f, Invert(side));
      Connect(f, b, side);
      if node.father == null { root := node; }
    }

    /** Rotates the node up; a node without a father stays. */
    method Rotate(node: TreeNode, ghost c: Ctx, ghost s: Shape)
      requires s.Bin? && s.node == node && At(c, s) && root == Ptr(Plug(c, s))
      modifies this`root, CtxNodes(c) + Nodes(s)
      ensures c.Top? ==> At(c, s) && root == old(root)
      ensures !c.Top? ==> At(c.up, RotateUp(c, s))
      ensures !c.Top? ==> root == Ptr(Plug(c.up, RotateUp(c, s)))
    {
      ghost var m := All(c, s);
      assert m[node].father == CtxPtr(c);
      if node.father == null { return; }
      RotateSides(c, s);

      var side := Tell(node);
      var f: TreeNode, b := node.father, Get(node, Invert(side));
      var fside := Tell(f);
      ghost var g := CtxPtr(c.up);
      assert allocated(CtxNodes(c)) && allocated(Nodes(s));
      assert forall x <- m.Keys :: allocated(x) && LinkOf(x) == m[x];
      Relink(node, f, f.father, b, side, fside);
      RotateRoot(c, s);
      RotatedAt(c, s);
    }

    /** Rotates the node up while its father is strictly greater. */
    method Adjust(node: TreeNode, ghost c: Ctx, ghost s: Shape)
      requires s.Bin? && s.node == node && At(c, s) && root == Ptr(Plug(c, s))
      modifies this`root, CtxNodes(c) + Nodes(s)
      ensures Whole(Adjusted(c, s)) && root == Ptr(Adjusted(c, s))
      ensures Nodes(Adjusted(c, s)) == CtxNodes(c) + Nodes(s)
    {
      ghost var d, t := c, s;
      HoleLinks(d, t);
      while node.father != null && node.father.internal > node.internal
        invariant t.Bin? && t.node == node && At(d, t) && root == Ptr(Plug(d, t))
        invariant node.father == CtxPtr(d)
        invariant Adjusted(d, t) == Adjusted(c, s)
        invariant CtxNodes(d) + Nodes(t) == CtxNodes(c) + Nodes(s)
        decreases d
      {
        ApartAfter(d, t);
        Rotate(node, d, t);
        d, t := d.up, RotateUp(d, t);
        HoleLinks(d, t);
      }
      PlugAt(d, t);
      PlugSame(d, t);
    }

    /** The recursive descent: the place of the key below `father`, with a new leaf when it has none.
        On return the link from an empty place's father to the leaf is still the caller's to set. */
    method InsertNodes(node: TreeNode?, father: TreeNode?, key: nat, internal: nat, ghost c: Ctx, ghost s: Shape)
      returns (sub: TreeNode, result: TreeNode, added: bool, ghost d: Ctx)
      requires node == Ptr(s) && father == CtxPtr(c) && At(c, s)
      requires Path(c, key) && Ordered(View(Plug(c, s)))
      modifies Nodes(s)
      ensures added <==> key !in Keys(View(s))
      ensures result.key == key
      ensures s.Bin? ==> sub == node
      ensures !added ==> At(c, s) && result in Nodes(s)
      ensures added ==> fresh(result) && result.internal == internal && Path(d, key) && Plug(d, Nil) == Plug(c, s)
      ensures added && s.Nil? ==> sub == result && d == c && LinkOf(result) == Link(father, null, null) && At(c, s)
      ensures added && s.Bin? ==> At(d, Bin(Nil, result, Nil))
      decreases s, 1
    {
      hide Ordered, Links, CtxLinks, Unique, UniqueCtx;
      assert allocated(CtxNodes(c)) && allocated(Nodes(s));
      if node == null {
        result := new TreeNode(key, father, internal);
        return result, result, true, c;
      }
      KeySide(c, s, key);
      if key < node.key {
        result, added, d := InsertSon(node, Left, key, internal, c, s);
      } else if key > node.key {
        result, added, d := InsertSon(node, Right, key, internal, c, s);
      } else {
        result, added, d := node, false, c;
      }
      sub := node;
    }

    /** `node->left = insert(node->left, ...)`, or the same on the right. */
    method InsertSon(node: TreeNode, side: Side, key: nat, internal: nat, ghost c: Ctx, ghost s: Shape)
      returns (result: TreeNode, added: bool, ghost d: Ctx)
      requires s.Bin? && node == s.node && At(c, s)
      requires Path(c, key) && Ordered(View(Plug(c, s)))
      requires if side.Left? then key < node.key else node.key < key
      modifies Nodes(s)
      ensures added <==> key !in Keys(View(if side.Left? then s.left else s.right))
      ensures result.key == key
      ensures !added ==> At(c, s) && result in Nodes(s)
      ensures added ==> fresh(result) && result.internal == internal && Path(d, key) && Plug(d, Nil) == Plug(c, s)
      ensures added ==> At(d, Bin(Nil, result, Nil))
      decreases s, 0
    {
      hide View, Ordered, Keys, Links, CtxLinks, Unique, UniqueCtx, All, Stored;
      ghost var c' := if side.Left? then InLeft(c, node, s.right) else InRight(c, s.left, node);
      ghost var u := if side.Left? then s.left else s.right;
      assert allocated(CtxNodes(c')) && allocated(Nodes(u));
      HoleLinks(c, s);
      StepDown(c, s, c', u);
      var son;
      son, result, added, d := InsertNodes(Get(node, side), node, key, internal, c', u);
      ghost var m, m' := StoredLinks(c', u, d, result, added);
      SetSonOf(node, side, son, m);
      assert Matches(m');
      StepDown(c, s, c', u);
    }

    /** Adds a node for the key, or returns the one it has. */
    method InsertNode(key: nat, internal: nat) returns (result: TreeNode, added: bool)
      requires Valid()
      modifies this, Nodes(shape)
      ensures Valid()
      ensures View(shape) == Insert(old(View(shape)), key, internal)
      ensures added <==> key !in old(Keys(View(shape)))
      ensures result in Nodes(shape) && result.key == key
      ensures Nodes(shape) == old(Nodes(shape)) + (if added then {result} else {})
      ensures added ==> fresh(result) && result.internal == internal
    {
      ghost var s := shape;
      ghost var d;
      assert allocated(Nodes(s));
      result, added, d := InsertAtRoot(key, internal);
      if added {
        AdjustLeaf(result, s, d);
      }
    }

    /** `t->root = insert(t->root, ...)`, before any rotation. */
    method InsertAtRoot(key: nat, internal: nat) returns (result: TreeNode, added: bool, ghost d: Ctx)
      requires Valid()
      modifies this`root, Nodes(shape)
      ensures added <==> key !in Keys(View(shape))
      ensures result.key == key && Treap(View(shape))
      ensures !added ==> Valid() && result in Nodes(shape)
      ensures added ==> fresh(result) && result.internal == internal && Path(d, key) && Plug(d, Nil) == shape
      ensures added && shape.Nil? ==> d.Top? && LinkOf(result) == Link(null, null, null) && root == result
      ensures added && shape.Bin? ==> At(d, Bin(Nil, result, Nil)) && root == Ptr(shape)
    {
      hide Ordered, TreapSpec.Heap, View, Keys, Links, Unique;
      assert allocated(Nodes(shape));
      PlugAt(Top, shape);
      var sub;
      sub, result, added, d := InsertNodes(root, null, key, internal, Top, shape);
      root := sub;
      PlugAt(Top, shape);
    }

    method AdjustLeaf(node: TreeNode, ghost s: Shape, ghost d: Ctx)
      requires Plug(d, Nil) == s && node !in Nodes(s) && Path(d, node.key) && node.key !in Keys(View(s)) && Treap(View(s))
      requires if s.Bin? then At(d, Bin(Nil, node, Nil)) && root == Ptr(s)
               else d.Top? && LinkOf(node) == Link(null, null, null) && root == node
      modifies this, Nodes(s) + {node}
      ensures Valid() && View(shape) == InsertNew(View(s), node.key, node.internal)
      ensures Nodes(shape) == Nodes(s) + {node}
    {
      ghost var leaf := Bin(Nil, node, Nil);
      LeafPlaced(s, d, leaf);
      InsertKeepsTreap(View(s), node.key, node.internal);
      AdjustTo(node, d, leaf);
    }

    method AdjustTo(node: TreeNode, ghost c: Ctx, ghost s: Shape)
      requires s.Bin? && s.node == node && At(c, s) && root == Ptr(Plug(c, s))
      modifies this, CtxNodes(c) + Nodes(s)
      ensures shape == Adjusted(c, s) && Whole(shape) && root == Ptr(shape)
      ensures Nodes(shape) == CtxNodes(c) + Nodes(s)
    {
      shape := Adjusted(c, s);
      Adjust(node, c, s);
    }

    /** The node of a key, or null. */
    function FindBelow(node: TreeNode?, key: nat, ghost c: Ctx, ghost s: Shape): (r: TreeNode?)
      requires node == Ptr(s) && At(c, s) && Ordered(View(s))
      reads CtxNodes(c) + Nodes(s)
      ensures r == null <==> key !in Keys(View(s))
      ensures r != null ==> r in Nodes(s) && r.key == key
      decreases s
    {
      if node == null then null
      else
        BothSons(c, s);
        KeySide(Top, s, key);
        if key < node.key then FindBelow(node.left, key, InLeft(c, node, s.right), s.left)
        else if key > node.key then FindBelow(node.right, key, InRight(c, s.left, node), s.right)
        else node
    }

    function FindNode(key: nat): (r: TreeNode?)
      requires Valid()
      reads this, Nodes(shape)
      ensures r == null <==> key !in Keys(View(shape))
      ensures r != null ==> r in Nodes(shape) && r.key == key
    {
      PlugAt(Top, shape);
      FindBelow(root, key, Top, shape)
    }

    /** Rotates the node down until it has at most one son, then puts that son in its place. */
    method Delete(node: TreeNode)
      requires Valid() && node in Nodes(shape)
      modifies this, Nodes(shape)
      ensures Valid()
      ensures View(shape) == TreapSpec.Delete(old(View(shape)), node.key)
      ensures Nodes(shape) == old(Nodes(shape)) - {node}
    {
      ghost var c0, s0 := Focus(shape, node);
      DeleteRefined(c0, s0);
      ghost var c, s := RotateToBottom(node, c0, s0);
      var son := if node.left != null then node.left else node.right;
      CutOff(node, node.father, son, Tell(node), c, s, Joined(s.left, s.right));
    }

    /** The loop of a deletion: the son of smaller priority, the right one on ties, is rotated over
        the node until a son is missing. */
    method RotateToBottom(node: TreeNode, ghost c0: Ctx, ghost s0: Shape) returns (ghost c: Ctx, ghost s: Shape)
      requires s0.Bin? && s0.node == node && At(c0, s0) && root == Ptr(Plug(c0, s0))
      modifies this`root, CtxNodes(c0) + Nodes(s0)
      ensures s.Bin? && s.node == node && At(c, s) && root == Ptr(Plug(c, s))
      ensures LinkOf(node) == Link(CtxPtr(c), Ptr(s.left), Ptr(s.right)) && (s.left.Nil? || s.right.Nil?)
      ensures CtxNodes(c) + Nodes(s) == CtxNodes(c0) + Nodes(s0)
      ensures Plug(c, Joined(s.left, s.right)) == Plug(c0, Joined(s0.left, s0.right))
    {
      hide At, All, Links, CtxLinks, Matches, Unique, UniqueCtx;
      c, s := c0, s0;
      HoleLinks(c, s);
      while node.left != null && node.right != null
        invariant s.Bin? && s.node == node && At(c, s) && root == Ptr(Plug(c, s))
        invariant LinkOf(node) == Link(CtxPtr(c), Ptr(s.left), Ptr(s.right))
        invariant Plug(c, Joined(s.left, s.right)) == Plug(c0, Joined(s0.left, s0.right))
        invariant CtxNodes(c) + Nodes(s) == CtxNodes(c0) + Nodes(s0)
        decreases Nodes(s)
      {
        if node.left.internal < node.right.internal {
          c, s := RotateDown(node.left, c, s, Left);
        } else {
          c, s := RotateDown(node.right, c, s, Right);
        }
      }
    }

    /** The last two steps of a deletion: the root moves if the node was it, and the node's father
        takes its only son. */
    method CutOff(node: TreeNode, father: TreeNode?, son: TreeNode?, side: Side, ghost c: Ctx, ghost s: Shape, ghost t: Shape)
      requires s.Bin? && s.node == node && At(c, s) && root == Ptr(Plug(c, s))
      requires (s.left.Nil? && t == s.right) || (s.right.Nil? && t == s.left)
      requires father == node.father && son == Ptr(t) && side == Tell(node)
      requires Treap(View(Plug(c, t)))
      modifies this, father, son
      ensures Valid() && shape == Plug(c, t)
    {
      hide View, TreapSpec.Treap, Links, CtxLinks, Unique, UniqueCtx;
      shape := Plug(c, t);
      HoleLinks(c, s);
      assert allocated(CtxNodes(c)) && allocated(Nodes(s));
      assert forall x <- All(c, s).Keys :: allocated(x) && LinkOf(x) == All(c, s)[x];
      RootIsTop(c, s);
      if node == root { root := son; }
      Connect(father, son, side);
      CutLinks(c, s, t);
      PlugAt(c, t);
    }

    method RotateDown(son: TreeNode, ghost c: Ctx, ghost s: Shape, ghost side: Side) returns (ghost c': Ctx, ghost s': Shape)
      requires s.Bin? && At(c, s) && root == Ptr(Plug(c, s))
      requires son == Ptr(if side.Left? then s.left else s.right)
      modifies this`root, CtxNodes(c) + Nodes(s)
      ensures s'.Bin? && s'.node == s.node && At(c', s') && root == Ptr(Plug(c', s'))
      ensures CtxNodes(c) + Nodes(s) == CtxNodes(c') + Nodes(s')
      ensures c' == (if side.Left? then InRight(c, s.left.left, son) else InLeft(c, son, s.right.right))
      ensures s' == (if side.Left? then Bin(s.left.right, s.node, s.right) else Bin(s.left, s.node, s.right.left))
      ensures LinkOf(s'.node) == Link(CtxPtr(c'), Ptr(s'.left), Ptr(s'.right))
      ensures Nodes(s') < Nodes(s)
    {
      ghost var d := if side.Left? then InLeft(c, s.node, s.right) else InRight(c, s.left, s.node);
      ghost var x := if side.Left? then s.left else s.right;
      StepDown(c, s, d, x);
      Rotate(son, d, x);
      ghost var y := RotateUp(d, x);
      c' := if side.Left? then InRight(c, s.left.left, son) else InLeft(c, son, s.right.right);
      s' := if side.Left? then Bin(s.left.right, s.node, s.right) else Bin(s.left, s.node, s.right.left);
      StepDown(c, y, c', s');
      HoleLinks(c', s');
      ApartAfter(d, x);
    }

    /** The node of the least key; null in an empty tree. */
    method FirstNode() returns (result: TreeNode?)
      requires Valid()
      ensures result == null <==> Keys(View(shape)) == {}
      ensures result != null ==> result in Nodes(shape) && forall k <- Keys(View(shape)) :: result.key <= k
    {
      result := root;
      PlugAt(Top, shape);
      if result == null { return; }
      assert result.key in Keys(View(shape));
      result := Leftmost(result, Top, shape);
      LeastIsLeast(View(shape));
    }

    /** The node of the greatest key; null in an empty tree. */
    method LastNode() returns (result: TreeNode?)
      requires Valid()
      ensures result == null <==> Keys(View(shape)) == {}
      ensures result != null ==> result in Nodes(shape) && forall k <- Keys(View(shape)) :: k <= result.key
    {
      result := root;
      PlugAt(Top, shape);
      if result == null { return; }
      assert result.key in Keys(View(shape));
      result := Rightmost(result, Top, shape);
      GreatestIsGreatest(View(shape));
    }

    /** The node with the next greater key; null for the last one. */
    method Next(node: TreeNode) returns (result: TreeNode?)
      requires Valid() && node in Nodes(shape)
      ensures result != null ==> result in Nodes(shape) && node.key < result.key
      ensures forall k <- Keys(View(shape)) :: node.key < k ==> result != null && result.key <= k
    {
      ghost var c, s := Focus(shape, node);
      BothSons(c, s);
      if node.right != null {
        result := Leftmost(node.right, InRight(c, s.left, node), s.right);
        NextBelow(c, s);
      } else {
        result := Climb(node, Right, c, s);
      }
    }

    /** The node with the next smaller key; null for the first one. */
    method Previous(node: TreeNode) returns (result: TreeNode?)
      requires Valid() && node in Nodes(shape)
      ensures result != null ==> result in Nodes(shape) && result.key < node.key
      ensures forall k <- Keys(View(shape)) :: k < node.key ==> result != null && k <= result.key
    {
      ghost var c, s := Focus(shape, node);
      BothSons(c, s);
      if node.left != null {
        result := Rightmost(node.left, InLeft(c, node, s.right), s.left);
        PreviousBelow(c, s);
      } else {
        result := Climb(node, Left, c, s);
      }
    }
  }

  lemma Focus(shape: Shape, node: TreeNode) returns (c: Ctx, s: Shape)
    requires Whole(shape) && node in Nodes(shape) && Ordered(View(shape))
    ensures s.Bin? && s.node == node && At(c, s) && Plug(c, s) == shape && Nodes(s) <= Nodes(shape) && CtxNodes(c) + Nodes(s) == Nodes(shape)
  {
    var place := Locate(Top, shape, node);
    c, s := place.0, place.1;
    PlugAt(c, s);
    PlugSame(c, s);
  }

  lemma NextBelow(c: Ctx, s: Shape)
    requires s.Bin? && s.right.Bin? && Ordered(View(Plug(c, s)))
    ensures s.node.key < Least(View(s.right))
    ensures forall k <- Keys(View(Plug(c, s))) :: s.node.key < k ==> Least(View(s.right)) <= k
  {
    SubtreeIsInterval(c, s);
    LeastIsLeast(View(s.right));
    SubKeys(View(s));
    forall k | k in Keys(View(Plug(c, s))) && s.node.key < k
      ensures Least(View(s.right)) <= k
    {
      if k in CtxKeys(c) { assert Between(s, k); }
    }
  }

  lemma PreviousBelow(c: Ctx, s: Shape)
    requires s.Bin? && s.left.Bin? && Ordered(View(Plug(c, s)))
    ensures Greatest(View(s.left)) < s.node.key
    ensures forall k <- Keys(View(Plug(c, s))) :: k < s.node.key ==> k <= Greatest(View(s.left))
  {
    SubtreeIsInterval(c, s);
    GreatestIsGreatest(View(s.left));
    SubKeys(View(s));
    forall k | k in Keys(View(Plug(c, s))) && k < s.node.key
      ensures k <= Greatest(View(s.left))
    {
      if k in CtxKeys(c) { assert Between(s, k); }
    }
  }

  /** k is the extreme key of s on the given side. */
  ghost predicate Extreme(s: Shape, k: nat, side: Side) {
    k in Keys(View(s)) && forall x <- Keys(View(s)) :: if side.Right? then x <= k else k <= x
  }

  /** Going up from the right (left) keeps k the greatest (least) key of the subtree. */
  lemma ExtremeStep(c: Ctx, s: Shape, k: nat, side: Side)
    requires !c.Top? && HoleSide(c) == side && Extreme(s, k, side) && Ordered(View(Plug(c, s)))
    ensures Extreme(Upward(c, s), k, side)
  {
    SubtreeIsInterval(c, s);
  }

  ghost function Upward(c: Ctx, s: Shape): Shape
    requires !c.Top?
  {
    if c.InLeft? then Bin(s, c.node, c.right) else Bin(c.left, c.node, s)
  }

  lemma ClimbStep(c: Ctx, s: Shape)
    requires At(c, s) && s.Bin? && !c.Top?
    ensures At(c.up, Upward(c, s)) && Plug(c.up, Upward(c, s)) == Plug(c, s)
    ensures var t := Upward(c, s);
            LinkOf(c.node) == Link(CtxPtr(c.up), Ptr(t.left), Ptr(t.right)) && (!c.up.Top? ==> Tell(c.node) == HoleSide(c.up))
  {
    StepDown(c.up, Upward(c, s), c, s);
    HoleLinks(c.up, Upward(c, s));
  }

  /** At the first turn the father is the neighbour of the extreme key. */
  lemma ClimbEnds(c: Ctx, s: Shape, k: nat, side: Side)
    requires Extreme(s, k, side) && Ordered(View(Plug(c, s))) && (!c.Top? ==> HoleSide(c) != side)
    ensures !c.Top? ==> if side.Right? then k < c.node.key else c.node.key < k
    ensures forall x <- Keys(View(Plug(c, s))) :: (if side.Right? then k < x else x < k) ==>
              !c.Top? && if side.Right? then c.node.key <= x else x <= c.node.key
    ensures !c.Top? ==> c.node in Nodes(Plug(c, s))
  {
    hide Ordered, Links;
    PlugSame(c, s);
    SubtreeIsInterval(c, s);
    if !c.Top? {
      var t := Upward(c, s);
      SubtreeIsInterval(c.up, t);
      assert c.node.key in Keys(View(t)) && k in Keys(View(t));
    }
  }

  /** A node without a son on the given side is the extreme of its subtree. */
  lemma ExtremeStart(s: Shape, side: Side)
    requires s.Bin? && Ordered(View(s)) && (if side.Right? then s.right.Nil? else s.left.Nil?)
    ensures Extreme(s, s.node.key, side)
  {
  }

  /** Follows fathers while the node is a son on the given side; the result is the next father. */
  method Climb(start: TreeNode, side: Side, ghost c0: Ctx, ghost s0: Shape) returns (result: TreeNode?)
    requires s0.Bin? && s0.node == start && At(c0, s0) && Ordered(View(Plug(c0, s0)))
    requires if side.Right? then s0.right.Nil? else s0.left.Nil?
    ensures result != null ==>
              result in Nodes(Plug(c0, s0)) && if side.Right? then start.key < result.key else result.key < start.key
    ensures forall k <- Keys(View(Plug(c0, s0))) :: (if side.Right? then start.key < k else k < start.key) ==>
              result != null && if side.Right? then result.key <= k else k <= result.key
  {
    hide At, All, Links, CtxLinks, Matches, Unique, UniqueCtx, Extreme, Ordered, Keys, View;
    var x := start;
    ghost var c, s := c0, s0;
    HoleLinks(c, s);
    SubtreeIsInterval(c, s);
    ExtremeStart(s, side);
    while x.father != null && Tell(x) == side
      invariant At(c, s) && s.Bin? && s.node == x && Plug(c, s) == Plug(c0, s0)
      invariant LinkOf(x) == Link(CtxPtr(c), Ptr(s.left), Ptr(s.right)) && (!c.Top? ==> Tell(x) == HoleSide(c))
      invariant Extreme(s, start.key, side)
      decreases c
    {
      ExtremeStep(c, s, start.key, side);
      ClimbStep(c, s);
      c, s, x := c.up, Upward(c, s), x.father;
    }
    ClimbEnds(c, s, start.key, side);
    result := x.father;
  }

  method Leftmost(start: TreeNode, ghost c0: Ctx, ghost s0: Shape) returns (result: TreeNode)
    requires s0.Bin? && s0.node == start && At(c0, s0)
    ensures result in Nodes(s0) && result.key == Least(View(s0))
  {
    result := start;
    ghost var c, s := c0, s0;
    BothSons(c, s);
    while result.left != null
      invariant s.Bin? && s.node == result && At(c, s) && Nodes(s) <= Nodes(s0)
      invariant LinkOf(result) == Link(CtxPtr(c), Ptr(s.left), Ptr(s.right)) && At(InLeft(c, s.node, s.right), s.left)
      invariant Least(View(s)) == Least(View(s0))
      decreases s
    {
      c, s, result := InLeft(c, s.node, s.right), s.left, result.left;
      BothSons(c, s);
    }
  }

  method Rightmost(start: TreeNode, ghost c0: Ctx, ghost s0: Shape) returns (result: TreeNode)
    requires s0.Bin? && s0.node == start && At(c0, s0)
    ensures result in Nodes(s0) && result.key == Greatest(View(s0))
  {
    result := start;
    ghost var c, s := c0, s0;
    BothSons(c, s);
    while result.right != null
      invariant s.Bin? && s.node == result && At(c, s) && Nodes(s) <= Nodes(s0)
      invariant LinkOf(result) == Link(CtxPtr(c), Ptr(s.left), Ptr(s.right)) && At(InRight(c, s.left, s.node), s.right)
      invariant Greatest(View(s)) == Greatest(View(s0))
      decreases s
    {
      c, s, result := InRight(c, s.left, s.node), s.right, result.right;
      BothSons(c, s);
    }
  }
}
