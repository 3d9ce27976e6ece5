/** Best fit in bitwise tries: what the searches of tmalloc_large and tmalloc_small
    (extlib/dlmalloc/malloc.c) look for. */
module BestFit {
  import opened Tries

  const INFINITY: nat := 0x1_0000_0000_0000_0000 // 2^64

  function Min(a: nat, b: nat): nat { if a <= b then a else b }

  /** The least size of at least nb in a trie; INFINITY when there is none. */
  function LeastFit(t: Trie, nb: nat): nat {
    match t
    case Nil => INFINITY
    case Node(z, _, l, r) => Min(if z >= nb then z else INFINITY, Min(LeastFit(l, nb), LeastFit(r, nb)))
  }

  /** chunksize - nb as a 64-bit unsigned number. */
  function Remainder(z: nat, nb: nat): nat
    requires nb <= INFINITY
  {
    if z >= nb then z - nb else INFINITY + z - nb
  }

  lemma {:induction false} LeastFitSpec(t: Trie, nb: nat)
    ensures forall z <- Sizes(t) :: z >= nb ==> LeastFit(t, nb) <= z
    ensures LeastFit(t, nb) == INFINITY || (LeastFit(t, nb) in Sizes(t) && LeastFit(t, nb) >= nb)
    ensures LeastFit(t, nb) <= INFINITY
  {
    if t.Node? {
      LeastFitSpec(t.left, nb);
      LeastFitSpec(t.right, nb);
    }
  }

  ghost predicate AllBelow(a: set<nat>, b: set<nat>) { forall x <- a, y <- b :: x < y }

  /** The left subtrie has the smaller sizes. */
  lemma LeftBelowRight(t: Trie, q: nat, h: nat)
    requires Keyed(t, q, h) && t.Node?
    ensures AllBelow(Sizes(t.left), Sizes(t.right))
  {
    forall x, y | x in Sizes(t.left) && y in Sizes(t.right)
      ensures x < y
    {
      Prefixes(t.left, 2 * q, h - 1, x);
      Prefixes(t.right, 2 * q + 1, h - 1, y);
      PrefixOrder(x, y, h - 1);
    }
  }

  /** Sizes on the side that nb does not take are all above or all below it. */
  lemma OtherSide(t: Trie, nb: nat, h: nat)
    requires Keyed(t, Prefix(nb, h), h) && t.Node? && h > 0
    ensures if Side(nb, h) == 0 then forall y <- Sizes(t.right) :: nb < y else forall y <- Sizes(t.left) :: y < nb
  {
    var q, b := Prefix(nb, h), Side(nb, h);
    var u := Child(t, 1 - b);
    forall y | y in Sizes(u)
      ensures if b == 0 then nb < y else y < nb
    {
      Prefixes(u, 2 * q + 1 - b, h - 1, y);
      if b == 0 { PrefixOrder(nb, y, h - 1); } else { PrefixOrder(y, nb, h - 1); }
    }
  }

  /** A non-empty trie of fitting sizes beats every trie of larger sizes. */
  lemma Beats(a: Trie, b: Trie, nb: nat)
    requires AllBelow(Sizes(a), Sizes(b)) && a.Node? && (forall y <- Sizes(a) :: nb <= y < INFINITY)
    ensures LeastFit(a, nb) <= LeastFit(b, nb) && LeastFit(a, nb) < INFINITY
  {
    LeastFitSpec(a, nb);
    LeastFitSpec(b, nb);
    assert a.size in Sizes(a);
  }

  lemma NothingFits(t: Trie, nb: nat)
    requires forall y <- Sizes(t) :: y < nb
    ensures LeastFit(t, nb) == INFINITY
  {
    LeastFitSpec(t, nb);
  }

  // ----- the walk of tmalloc_large down the bin of nb -----

  /** The walk has come to u with best remainder rsize so far and rst as the deepest right subtrie
      passed by; the best fit of the whole bin t0 is among these three. */
  ghost predicate Searching(t0: Trie, nb: nat, u: Trie, h: nat, rst: Trie, rsize: nat) {
    && nb <= INFINITY && Keyed(u, Prefix(nb, h), h)
    && LeastFit(t0, nb) == Min(nb + rsize, Min(LeastFit(u, nb), LeastFit(rst, nb)))
    && (forall y <- Sizes(rst) :: nb <= y < INFINITY) && (forall y <- Sizes(u) :: y < INFINITY)
    && AllBelow(Sizes(u), Sizes(rst)) && nb + rsize <= INFINITY
  }

  ghost function NextRst(nb: nat, u: Trie, h: nat, rst: Trie): Trie
    requires u.Node?
  {
    if u.right.Node? && Side(nb, h) == 0 then u.right else rst
  }

  lemma SearchLeft(t0: Trie, nb: nat, u: Trie, h: nat, rst: Trie, rsize: nat)
    requires Searching(t0, nb, u, h, rst, rsize) && u.Node? && h > 0 && Side(nb, h) == 0
    requires rsize <= Remainder(u.size, nb)
    ensures Searching(t0, nb, u.left, h - 1, NextRst(nb, u, h, rst), rsize)
  {
    hide LeastFit;
    LeftSizes(t0, nb, u, h, rst, rsize);
    LeftFits(t0, nb, u, h, rst, rsize);
  }

  lemma LeftSizes(t0: Trie, nb: nat, u: Trie, h: nat, rst: Trie, rsize: nat)
    requires Searching(t0, nb, u, h, rst, rsize) && u.Node? && h > 0 && Side(nb, h) == 0
    ensures var r := NextRst(nb, u, h, rst);
            && Keyed(u.left, Prefix(nb, h - 1), h - 1) && AllBelow(Sizes(u.left), Sizes(r))
            && (forall y <- Sizes(r) :: nb <= y < INFINITY) && (forall y <- Sizes(u.left) :: y < INFINITY)
  {
    hide LeastFit;
    LeftBelowRight(u, Prefix(nb, h), h);
    OtherSide(u, nb, h);
  }

  lemma LeftFits(t0: Trie, nb: nat, u: Trie, h: nat, rst: Trie, rsize: nat)
    requires Searching(t0, nb, u, h, rst, rsize) && u.Node? && h > 0 && Side(nb, h) == 0
    requires rsize <= Remainder(u.size, nb)
    ensures LeastFit(t0, nb) == Min(nb + rsize, Min(LeastFit(u.left, nb), LeastFit(NextRst(nb, u, h, rst), nb)))
  {
    hide Keyed, AllBelow, Sizes;
    assert nb + rsize <= if u.size >= nb then u.size else INFINITY;
    assert u.right.Node? ==> LeastFit(u.right, nb) <= LeastFit(rst, nb) by {
      if u.right.Node? { RightBeats(t0, nb, u, h, rst, rsize); }
    }
    LeastFitSpec(rst, nb);
  }

  lemma RightBeats(t0: Trie, nb: nat, u: Trie, h: nat, rst: Trie, rsize: nat)
    requires Searching(t0, nb, u, h, rst, rsize) && u.Node? && h > 0 && Side(nb, h) == 0 && u.right.Node?
    ensures LeastFit(u.right, nb) <= LeastFit(rst, nb)
  {
    hide Keyed, LeastFit;
    OtherSide(u, nb, h);
    assert AllBelow(Sizes(u.right), Sizes(rst));
    Beats(u.right, rst, nb);
  }

  lemma SearchRight(t0: Trie, nb: nat, u: Trie, h: nat, rst: Trie, rsize: nat)
    requires Searching(t0, nb, u, h, rst, rsize) && u.Node? && h > 0 && Side(nb, h) == 1
    requires rsize <= Remainder(u.size, nb)
    ensures Searching(t0, nb, u.right, h - 1, NextRst(nb, u, h, rst), rsize)
  {
    OtherSide(u, nb, h);
    NothingFits(u.left, nb);
  }

  /** Looking at a node: the better of its remainder and the best so far. */
  lemma SearchLook(t0: Trie, nb: nat, u: Trie, h: nat, rst: Trie, rsize: nat)
    requires Searching(t0, nb, u, h, rst, rsize) && u.Node?
    ensures Searching(t0, nb, u, h, rst, Min(rsize, Remainder(u.size, nb)))
    ensures Remainder(u.size, nb) < rsize ==> u.size >= nb && u.size == nb + Remainder(u.size, nb)
    ensures u.size == nb ==> Remainder(u.size, nb) == 0
    ensures Leftmost(LeastFit(t0, nb), nb, u, 0) <== u.size == nb
  {
    LeastFitSpec(t0, nb);
    LeastFitSpec(u, nb);
    LeastFitSpec(rst, nb);
  }

  /** The end of the path: only the right subtrie passed by is left. */
  lemma SearchEnd(t0: Trie, nb: nat, h: nat, rst: Trie, rsize: nat)
    requires Searching(t0, nb, Nil, h, rst, rsize) && rsize > 0
    ensures Leftmost(LeastFit(t0, nb), nb, rst, rsize)
  {
    LeastFitSpec(rst, nb);
  }

  // ----- the walk to the leftmost leaf -----

  /** The best fit over some sizes is an exact one, or the better of the best so far and the least
      size left in u. */
  ghost predicate Leftmost(best: nat, nb: nat, u: Trie, rsize: nat) {
    && nb + rsize <= INFINITY
    && if rsize == 0 then best == nb
       else best == Min(nb + rsize, LeastFit(u, nb)) && forall y <- Sizes(u) :: nb <= y < INFINITY
  }

  function LeftmostChild(t: Trie): Trie
    requires t.Node?
  {
    if t.left.Node? then t.left else t.right
  }

  lemma LeftmostStep(best: nat, nb: nat, u: Trie, q: nat, h: nat, rsize: nat)
    requires Leftmost(best, nb, u, rsize) && u.Node? && Keyed(u, q, h)
    ensures Leftmost(best, nb, LeftmostChild(u), Min(rsize, Remainder(u.size, nb)))
    ensures Remainder(u.size, nb) < rsize ==> u.size == nb + Remainder(u.size, nb)
  {
    if rsize > 0 {
      assert u.size in Sizes(u);
      LeastFitSpec(u, nb);
      LeftBelowRight(u, q, h);
      if u.left.Node? { Beats(u.left, u.right, nb); }
    }
  }

  lemma LeftmostDone(best: nat, nb: nat, rsize: nat)
    requires Leftmost(best, nb, Nil, rsize)
    ensures best == nb + rsize
  {
  }
}
