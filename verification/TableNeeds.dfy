/** Which tables the paths of a range of pages need, and how many of them are missing. */
module TableNeeds {
  import opened PageTables

  /** The places at which tables stand. */
  ghost function Places(at: Tables): set<Pos> { set f | f in at :: at[f] }

  lemma PlacesHas(at: Tables, f: nat)
    requires f in at
    ensures at[f] in Places(at)
  {
  }

  /** The tables below the root on the path of page v: down to the page table, or for 2M pages down to
      the page directory. */
  function Path(v: nat, big: bool): set<Pos> {
    {Pos(3, Up(v, 3)), Pos(2, Up(v, 2))} + if big then {} else {Pos(1, Up(v, 1))}
  }

  function Ahead(v: nat, k: nat, big: bool): nat { v + if big then 512 * k else k }

  /** Those of n consecutive pages from v on. */
  ghost function Paths(v: nat, n: nat, big: bool): set<Pos>
    decreases n
  {
    if n == 0 then {} else Path(v, big) + Paths(Ahead(v, 1, big), n - 1, big)
  }

  /** How many of the needed tables do not stand yet. */
  ghost function Missing(places: set<Pos>, needed: set<Pos>): nat { |needed - places| }

  lemma MissingUnion(places: set<Pos>, a: set<Pos>, b: set<Pos>)
    ensures Missing(places, a + b) == Missing(places, a) + Missing(places + a, b)
  {
    assert (a + b) - places == (a - places) + (b - (places + a));
  }

  lemma MissingOne(places: set<Pos>, p: Pos)
    ensures Missing(places, {p}) == if p in places then 0 else 1
  {
    assert {p} - places == if p in places then {} else {p};
  }

  lemma MissingNone(places: set<Pos>)
    ensures Missing(places, {}) == 0 && places + {} == places
  {
  }

  lemma NoPaths(places: set<Pos>, v: nat, big: bool)
    ensures Paths(v, 0, big) == {} && places + Paths(v, 0, big) == places && Missing(places, Paths(v, 0, big)) == 0
  {
    MissingNone(places);
  }

  /** The path of a page, table by table. */
  lemma PathParts(places: set<Pos>, v: nat)
    ensures var p3, p2, p1 := {Pos(3, Up(v, 3))}, {Pos(2, Up(v, 2))}, {Pos(1, Up(v, 1))};
            && Path(v, true) == p3 + p2 && Path(v, false) == Path(v, true) + p1
            && Missing(places, Path(v, true)) == Missing(places, p3) + Missing(places + p3, p2)
            && Missing(places, Path(v, false)) == Missing(places, Path(v, true)) + Missing(places + Path(v, true), p1)
  {
    MissingUnion(places, {Pos(3, Up(v, 3))}, {Pos(2, Up(v, 2))});
    MissingUnion(places, Path(v, true), {Pos(1, Up(v, 1))});
  }

  lemma PathOfOne(v: nat, big: bool)
    ensures Paths(v, 1, big) == Path(v, big)
  {
  }

  lemma {:induction false} PathsAppend(v: nat, k: nat, t: nat, big: bool)
    ensures Paths(v, k + t, big) == Paths(v, k, big) + Paths(Ahead(v, k, big), t, big)
    decreases k
  {
    hide Path;
    if k > 0 { PathsAppend(Ahead(v, 1, big), k - 1, t, big); }
  }

  /** The range in three parts, k + t + the rest of n: the tables that the second part needs are among
      those of the whole, and are what is missing after the first part was served. */
  lemma PathsPart(places: set<Pos>, v: nat, k: nat, t: nat, n: nat, big: bool)
    requires k + t <= n
    ensures Paths(v, k + t, big) == Paths(v, k, big) + Paths(Ahead(v, k, big), t, big)
    ensures Missing(places, Paths(v, k + t, big)) ==
            Missing(places, Paths(v, k, big)) + Missing(places + Paths(v, k, big), Paths(Ahead(v, k, big), t, big))
    ensures Missing(places, Paths(v, k + t, big)) <= Missing(places, Paths(v, n, big))
  {
    hide Missing, Path, Paths;
    PathsAppend(v, k, t, big);
    MissingUnion(places, Paths(v, k, big), Paths(Ahead(v, k, big), t, big));
    PathsAppend(v, k + t, n - k - t, big);
    MissingUnion(places, Paths(v, k + t, big), Paths(Ahead(v, k + t, big), n - k - t, big));
  }

  // ----- places of directories and above -----

  ghost function Upper(places: set<Pos>): set<Pos> { set p | p in places && p.level >= 2 }

  lemma {:induction false} BigPathsUpper(v: nat, n: nat)
    ensures forall p <- Paths(v, n, true) :: p.level >= 2
    decreases n
  {
    if n > 0 { BigPathsUpper(Ahead(v, 1, true), n - 1); }
  }

  /** For 2M pages only directories and above count. */
  lemma MissingUpper(places: set<Pos>, needed: set<Pos>)
    requires forall p <- needed :: p.level >= 2
    ensures Missing(Upper(places), needed) == Missing(places, needed)
    ensures Upper(places + needed) == Upper(places) + needed
  {
    assert needed - Upper(places) == needed - places;
  }

  lemma BigPath(places: set<Pos>, v: nat)
    ensures Missing(Upper(places), Path(v, true)) == Missing(places, Path(v, true))
    ensures Upper(places + Path(v, true)) == Upper(places) + Path(v, true)
  {
    MissingUpper(places, Path(v, true));
  }

  // ----- how many tables a range needs at most -----

  /** Number of tables of level l that span pages v to v + n - 1. */
  function Spanned(v: nat, n: nat, l: nat): int { if n == 0 then 0 else Up(v + n - 1, l) - Up(v, l) + 1 }

  lemma {:induction false} UpStep(v: nat, l: nat)
    ensures Up(v, l) <= Up(v + 1, l) <= Up(v, l) + 1
    decreases l
  {
    if l > 0 { UpStep(v, l - 1); }
  }

  function Fresh(p: set<Pos>, q: Pos): nat { if q in p then 0 else 1 }

  lemma PathAdds(p: set<Pos>, u: nat)
    ensures |p + Path(u, false)| <= |p| + Fresh(p, Pos(1, Up(u, 1))) + Fresh(p, Pos(2, Up(u, 2))) + Fresh(p, Pos(3, Up(u, 3)))
  {
    hide Up;
    var p3 := p + {Pos(3, Up(u, 3))};
    var p2 := p3 + {Pos(2, Up(u, 2))};
    assert p + Path(u, false) == p2 + {Pos(1, Up(u, 1))};
    AddPlace(p, Pos(3, Up(u, 3)));
    AddPlace(p3, Pos(2, Up(u, 2)));
    AddPlace(p2, Pos(1, Up(u, 1)));
  }

  /** A table of level l is new on the path of the next page only if that page is under another one. */
  lemma NextFresh(v: nat, n: nat, l: nat)
    requires 1 <= l <= 3
    ensures Spanned(v, n, l) + Fresh(Paths(v, n, false), Pos(l, Up(v + n, l))) <= Spanned(v, n + 1, l)
  {
    hide Up, Paths;
    if n > 0 {
      LastPath(v, n);
      UpStep(v + n - 1, l);
    }
  }

  /** n consecutive 4K pages need one page table for each 512 pages touched, and so on upwards. */
  lemma {:induction false} PathsBound(v: nat, n: nat)
    ensures |Paths(v, n, false)| <= Spanned(v, n, 1) + Spanned(v, n, 2) + Spanned(v, n, 3)
    decreases n
  {
    hide Up, Path, Spanned, Fresh;
    if n == 0 {
      SpannedNone(v);
    } else {
      PathsBound(v, n - 1);
      PathsAppend(v, n - 1, 1, false);
      PathOfOne(v + n - 1, false);
      PathAdds(Paths(v, n - 1, false), v + n - 1);
      NextFresh(v, n - 1, 1);
      NextFresh(v, n - 1, 2);
      NextFresh(v, n - 1, 3);
    }
  }

  lemma SpannedNone(v: nat)
    ensures Spanned(v, 0, 1) == 0 && Spanned(v, 0, 2) == 0 && Spanned(v, 0, 3) == 0
  {
  }

  lemma LastPath(v: nat, n: nat)
    requires n > 0
    ensures Path(v + n - 1, false) <= Paths(v, n, false)
  {
    PathsAppend(v, n - 1, 1, false);
    PathOfOne(v + n - 1, false);
  }

  lemma AddPlace(s: set<Pos>, p: Pos)
    ensures |s + {p}| <= |s| + if p in s then 0 else 1
  {
    if p in s { assert s + {p} == s; }
  }

  // ----- one table more -----

  lemma PlacesAdd(at: Tables, x: nat, p: Pos)
    requires x !in at
    ensures Places(at[x := p]) == Places(at) + {p}
  {
    var at' := at[x := p];
    forall q
      ensures q in Places(at') <==> q in Places(at) || q == p
    {
      if q == p { assert at'[x] == p; }
      if q in Places(at) { var f :| f in at && at[f] == q; assert at'[f] == q; }
    }
  }

  /** Entry i of table f stands on the path of the pages under it. */
  lemma ChildOnPath(p: Pos, v: nat)
    requires Under(p, v) && p.level > 0
    ensures ChildPos(p, Index(v, p.level)) == Pos(p.level - 1, Up(v, p.level - 1))
  {
  }
}
