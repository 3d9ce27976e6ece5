/** Four-level page tables as a radix tree in raw frames (memory/paging_map.c), read as in Intel SDM
    volume 3A, section 4.5. Pages and frames are numbered; v is the 36-bit number of a virtual page. */
module PageTables {
  import opened Words
  import opened PageEntry

  const ENTRIES: nat := 512

  type Memory = map<nat, seq<Word>>

  /** size is the level of the entry that maps: 1 for a 4K page, 2 for 2M, 3 for 1G. */
  datatype Mapping = Unmapped | Mapped(frame: nat, size: nat, write: bool, noExecute: bool)

  /** v without its k low 9-bit fields. */
  function Up(v: nat, k: nat): nat { if k == 0 then v else Up(v, k - 1) / ENTRIES }

  /** takeBitfield: the index into a table of level l (4 for PML4, 1 for the page table). */
  function Index(v: nat, l: nat): (i: nat)
    ensures i < ENTRIES
    ensures l > 0 ==> Up(v, l - 1) == Up(v, l) * ENTRIES + i
  {
    if l == 0 then 0 else Up(v, l - 1) % ENTRIES
  }

  function EntryFrame(e: Word, low: nat): nat
    requires |e| == 64
  {
    Addr(e, low) / 4096
  }

  /** Lowest bit of the address in a leaf entry of level l. */
  function LeafBit(l: nat): nat { if l == 1 then 12 else if l == 2 then 21 else 30 }

  function Offset(v: nat, l: nat): nat { if l == 1 then 0 else if l == 2 then v % 512 else v % (512 * 512) }

  /** A present entry that maps a page, of 4K, 2M or 1G by its level. */
  predicate IsLeaf(e: Word, l: nat) { IsPresent(e) && (l == 1 || (IsBig(e) && l <= 3)) }

  function LeafMapping(e: Word, l: nat, v: nat): Mapping
    requires |e| == 64
  {
    Mapped(EntryFrame(e, LeafBit(l)) + Offset(v, l), l, IsWriteable(e), IsNoExecute(e))
  }

  /** Rights combine over all levels. */
  function Restrict(r: Mapping, e: Word): Mapping {
    if r.Unmapped? then r else Mapped(r.frame, r.size, r.write && IsWriteable(e), r.noExecute || IsNoExecute(e))
  }

  /** The processor's walk for page v from table f of level l. */
  ghost function Walk(m: Memory, f: nat, l: nat, v: nat): Mapping
    decreases l
  {
    if l == 0 || f !in m || |m[f]| != ENTRIES then Unmapped
    else
      var e := m[f][Index(v, l)];
      if !IsPresent(e) then Unmapped
      else if IsLeaf(e, l) then LeafMapping(e, l, v)
      else Restrict(Walk(m, EntryFrame(e, 12), l - 1, v), e)
  }

  // ----- the tree of tables -----

  /** Where a table stands: its level, and the v without the fields from that level down. */
  datatype Pos = Pos(level: nat, path: nat)

  type Tables = map<nat, Pos>

  ghost predicate IsTableEntry(e: Word, l: nat) { IsPresent(e) && l > 1 && !IsLeaf(e, l) }

  function ChildPos(p: Pos, i: nat): Pos { Pos(if p.level == 0 then 0 else p.level - 1, p.path * ENTRIES + i) }

  /** Entry i of table f; one that points on leads to the table that belongs there, without restricting. */
  ghost predicate EntryOk(m: Memory, at: Tables, f: nat, i: nat) {
    && f in at && f in m && i < |m[f]| && |m[f][i]| == 64
    && (IsTableEntry(m[f][i], at[f].level) ==>
          var e := m[f][i];
          && IsWriteable(e) && !IsNoExecute(e) && !IsBig(e)
          && EntryFrame(e, 12) in at && at[EntryFrame(e, 12)] == ChildPos(at[f], i))
  }

  ghost predicate PointsTo(m: Memory, at: Tables, f: nat, i: nat, g: nat) {
    && f in at && f in m && i < |m[f]| && |m[f][i]| == 64
    && IsTableEntry(m[f][i], at[f].level) && EntryFrame(m[f][i], 12) == g
  }

  ghost predicate HasParent(m: Memory, at: Tables, g: nat) { exists f, i :: PointsTo(m, at, f, i, g) }

  ghost predicate TableOk(m: Memory, at: Tables, f: nat) { f in at && f in m && |m[f]| == ENTRIES && 1 <= at[f].level <= 4 }

  ghost predicate TreeOk(m: Memory, at: Tables, root: nat) {
    && root in at && at[root] == Pos(4, 0)
    && (forall f {:trigger TableOk(m, at, f)} | f in at :: TableOk(m, at, f))
    && (forall f, i: nat {:trigger EntryOk(m, at, f, i)} | f in at && i < ENTRIES :: EntryOk(m, at, f, i))
    && (forall f, g {:trigger at[f], at[g]} | f in at && g in at && at[f] == at[g] :: f == g)
    && (forall g {:trigger HasParent(m, at, g)} | g in at && g != root :: HasParent(m, at, g))
  }

  ghost predicate Under(p: Pos, v: nat) { Up(v, p.level) == p.path }

  lemma TreeFacts(m: Memory, at: Tables, root: nat, f: nat, i: nat)
    requires TreeOk(m, at, root) && f in at && i < ENTRIES
    ensures TableOk(m, at, f) && EntryOk(m, at, f, i) && (f != root ==> HasParent(m, at, f))
  {
    assert TableOk(m, at, f) && EntryOk(m, at, f, i);
    if f != root { assert HasParent(m, at, f); }
  }

  lemma RootFacts(m: Memory, at: Tables, root: nat)
    requires TreeOk(m, at, root)
    ensures root in at && at[root] == Pos(4, 0)
  {
  }

  /** Every table but the root is referenced by exactly one entry. */
  lemma OneParent(m: Memory, at: Tables, root: nat, f: nat, i: nat, f': nat, i': nat, g: nat)
    requires TreeOk(m, at, root) && PointsTo(m, at, f, i, g) && PointsTo(m, at, f', i', g)
    ensures f == f' && i == i' && g in at && g != root
  {
    assert TableOk(m, at, f) && TableOk(m, at, f') && EntryOk(m, at, f, i) && EntryOk(m, at, f', i');
    assert at[f] == at[f'];
  }

  /** One step of the walk from a table on the path of v to the next. */
  lemma WalkStep(m: Memory, at: Tables, root: nat, f: nat, v: nat)
    requires TreeOk(m, at, root) && f in at && Under(at[f], v)
    ensures var l, i := at[f].level, Index(v, at[f].level);
            && TableOk(m, at, f) && |m[f][i]| == 64
            && var e := m[f][i];
            && (!IsPresent(e) ==> Walk(m, f, l, v) == Unmapped)
            && (IsLeaf(e, l) ==> Walk(m, f, l, v) == LeafMapping(e, l, v))
            && (IsTableEntry(e, l) ==>
                  var g := EntryFrame(e, 12);
                  && g in at && at[g] == ChildPos(at[f], i) && Under(at[g], v) && PointsTo(m, at, f, i, g)
                  && IsWriteable(e) && !IsNoExecute(e) && !IsBig(e)
                  && Walk(m, f, l, v) == Walk(m, g, l - 1, v))
  {
    TreeFacts(m, at, root, f, Index(v, at[f].level));
  }

  /** The walk from the root passes through every table whose position v is under. */
  lemma {:induction false} Reach(m: Memory, at: Tables, root: nat, g: nat, v: nat)
    requires TreeOk(m, at, root) && g in at && Under(at[g], v) && Up(v, 4) == 0
    ensures Walk(m, root, 4, v) == Walk(m, g, at[g].level, v)
    decreases 4 - at[g].level
  {
    hide TreeOk;
    TreeFacts(m, at, root, g, 0);
    RootFacts(m, at, root);
    if g != root {
      var f: nat, i: nat :| PointsTo(m, at, f, i, g);
      TreeFacts(m, at, root, f, 0);
      TreeFacts(m, at, root, f, i);
      assert at[g] == ChildPos(at[f], i);
      assert Index(v, at[f].level) == i && Under(at[f], v);
      WalkStep(m, at, root, f, v);
      Reach(m, at, root, f, v);
    }
  }

  /** m' has the tables of m, except perhaps for entry i of table f. */
  ghost predicate SameBut(m: Memory, m': Memory, at: Tables, f: nat, i: nat) {
    forall g {:trigger m'[g]} {:trigger g in m'} {:trigger g in at} | g in at ::
      && g in m && g in m' && |m'[g]| == |m[g]|
      && forall j: nat | j < |m[g]| && !(g == f && j == i) :: m'[g][j] == m[g][j]
  }

  /** A page that is not under the changed entry keeps its translation. */
  lemma {:induction false} WalkSame(m: Memory, m': Memory, at: Tables, root: nat, f: nat, i: nat, g: nat, v: nat)
    requires TreeOk(m, at, root) && SameBut(m, m', at, f, i) && g in at && Under(at[g], v)
    requires f in at && at[f].level > 0 ==> Up(v, at[f].level - 1) != at[f].path * ENTRIES + i
    ensures Walk(m', g, at[g].level, v) == Walk(m, g, at[g].level, v)
    decreases at[g].level
  {
    hide TreeOk;
    WalkStep(m, at, root, g, v);
    TreeFacts(m, at, root, g, Index(v, at[g].level));
    var l, j := at[g].level, Index(v, at[g].level);
    assert m'[g][j] == m[g][j];
    if IsTableEntry(m[g][j], l) {
      WalkSame(m, m', at, root, f, i, EntryFrame(m[g][j], 12), v);
    }
  }

  // ----- changing one entry -----

  function SetEntry(m: Memory, f: nat, i: nat, e: Word): Memory {
    if f in m && i < |m[f]| then m[f := m[f][i := e]] else m
  }

  /** The tables left when entry i of table f stops pointing to one. */
  ghost function Cut(m: Memory, at: Tables, f: nat, i: nat): Tables
    requires EntryOk(m, at, f, i)
  {
    if IsTableEntry(m[f][i], at[f].level) then at - {EntryFrame(m[f][i], 12)} else at
  }

  ghost predicate CanSetLeaf(m: Memory, at: Tables, root: nat, f: nat, i: nat, e: Word) {
    && TreeOk(m, at, root) && f in at && i < ENTRIES && EntryOk(m, at, f, i) && |e| == 64
    && !IsTableEntry(e, at[f].level) && (IsTableEntry(m[f][i], at[f].level) ==> at[f].level == 2)
  }

  lemma SetLeafEntry(m: Memory, at: Tables, root: nat, f: nat, i: nat, e: Word, g: nat, j: nat)
    requires CanSetLeaf(m, at, root, f, i, e) && g in Cut(m, at, f, i) && j < ENTRIES
    ensures TableOk(SetEntry(m, f, i, e), Cut(m, at, f, i), g) && EntryOk(SetEntry(m, f, i, e), Cut(m, at, f, i), g, j)
  {
    hide TreeOk;
    TreeOfCan(m, at, root, f, i, e);
    TreeFacts(m, at, root, f, i);
    TreeFacts(m, at, root, g, j);
    if (g != f || j != i) && IsTableEntry(m[g][j], at[g].level) && IsTableEntry(m[f][i], at[f].level) {
      var x := EntryFrame(m[f][i], 12);
      assert PointsTo(m, at, f, i, x);
      if EntryFrame(m[g][j], 12) == x {
        assert PointsTo(m, at, g, j, x);
        OneParent(m, at, root, f, i, g, j, x);
      }
    }
  }

  lemma TreeOfCan(m: Memory, at: Tables, root: nat, f: nat, i: nat, e: Word)
    requires CanSetLeaf(m, at, root, f, i, e)
    ensures TreeOk(m, at, root) && root in Cut(m, at, f, i) && at[root] == Pos(4, 0) && f in Cut(m, at, f, i)
    ensures EntryOk(m, at, f, i)
  {
    assert TableOk(m, at, f);
  }

  lemma SetLeafParent(m: Memory, at: Tables, root: nat, f: nat, i: nat, e: Word, g: nat)
    requires CanSetLeaf(m, at, root, f, i, e) && g in Cut(m, at, f, i) && g != root
    ensures HasParent(SetEntry(m, f, i, e), Cut(m, at, f, i), g)
  {
    hide TreeOk;
    TreeOfCan(m, at, root, f, i, e);
    TreeFacts(m, at, root, g, 0);
    var h: nat, j: nat :| PointsTo(m, at, h, j, g);
    TreeFacts(m, at, root, h, 0);
    TreeFacts(m, at, root, h, j);
    TreeFacts(m, at, root, f, i);
    assert PointsTo(SetEntry(m, f, i, e), Cut(m, at, f, i), h, j, g);
  }

  /** Setting a leaf (or clearing an entry) keeps the tables a tree, without the one it cut off. */
  lemma SetLeaf(m: Memory, at: Tables, root: nat, f: nat, i: nat, e: Word)
    requires CanSetLeaf(m, at, root, f, i, e)
    ensures TreeOk(SetEntry(m, f, i, e), Cut(m, at, f, i), root)
  {
    TreeOfCan(m, at, root, f, i, e);
    var m', at' := SetEntry(m, f, i, e), Cut(m, at, f, i);
    forall g | g in at'
      ensures TableOk(m', at', g)
    {
      SetLeafEntry(m, at, root, f, i, e, g, 0);
    }
    forall g, j: nat | g in at' && j < ENTRIES
      ensures EntryOk(m', at', g, j)
    {
      SetLeafEntry(m, at, root, f, i, e, g, j);
    }
    forall g | g in at' && g != root
      ensures HasParent(m', at', g)
    {
      SetLeafParent(m, at, root, f, i, e, g);
    }
  }

  /** It changes the translation of exactly the pages under the entry. */
  lemma SetLeafView(m: Memory, at: Tables, root: nat, f: nat, i: nat, e: Word, v: nat)
    requires CanSetLeaf(m, at, root, f, i, e) && Up(v, 4) == 0
    ensures var l := at[f].level;
            && l > 0
            && Walk(SetEntry(m, f, i, e), root, 4, v) ==
               if Up(v, l - 1) != at[f].path * ENTRIES + i then Walk(m, root, 4, v)
               else if IsPresent(e) then LeafMapping(e, l, v) else Unmapped
  {
    hide TreeOk;
    SetLeaf(m, at, root, f, i, e);
    TreeOfCan(m, at, root, f, i, e);
    TreeFacts(m, at, root, f, i);
    var m', at', l := SetEntry(m, f, i, e), Cut(m, at, f, i), at[f].level;
    if Up(v, l - 1) == at[f].path * ENTRIES + i {
      assert Index(v, l) == i && Under(at'[f], v);
      Reach(m', at', root, f, v);
      WalkStep(m', at', root, f, v);
    } else {
      SameAfterSet(m, at, root, f, i, e);
      WalkSame(m, m', at, root, f, i, root, v);
    }
  }

  lemma SameAfterSet(m: Memory, at: Tables, root: nat, f: nat, i: nat, e: Word)
    requires TreeOk(m, at, root)
    ensures SameBut(m, SetEntry(m, f, i, e), at, f, i)
  {
    forall g | g in at
      ensures g in m
    {
      assert TableOk(m, at, g);
    }
  }

  // ----- adding a table -----

  function TableEntry(g: nat): Word { MakeEntry(g * 4096, false, true, false) }

  ghost predicate IsBlank(m: Memory, g: nat) { g in m && |m[g]| == ENTRIES && forall j: nat | j < ENTRIES :: m[g][j] == Zero(64) }

  ghost predicate CanAddTable(m: Memory, at: Tables, root: nat, f: nat, i: nat, g: nat) {
    && TreeOk(m, at, root) && f in at && i < ENTRIES && EntryOk(m, at, f, i) && 2 <= at[f].level <= 4 && !IsPresent(m[f][i])
    && g !in at && IsBlank(m, g) && g * 4096 < 0x10_0000_0000_0000
  }

  lemma TableEntrySpec(g: nat)
    requires g * 4096 < 0x10_0000_0000_0000
    ensures var e := TableEntry(g);
            EntryFrame(e, 12) == g && IsPresent(e) && !IsBig(e) && IsWriteable(e) && !IsNoExecute(e)
  {
    PageSizes();
    EntryRoundTrip(g * 4096, false, true, false, 12, g);
  }

  ghost function WithTable(at: Tables, f: nat, i: nat, g: nat): Tables
    requires f in at
  {
    at[g := ChildPos(at[f], i)]
  }

  lemma AddTableEntry(m: Memory, at: Tables, root: nat, f: nat, i: nat, g: nat, h: nat, j: nat)
    requires CanAddTable(m, at, root, f, i, g) && h in WithTable(at, f, i, g) && j < ENTRIES
    ensures var m', at' := SetEntry(m, f, i, TableEntry(g)), WithTable(at, f, i, g);
            TableOk(m', at', h) && EntryOk(m', at', h, j)
  {
    hide TreeOk, TableEntry;
    TableEntrySpec(g);
    if h != g { TreeFacts(m, at, root, h, j); }
  }

  lemma AddTableParent(m: Memory, at: Tables, root: nat, f: nat, i: nat, g: nat, h: nat)
    requires CanAddTable(m, at, root, f, i, g) && h in WithTable(at, f, i, g) && h != root
    ensures HasParent(SetEntry(m, f, i, TableEntry(g)), WithTable(at, f, i, g), h)
  {
    hide TreeOk, TableEntry;
    TableEntrySpec(g);
    TreeFacts(m, at, root, f, i);
    var m', at' := SetEntry(m, f, i, TableEntry(g)), WithTable(at, f, i, g);
    if h == g {
      assert PointsTo(m', at', f, i, g);
    } else {
      TreeFacts(m, at, root, h, 0);
      var x: nat, j: nat :| PointsTo(m, at, x, j, h);
      assert PointsTo(m', at', x, j, h);
    }
  }

  /** No other table stands where the new one goes. */
  lemma PlaceIsFree(m: Memory, at: Tables, root: nat, f: nat, i: nat, g: nat, h: nat)
    requires CanAddTable(m, at, root, f, i, g) && h in at
    ensures at[h] != ChildPos(at[f], i)
  {
    if at[h] == ChildPos(at[f], i) {
      TreeFacts(m, at, root, h, 0);
      RootFacts(m, at, root);
      var x: nat, j: nat :| PointsTo(m, at, x, j, h);
      TreeFacts(m, at, root, x, 0);
      TreeFacts(m, at, root, x, j);
      assert ChildPos(at[x], j) == ChildPos(at[f], i);
      SamePlace(at[x], j, at[f], i);
    }
  }

  lemma SamePlace(p: Pos, i: nat, q: Pos, j: nat)
    requires ChildPos(p, i) == ChildPos(q, j) && p.level >= 1 && q.level >= 1 && i < ENTRIES && j < ENTRIES
    ensures p == q && i == j
  {
  }

  /** A blank table in an empty entry keeps the tables a tree. */
  lemma AddTable(m: Memory, at: Tables, root: nat, f: nat, i: nat, g: nat)
    requires CanAddTable(m, at, root, f, i, g)
    ensures TreeOk(SetEntry(m, f, i, TableEntry(g)), WithTable(at, f, i, g), root)
  {
    hide TableEntry;
    var m', at' := SetEntry(m, f, i, TableEntry(g)), WithTable(at, f, i, g);
    forall h | h in at'
      ensures TableOk(m', at', h)
    {
      AddTableEntry(m, at, root, f, i, g, h, 0);
    }
    forall h, j: nat | h in at' && j < ENTRIES
      ensures EntryOk(m', at', h, j)
    {
      AddTableEntry(m, at, root, f, i, g, h, j);
    }
    forall h | h in at' && h != root
      ensures HasParent(m', at', h)
    {
      AddTableParent(m, at, root, f, i, g, h);
    }
    forall h | h in at
      ensures at[h] != ChildPos(at[f], i)
    {
      PlaceIsFree(m, at, root, f, i, g, h);
    }
  }

  /** It changes no translation. */
  lemma AddTableView(m: Memory, at: Tables, root: nat, f: nat, i: nat, g: nat, v: nat)
    requires CanAddTable(m, at, root, f, i, g) && Up(v, 4) == 0
    ensures Walk(SetEntry(m, f, i, TableEntry(g)), root, 4, v) == Walk(m, root, 4, v)
  {
    hide TreeOk, TableEntry;
    AddTable(m, at, root, f, i, g);
    var m', at' := SetEntry(m, f, i, TableEntry(g)), WithTable(at, f, i, g);
    RootFacts(m, at, root);
    TreeFacts(m, at, root, f, i);
    if Up(v, at[f].level - 1) == at[f].path * ENTRIES + i {
      assert Index(v, at[f].level) == i && Under(at[f], v) && Under(at'[g], v);
      Reach(m, at, root, f, v);
      WalkStep(m, at, root, f, v);
      Reach(m', at', root, g, v);
      BlankWalk(m', at', root, g, v);
    } else {
      SameAfterSet(m, at, root, f, i, TableEntry(g));
      WalkSame(m, m', at, root, f, i, root, v);
    }
  }

  lemma BlankWalk(m: Memory, at: Tables, root: nat, g: nat, v: nat)
    requires TreeOk(m, at, root) && g in at && IsBlank(m, g) && Under(at[g], v)
    ensures Walk(m, g, at[g].level, v) == Unmapped
  {
    WalkStep(m, at, root, g, v);
    assert m[g][Index(v, at[g].level)] == Zero(64);
  }

  // ----- frames that hold no table -----

  /** What other frames hold does not matter. */
  lemma OtherFrames(m: Memory, m': Memory, at: Tables, root: nat)
    requires TreeOk(m, at, root) && (forall f | f in at && f in m :: f in m' && m'[f] == m[f])
    ensures TreeOk(m', at, root)
    ensures forall v: nat | Up(v, 4) == 0 :: Walk(m', root, 4, v) == Walk(m, root, 4, v)
  {
    forall f, i: nat | f in at && i < ENTRIES
      ensures TableOk(m', at, f) && EntryOk(m', at, f, i)
    {
      TreeFacts(m, at, root, f, i);
    }
    forall f | f in at
      ensures TableOk(m', at, f)
    {
      TreeFacts(m, at, root, f, 0);
    }
    forall g | g in at && g != root
      ensures HasParent(m', at, g)
    {
      OtherFramesParent(m, m', at, root, g);
    }
    forall v: nat | Up(v, 4) == 0
      ensures Walk(m', root, 4, v) == Walk(m, root, 4, v)
    {
      OtherFramesSame(m, m', at, root);
      WalkSame(m, m', at, root, root, ENTRIES, root, v);
    }
  }

  lemma OtherFramesParent(m: Memory, m': Memory, at: Tables, root: nat, g: nat)
    requires TreeOk(m, at, root) && (forall f | f in at && f in m :: f in m' && m'[f] == m[f]) && g in at && g != root
    ensures HasParent(m', at, g)
  {
    hide TreeOk;
    TreeFacts(m, at, root, g, 0);
    var x: nat, j: nat :| PointsTo(m, at, x, j, g);
    assert PointsTo(m', at, x, j, g);
  }

  lemma OtherFramesSame(m: Memory, m': Memory, at: Tables, root: nat)
    requires TreeOk(m, at, root) && (forall f | f in at && f in m :: f in m' && m'[f] == m[f])
    ensures SameBut(m, m', at, root, ENTRIES)
  {
    forall g | g in at
      ensures g in m
    {
      assert TableOk(m, at, g);
    }
  }
}
