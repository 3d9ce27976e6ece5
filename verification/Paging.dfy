/** Mapping and unmapping pages (memory/paging_map.c) over the frame allocator. Addresses of virtual
    memory are given by their 36-bit page number, physical ones in bytes. */
module Paging {
  import opened Words
  import opened Bitmap
  import opened Physical
  import opened PageEntry
  import opened PageTables
  import opened TableNeeds

  const PAGES: nat := 0x10_0000_0000 // 2^36 virtual pages
  const MAX_PHYSICAL: nat := 0x10_0000_0000_0000

  lemma UpZero(v: nat)
    requires v < PAGES
    ensures Up(v, 4) == 0 && Up(v, 1) == v / 512
  {
    assert Up(v, 1) == v / 512;
    assert Up(v, 2) == v / 512 / 512;
    assert Up(v, 3) == v / 512 / 512 / 512;
  }

  /** The table frames are marked and can be written into an entry. */
  ghost predicate TablesMarked(b: seq<Word>, at: Tables) { forall f <- at :: Used(b, f) && f * 4096 < MAX_PHYSICAL }

  /** Every page but those of the range keeps its translation. */
  ghost predicate KeptOutside(m: Memory, m': Memory, root: nat, begin: nat, end: nat) {
    forall u: nat | u < PAGES && !(begin <= u < end) :: Walk(m', root, 4, u) == Walk(m, root, 4, u)
  }

  /** The allocator handed out exactly the new tables, which are of level low or higher. */
  ghost predicate OnlyTables(b: seq<Word>, b': seq<Word>, at: Tables, at': Tables, low: nat) {
    && (forall f <- at' :: f in at || (!Used(b, f) && at'[f].level >= low))
    && (forall f <- at :: f in at' && at'[f] == at[f])
    && (forall k: nat {:trigger Used(b', k)} :: Used(b', k) <==> Used(b, k) || (k in at' && k !in at))
  }

  lemma EntryAt(m: Memory, at: Tables, root: nat, f: nat, v: nat)
    requires TreeOk(m, at, root) && f in at && Under(at[f], v) && v < PAGES
    ensures var l := at[f].level; var i := Index(v, l);
            && TableOk(m, at, f) && EntryOk(m, at, f, i) && i < ENTRIES
            && var e := m[f][i];
            && (IsLeaf(e, l) ==> Walk(m, root, 4, v).Mapped? && Walk(m, root, 4, v).size == l && Walk(m, root, 4, v) == LeafMapping(e, l, v))
            && (!IsPresent(e) ==> Walk(m, root, 4, v) == Unmapped)
            && (IsTableEntry(e, l) ==> EntryFrame(e, 12) in at && at[EntryFrame(e, 12)] == ChildPos(at[f], i) && Under(at[EntryFrame(e, 12)], v))
  {
    hide TreeOk;
    UpZero(v);
    TreeFacts(m, at, root, f, Index(v, at[f].level));
    Reach(m, at, root, f, v);
    WalkStep(m, at, root, f, v);
  }

  lemma Unchanged(m: Memory, b: seq<Word>, at: Tables, root: nat, low: nat)
    ensures OnlyTables(b, b, at, at, low) && KeptOutside(m, m, root, 0, 0)
  {
  }

  /** A fresh frame becomes the table behind an empty entry. */
  lemma NewTable(m: Memory, b: seq<Word>, b': seq<Word>, at: Tables, root: nat, f: nat, i: nat, x: nat)
    requires TreeOk(m, at, root) && f in at && i < ENTRIES && EntryOk(m, at, f, i) && 2 <= at[f].level <= 4 && !IsPresent(m[f][i])
    requires TablesMarked(b, at) && Handed(b, b', Block(x, 1)) && x < MAX_PAGES
    ensures var m1, at' := m[x := ZeroFrame()], WithTable(at, f, i, x);
            && x !in at && f in m1 && i < |m1[f]|
            && TreeOk(SetEntry(m1, f, i, TableEntry(x)), at', root) && KeptOutside(m, SetEntry(m1, f, i, TableEntry(x)), root, 0, 0)
            && TablesMarked(b', at') && OnlyTables(b, b', at, at', at[f].level - 1)
            && EntryFrame(TableEntry(x), 12) == x
  {
    hide TreeOk, TableEntry;
    var m1, at' := m[x := ZeroFrame()], WithTable(at, f, i, x);
    assert InBlock(Block(x, 1), x);
    assert x !in at;
    OtherFrames(m, m1, at, root);
    AddTable(m1, at, root, f, i, x);
    TableEntrySpec(x);
    forall u: nat | u < PAGES
      ensures Walk(SetEntry(m1, f, i, TableEntry(x)), root, 4, u) == Walk(m, root, 4, u)
    {
      UpZero(u);
      AddTableView(m1, at, root, f, i, x, u);
    }
  }

  lemma EmptyTree(m: Memory, root: nat)
    requires IsBlank(m, root)
    ensures TreeOk(m, map[root := Pos(4, 0)], root)
    ensures forall v: nat | v < PAGES :: Walk(m, root, 4, v) == Unmapped
  {
    assert TableOk(m, map[root := Pos(4, 0)], root);
    forall v: nat | v < PAGES
      ensures Walk(m, root, 4, v) == Unmapped
    {
      assert m[root][Index(v, 4)] == Zero(64);
    }
  }

  class PageMap {
    const phys: PhysicalMemory
    const root: nat                // paging_PML4Table
    const supportsNoExecute: bool  // paging_SupportExecuteDisable
    ghost var at: Tables

    ghost predicate Inv()
      reads this, phys, phys.bitmap
    {
      phys.Valid() && TreeOk(phys.mem, at, root) && TablesMarked(phys.bitmap[..], at)
    }

    /** The PML4 table alone, empty. */
    constructor (phys: PhysicalMemory, root: nat, supportsNoExecute: bool)
      requires phys.Valid() && Used(phys.bitmap[..], root) && root * 4096 < MAX_PHYSICAL && IsBlank(phys.mem, root)
      ensures Inv() && this.phys == phys && this.root == root && this.supportsNoExecute == supportsNoExecute
      ensures forall v: nat | v < PAGES :: View(v) == Unmapped
    {
      this.phys, this.root, this.supportsNoExecute, at := phys, root, supportsNoExecute, map[root := Pos(4, 0)];
      new;
      EmptyTree(phys.mem, root);
    }

    ghost function View(v: nat): Mapping
      reads this, phys
    {
      Walk(phys.mem, root, 4, v)
    }

    /** table[i] = e. */
    method Store(f: nat, i: nat, e: Word)
      requires f in phys.mem && i < |phys.mem[f]|
      modifies phys`mem
      ensures phys.mem == SetEntry(old(phys.mem), f, i, e)
    {
      phys.mem := phys.mem[f := phys.mem[f][i := e]];
    }

    /** table[i] = AllocateOneFrame() | PRESENT | WRITEABLE, for an entry that is not present. */
    method MakeTable(f: nat, i: nat)
      requires Inv() && f in at && 2 <= at[f].level <= 4 && i < PageTables.ENTRIES && EntryOk(phys.mem, at, f, i)
      requires !IsPresent(phys.mem[f][i]) && phys.Available() > 0
      modifies phys`phy_i, phys`mem, phys`live, phys.bitmap, this`at
      ensures Inv() && f in phys.mem && i < |phys.mem[f]| && |phys.mem[f][i]| == 64 && f in old(at)
      ensures var g := EntryFrame(phys.mem[f][i], 12); g in at && at[g] == ChildPos(old(at)[f], i)
      ensures KeptOutside(old(phys.mem), phys.mem, root, 0, 0)
      ensures OnlyTables(old(phys.bitmap[..]), phys.bitmap[..], old(at), at, old(at)[f].level - 1)
      ensures phys.Available() + 1 == old(phys.Available())
      ensures ChildPos(old(at)[f], i) !in old(Places(at)) && Places(at) == old(Places(at)) + {ChildPos(old(at)[f], i)}
    {
      hide TreeOk, LiveOk, Left, WellFormed, TablesMarked, OnlyTables, KeptOutside, Handed, Walk, Used, Places, MakeEntry, Addr;
      NoTableThere(phys.mem, at, root, f, i);
      ghost var m, b := phys.mem, phys.bitmap[..];
      var addr := phys.NextFrame();
      ghost var x := addr / 4096;
      NewTable(m, b, phys.bitmap[..], at, root, f, i, x);
      Store(f, i, MakeEntry(addr, false, true, false));
      PlacesAdd(at, x, ChildPos(at[f], i));
      at := WithTable(at, f, i, x);
    }

    /** One step down: entry i of table f, with a new blank table there if it has none. */
    method Descend(f: nat, i: nat, ghost v: nat) returns (g: nat)
      requires Inv() && f in at && at[f].level >= 2 && Under(at[f], v) && v < PAGES && i == Index(v, at[f].level)
      requires View(v).Mapped? ==> View(v).size < at[f].level
      requires phys.Available() >= Missing(Places(at), {Pos(at[f].level - 1, Up(v, at[f].level - 1))})
      modifies phys`phy_i, phys`mem, phys`live, phys.bitmap, this`at
      ensures Inv() && g in at && at[g] == ChildPos(old(at)[f], i) && Under(at[g], v)
      ensures KeptOutside(old(phys.mem), phys.mem, root, 0, 0)
      ensures OnlyTables(old(phys.bitmap[..]), phys.bitmap[..], old(at), at, old(at)[f].level - 1)
      ensures var p := Pos(old(at)[f].level - 1, Up(v, old(at)[f].level - 1));
              Places(at) == old(Places(at)) + {p} && phys.Available() == old(phys.Available()) - Missing(old(Places(at)), {p})
    {
      hide TreeOk, LiveOk, Left, WellFormed, TablesMarked, OnlyTables, KeptOutside, Handed, Walk, Used, Places, Missing;
      ChildOnPath(at[f], v);
      MissingOne(Places(at), ChildPos(at[f], i));
      Unchanged(phys.mem, phys.bitmap[..], at, root, at[f].level - 1);
      EntryAt(phys.mem, at, root, f, v);
      if !IsPresent(phys.mem[f][i]) {
        NoTableThere(phys.mem, at, root, f, i);
        MakeTable(f, i);
      } else {
        PlacesHas(at, EntryFrame(phys.mem[f][i], 12));
      }
      g := EntryFrame(phys.mem[f][i], 12);
    }

    /** The first two steps down, which mapping 4K and 2M pages share. */
    method ToDirectory(v: nat) returns (table: nat)
      requires Inv() && v < PAGES && (View(v).Mapped? ==> View(v).size <= 2) && phys.Available() >= Missing(Places(at), Path(v, true))
      modifies phys`phy_i, phys`mem, phys`live, phys.bitmap, this`at
      ensures Inv() && table in at && at[table] == Pos(2, Up(v, 2))
      ensures KeptOutside(old(phys.mem), phys.mem, root, 0, 0)
      ensures OnlyTables(old(phys.bitmap[..]), phys.bitmap[..], old(at), at, 2)
      ensures Places(at) == old(Places(at)) + Path(v, true)
      ensures phys.Available() == old(phys.Available()) - Missing(old(Places(at)), Path(v, true))
    {
      hide TreeOk, LiveOk, Left, WellFormed, Walk, Places, Missing, Path;
      ghost var b0, at0 := phys.bitmap[..], at;
      PathParts(Places(at), v);
      RootFacts(phys.mem, at, root);
      UpZero(v);
      table := Descend(root, Index(v, 4), v);
      ghost var b1, at1 := phys.bitmap[..], at;
      table := Descend(table, Index(v, 3), v);
      TablesChain(b0, b1, phys.bitmap[..], at0, at1, at, 3, 2);
    }

    /** One round of paging_map_Page. */
    method MapOne(physical: nat, v: nat, write: bool, exec: bool)
      requires Inv() && v < PAGES && (View(v).Mapped? ==> View(v).size == 1)
      requires physical % PAGE == 0 && physical < MAX_PHYSICAL && phys.Available() >= Missing(Places(at), Path(v, false))
      modifies phys`phy_i, phys`mem, phys`live, phys.bitmap, this`at
      ensures Inv() && View(v) == Mapped(physical / PAGE, 1, write, supportsNoExecute && !exec)
      ensures KeptOutside(old(phys.mem), phys.mem, root, v, v + 1)
      ensures OnlyTables(old(phys.bitmap[..]), phys.bitmap[..], old(at), at, 1)
      ensures Places(at) == old(Places(at)) + Path(v, false)
      ensures phys.Available() == old(phys.Available()) - Missing(old(Places(at)), Path(v, false))
    {
      hide TreeOk, LiveOk, Left, WellFormed, MakeEntry, TablesMarked, Walk, EntryFrame, Places, Missing, Path, OnlyTables;
      PathParts(Places(at), v);
      ghost var m0, b0, at0 := phys.mem, phys.bitmap[..], at;
      var table := ToDirectory(v);
      ghost var m2, b2, at2 := phys.mem, phys.bitmap[..], at;
      table := Descend(table, Index(v, 2), v);
      ghost var m3, b3 := phys.mem, phys.bitmap[..];
      TablesChain(b0, b2, b3, at0, at2, at, 2, 1);
      EntryAt(m3, at, root, table, v);
      var e := MakeEntry(physical, false, write, supportsNoExecute && !exec);
      LeafEntry(physical, 1, write, supportsNoExecute && !exec);
      LeafSet(m3, at, root, table, v, e);
      Store(table, Index(v, 1), e);
    }

    /** paging_map_Page: consecutive 4K pages, from page v on, to consecutive frames. */
    method MapPages(physical: nat, v: nat, pageCount: nat, write: bool, exec: bool)
      requires Inv() && v + pageCount <= PAGES && SmallOnly(phys.mem, root, v, v + pageCount)
      requires physical % PAGE == 0 && physical + PAGE * pageCount <= MAX_PHYSICAL
      requires phys.Available() >= Missing(Places(at), Paths(v, pageCount, false))
      modifies phys`phy_i, phys`mem, phys`live, phys.bitmap, this`at
      ensures Inv()
      ensures MappedTo(phys.mem, root, v, v + pageCount, physical / PAGE, 1, write, supportsNoExecute && !exec)
      ensures KeptOutside(old(phys.mem), phys.mem, root, v, v + pageCount)
      ensures OnlyTables(old(phys.bitmap[..]), phys.bitmap[..], old(at), at, 1)
      ensures Places(at) == old(Places(at)) + Paths(v, pageCount, false)
      ensures phys.Available() == old(phys.Available()) - Missing(old(Places(at)), Paths(v, pageCount, false))
    {
      hide TreeOk, LiveOk, Left, WellFormed, MakeEntry, Walk, EntryFrame, OnlyTables, Places, Missing, Path, Paths;
      ghost var m0, b0, at0, places := phys.mem, phys.bitmap[..], at, Places(at);
      NoPaths(places, v, false);
      var n, p, w := pageCount, physical, v;
      Unchanged(m0, b0, at0, root, 1);
      while n > 0
        invariant 0 <= n <= pageCount && w == v + (pageCount - n) && p == physical + PAGE * (pageCount - n)
        invariant Inv() && Places(at) == places + Paths(v, w - v, false)
        invariant phys.Available() == old(phys.Available()) - Missing(places, Paths(v, w - v, false))
        invariant MappedTo(phys.mem, root, v, w, physical / PAGE, 1, write, supportsNoExecute && !exec)
        invariant KeptOutside(m0, phys.mem, root, v, w)
        invariant OnlyTables(b0, phys.bitmap[..], at0, at, 1)
      {
        ghost var m1, b1, at1 := phys.mem, phys.bitmap[..], at;
        n := n - 1;
        assert Walk(m0, root, 4, w) == Walk(m1, root, 4, w);
        PathsPart(places, v, w - v, 1, pageCount, false);
        PathOfOne(w, false);
        MapOne(p, w, write, exec);
        assert p / PAGE == physical / PAGE + (w - v);
        TablesChain(b0, b1, phys.bitmap[..], at0, at1, at, 1, 1);
        p := p + PAGE;
        w := w + 1;
      }
    }

    /** Gives back the page table behind entry i of directory f, if there is one. */
    method ReleaseTable(f: nat, i: nat)
      requires phys.Valid() && TablesMarked(phys.bitmap[..], at) && EntryOk(phys.mem, at, f, i) && at[f].level == 2
      modifies phys`live, phys.bitmap
      ensures phys.Valid() && phys.Available() >= old(phys.Available())
      ensures forall k: nat {:trigger Used(phys.bitmap[..], k)} ::
                Used(phys.bitmap[..], k) <==>
                Used(old(phys.bitmap[..]), k) && !(IsTableEntry(phys.mem[f][i], 2) && k == EntryFrame(phys.mem[f][i], 12))
    {
      hide LiveOk, Left, WellFormed, EntryFrame, Addr;
      if IsPresent(phys.mem[f][i]) && !IsBig(phys.mem[f][i]) {
        TableAddr(phys.mem[f][i]);
        assert Used(phys.bitmap[..], EntryFrame(phys.mem[f][i], 12));
        phys.FreeFrame(Addr(phys.mem[f][i], 12), 1);
      }
    }

    /** One round of paging_map_Page2M: pages v to v + 511. A table that stood there is given back. */
    method MapOne2M(physical: nat, v: nat, write: bool, exec: bool)
      requires Inv() && v + 512 <= PAGES && v % 512 == 0 && (View(v).Mapped? ==> View(v).size <= 2)
      requires physical % (PAGE * 512) == 0 && physical < MAX_PHYSICAL && phys.Available() >= Missing(Places(at), Path(v, true))
      modifies phys`phy_i, phys`mem, phys`live, phys.bitmap, this`at
      ensures Inv()
      ensures MappedTo(phys.mem, root, v, v + 512, physical / PAGE, 2, write, supportsNoExecute && !exec)
      ensures KeptOutside(old(phys.mem), phys.mem, root, v, v + 512)
      ensures TablesSwapped(old(phys.bitmap[..]), phys.bitmap[..], old(at), at, v / 512)
      ensures Upper(Places(at)) == old(Upper(Places(at))) + Path(v, true)
      ensures phys.Available() + Missing(old(Places(at)), Path(v, true)) >= old(phys.Available())
    {
      hide TreeOk, LiveOk, Left, WellFormed, MakeEntry, Walk, EntryFrame, OnlyTables, TablesSwapped, TablesMarked, Places, Missing, Path, Upper;
      BigPath(Places(at), v);
      ghost var m0, b0, at0 := phys.mem, phys.bitmap[..], at;
      var table := ToDirectory(v);
      ghost var m2, b2, at2 := phys.mem, phys.bitmap[..], at;
      UpZero(v);
      EntryAt(m2, at, root, table, v);
      var i := Index(v, 2);
      ReleaseTable(table, i);
      TablesCut(m2, b0, b2, phys.bitmap[..], at0, at, root, table, i);
      var e := MakeEntry(physical, true, write, supportsNoExecute && !exec);
      BigSet(m0, m2, at, root, table, v, physical, write, supportsNoExecute && !exec);
      Store(table, i, e);
      UpperCut(m2, at, table, i);
      at := Cut(m2, at, table, i);
    }

    /** paging_map_Page2M: consecutive 2M pages, from page v on, over whatever but 1G pages was there. */
    method MapPages2M(physical: nat, v: nat, pageCount: nat, write: bool, exec: bool)
      requires Inv() && v % 512 == 0 && v + 512 * pageCount <= PAGES && NoGiant(phys.mem, root, v, v + 512 * pageCount)
      requires physical % (PAGE * 512) == 0 && physical + PAGE * 512 * pageCount <= MAX_PHYSICAL
      requires phys.Available() >= Missing(Places(at), Paths(v, pageCount, true))
      modifies phys`phy_i, phys`mem, phys`live, phys.bitmap, this`at
      ensures Inv()
      ensures MappedTo(phys.mem, root, v, v + 512 * pageCount, physical / PAGE, 2, write, supportsNoExecute && !exec)
      ensures KeptOutside(old(phys.mem), phys.mem, root, v, v + 512 * pageCount)
      ensures TablesReplaced(old(phys.bitmap[..]), phys.bitmap[..], old(at), at, v / 512, v / 512 + pageCount)
    {
      hide TreeOk, LiveOk, Left, WellFormed, MakeEntry, Walk, EntryFrame, OnlyTables, TablesSwapped, TablesReplaced, Places, Missing, Path, Paths, Upper;
      ghost var m0, b0, at0, places := phys.mem, phys.bitmap[..], at, Upper(Places(at));
      NoPaths(places, v, true);
      BigPathsUpper(v, pageCount);
      MissingUpper(Places(at), Paths(v, pageCount, true));
      var n, p, w := pageCount, physical, v;
      ReplacedNone(b0, at, v / 512);
      while n > 0
        invariant 0 <= n <= pageCount && w == v + 512 * (pageCount - n) && p == physical + PAGE * 512 * (pageCount - n)
        invariant Inv() && Upper(Places(at)) == places + Paths(v, pageCount - n, true)
        invariant phys.Available() + Missing(places, Paths(v, pageCount - n, true)) >= old(phys.Available())
        invariant MappedTo(phys.mem, root, v, w, physical / PAGE, 2, write, supportsNoExecute && !exec)
        invariant KeptOutside(m0, phys.mem, root, v, w)
        invariant TablesReplaced(b0, phys.bitmap[..], at0, at, v / 512, w / 512)
      {
        ghost var m1, b1, at1 := phys.mem, phys.bitmap[..], at;
        n := n - 1;
        assert Walk(m0, root, 4, w) == Walk(m1, root, 4, w);
        PathsPart(places, v, pageCount - n - 1, 1, pageCount, true);
        PathOfOne(w, true);
        BigPath(Places(at), w);
        MapOne2M(p, w, write, exec);
        assert p / PAGE == physical / PAGE + (w - v);
        ReplacedMore(b0, b1, phys.bitmap[..], at0, at1, at, v / 512, w / 512);
        p := p + PAGE * 512;
        w := w + 512;
      }
    }

    // ----- unmapping -----

    /** Frees the frames that a leaf entry of level l maps, and clears it. */
    method FreeLeaf(f: nat, i: nat, l: nat, ghost v: nat)
      requires Inv() && f in at && at[f].level == l && 1 <= l <= 3 && i == Index(v, l) && Under(at[f], v) && v < PAGES
      requires EntryOk(phys.mem, at, f, i) && IsLeaf(phys.mem[f][i], l) && v % PageSpan(l) == 0
      requires View(v).Mapped? && Freeable(phys.bitmap[..], at, View(v).frame, PageSpan(l))
      modifies phys`mem, phys`live, phys.bitmap
      ensures Inv()
      ensures Unmapped1(old(phys.mem), phys.mem, root, v, PageSpan(l))
      ensures FreedRun(old(phys.bitmap[..]), phys.bitmap[..], old(View(v)).frame, PageSpan(l))
      ensures MappedRun(old(phys.mem), root, v, PageSpan(l))
    {
      hide TreeOk, LiveOk, Left, WellFormed, EntryFrame, Addr, TablesMarked, Used, Walk;
      ghost var m, b := phys.mem, phys.bitmap[..];
      var e := phys.mem[f][i];
      EntryAt(m, at, root, f, v);
      LeafAddr(e, l);
      LeafRun(m, at, root, f, v);
      phys.FreeFrame(Addr(e, LeafBit(l)), PageSpan(l));
      StillMarked(b, phys.bitmap[..], at, View(v).frame, PageSpan(l));
      LeafCleared(m, at, root, f, v);
      Store(f, i, Zero(64));
    }

    /** One round of paging_map_FreeAllocated: unmaps the page of any size that v lies in, if there is
        one, and tells how many 4K pages on the next round is. */
    method FreeStep(v: nat) returns (n: nat)
      requires Inv() && v < PAGES && Removable(phys.mem, root, phys.bitmap[..], at, v)
      modifies phys`mem, phys`live, phys.bitmap
      ensures Inv() && n > 0
      ensures Stepped(old(phys.mem), phys.mem, old(phys.bitmap[..]), phys.bitmap[..], root, v, n)
    {
      hide TreeOk, LiveOk, Left, WellFormed, EntryFrame, Addr, TablesMarked, Used, Walk, FreedRun, MappedRun, Unmapped1, Freeable, PageSpan;
      UpZero(v);
      RootFacts(phys.mem, at, root);
      StillUnmapped(phys.mem, root, v);
      SpanSizes();
      ghost var start := PageStart(phys.mem, root, v);
      var table, i := root, Index(v, 4);
      EntryAt(phys.mem, at, root, table, v);
      if !IsPresent(phys.mem[table][i]) { return 1; }
      table := EntryFrame(phys.mem[table][i], 12);
      i := Index(v, 3);
      EntryAt(phys.mem, at, root, table, v);
      if !IsPresent(phys.mem[table][i]) { return 1; }
      if IsBig(phys.mem[table][i]) {
        FreeLeaf(table, i, 3, start);
        return 512 * 512;
      }
      table := EntryFrame(phys.mem[table][i], 12);
      i := Index(v, 2);
      EntryAt(phys.mem, at, root, table, v);
      if !IsPresent(phys.mem[table][i]) { return 1; }
      if IsBig(phys.mem[table][i]) {
        FreeLeaf(table, i, 2, start);
        return 512;
      }
      table := EntryFrame(phys.mem[table][i], 12);
      i := Index(v, 1);
      EntryAt(phys.mem, at, root, table, v);
      if IsPresent(phys.mem[table][i]) {
        FreeLeaf(table, i, 1, start);
      }
      return 1;
    }

    /** paging_map_FreeAllocated on [v, end): it leaves nothing in the range mapped and everything outside
        as it was exactly when no huge page sticks out of the range, and frees the frames of the range
        then. The address may not wrap around behind a page that is cut at the end. */
    method FreeAllocated(v: nat, end: nat)
      requires Inv() && v <= end <= PAGES && PagesFreeable(phys.mem, root, v, end, phys.bitmap[..], at)
      requires WholePages(phys.mem, root, v, end) || end + 512 * 512 <= PAGES
      modifies phys`mem, phys`live, phys.bitmap
      ensures Inv() && Thinned(old(phys.mem), phys.mem, root)
      ensures Unmapped1(old(phys.mem), phys.mem, root, v, end - v) <==> WholePages(old(phys.mem), root, v, end)
      ensures WholePages(old(phys.mem), root, v, end) ==> FreedFrames(old(phys.mem), old(phys.bitmap[..]), phys.bitmap[..], root, v, end)
    {
      hide TreeOk, LiveOk, Left, WellFormed, TablesMarked, Used, Walk, FreedRun, MappedRun, Freeable, Unmapped1, WholePages, FreedFrames, PagesFreeable, Thinned, Broken, Stepped, Removable;
      ghost var m0, b0 := phys.mem, phys.bitmap[..];
      var w := v;
      FreeNone(m0, b0, root, v);
      while w < end
        invariant v <= w && Inv() && Thinned(m0, phys.mem, root)
        invariant SoFar(m0, phys.mem, b0, phys.bitmap[..], root, v, w, end) || Broken(m0, phys.mem, root, v, end)
        decreases end - w
      {
        ghost var m1, b1 := phys.mem, phys.bitmap[..];
        StillRemovable(m0, m1, b0, b1, root, v, w, end, at);
        var n := FreeStep(w);
        StepThins(m0, m1, phys.mem, b1, phys.bitmap[..], root, v, w, n, end);
        if SoFar(m0, m1, b0, b1, root, v, w, end) {
          StepSoFar(m0, m1, phys.mem, b0, b1, phys.bitmap[..], root, v, w, n, end);
        }
        w := w + n;
      }
      FreeDone(m0, phys.mem, b0, phys.bitmap[..], root, v, w, end);
    }

    // ----- fresh frames -----

    /** The inner loop of paging_map_PageAllocated, over one buffer of fresh frames. */
    method MapBatch(start: nat, taken: nat, write: bool, exec: bool, buf: array<nat>,
                    ghost v: nat, ghost got: seq<nat>, ghost m0: Memory, ghost b0: seq<Word>, ghost at0: Tables)
      requires Inv() && v <= start && start + taken <= PAGES && |got| == start - v && taken <= buf.Length
      requires SmallOnly(m0, root, start, start + taken) && phys.Available() >= Missing(Places(at), Paths(start, taken, false))
      requires forall i | 0 <= i < taken :: buf[i] % PAGE == 0 && buf[i] < phys.endPage * PAGE
      requires MappedList(phys.mem, root, v, got, write, supportsNoExecute && !exec) && KeptOutside(m0, phys.mem, root, v, start)
      requires PagesTaken(b0, phys.bitmap[..], at0, at, got + Numbers(buf[..taken]))
      modifies phys`phy_i, phys`mem, phys`live, phys.bitmap, this`at
      ensures Inv() && Places(at) == old(Places(at)) + Paths(start, taken, false)
      ensures phys.Available() == old(phys.Available()) - Missing(old(Places(at)), Paths(start, taken, false))
      ensures MappedList(phys.mem, root, v, got + Numbers(buf[..taken]), write, supportsNoExecute && !exec)
      ensures KeptOutside(m0, phys.mem, root, v, start + taken)
      ensures PagesTaken(b0, phys.bitmap[..], at0, at, got + Numbers(buf[..taken]))
    {
      hide TreeOk, LiveOk, Left, WellFormed, Walk, PagesTaken, OnlyTables, Used, TablesMarked, KeptOutside, MappedList, MappedTo, SmallOnly, Places, Missing, Path, Paths;
      ghost var batch, places := buf[..taken], Places(at);
      NoPaths(places, start, false);
      ghost var all := got + Numbers(batch);
      assert all[..start - v] == got;
      var i, w := 0, start;
      while i < taken
        invariant 0 <= i <= taken && w == start + i
        invariant Inv() && Places(at) == places + Paths(start, i, false)
        invariant phys.Available() == old(phys.Available()) - Missing(places, Paths(start, i, false))
        invariant MappedList(phys.mem, root, v, all[..w - v], write, supportsNoExecute && !exec)
        invariant KeptOutside(m0, phys.mem, root, v, w) && SmallOnly(m0, root, w, start + taken)
        invariant PagesTaken(b0, phys.bitmap[..], at0, at, all)
      {
        ghost var m2, b2, at2 := phys.mem, phys.bitmap[..], at;
        FreshAddr(batch, i, phys.endPage);
        SmallKept(m0, m2, root, v, w, start + taken);
        PathsPart(places, start, i, 1, taken, false);
        MapPages(buf[i], w, 1, write, exec);
        KeptChain(m0, m2, phys.mem, root, v, w);
        TakenTables(b0, b2, phys.bitmap[..], at0, at2, at, all);
        ListMore(m2, phys.mem, root, v, all, w - v, write, supportsNoExecute && !exec);
        w := w + 1;
        i := i + 1;
      }
      assert all[..w - v] == all;
    }

    /** One round of paging_map_PageAllocated: a buffer of fresh frames, and their pages. */
    method AllocateRound(n: nat, w: nat, write: bool, exec: bool, buf: array<nat>,
                         ghost v: nat, ghost got: seq<nat>, ghost m0: Memory, ghost b0: seq<Word>, ghost at0: Tables)
      returns (taken: nat, ghost all: seq<nat>)
      requires Inv() && v <= w && w + n <= PAGES && |got| == w - v && n > 0 && buf.Length > 0 && SmallOnly(m0, root, w, w + n)
      requires var cur := if n <= buf.Length then n else buf.Length;
               phys.Available() >= cur + Missing(Places(at), Paths(w, cur, false))
      requires MappedList(phys.mem, root, v, got, write, supportsNoExecute && !exec) && KeptOutside(m0, phys.mem, root, v, w)
      requires PagesTaken(b0, phys.bitmap[..], at0, at, got)
      modifies phys`phy_i, phys`mem, phys`live, phys.bitmap, this`at, buf
      ensures Inv() && taken == (if n <= buf.Length then n else buf.Length) && |all| == |got| + taken
      ensures Places(at) == old(Places(at)) + Paths(w, taken, false)
      ensures phys.Available() == old(phys.Available()) - taken - Missing(old(Places(at)), Paths(w, taken, false))
      ensures MappedList(phys.mem, root, v, all, write, supportsNoExecute && !exec)
      ensures KeptOutside(m0, phys.mem, root, v, w + taken) && PagesTaken(b0, phys.bitmap[..], at0, at, all)
    {
      hide TreeOk, LiveOk, Left, WellFormed, Walk, PagesTaken, OnlyTables, HandedAll, Used, Places, Missing, Path, Paths, TablesMarked, MappedTo, BlocksAt, AmongFrames;
      ghost var m1, b1 := phys.mem, phys.bitmap[..];
      var pageCur := if n <= buf.Length then n else buf.Length;
      taken := phys.AllocateFrames(pageCur, buf);
      ghost var batch := buf[..taken];
      TakenFrames(b0, b1, phys.bitmap[..], at0, at, got, batch, phys.endPage);
      FreshFramesTree(m1, phys.mem, at, root, batch);
      all := got + Numbers(batch);
      MapBatch(w, taken, write, exec, buf, v, got, m0, b0, at0);
    }

    /** paging_map_PageAllocated: maps the range to fresh frames, which `got` lists. */
    method PageAllocated(v: nat, pageCount: nat, write: bool, exec: bool, buf: array<nat>) returns (ghost got: seq<nat>)
      requires Inv() && v + pageCount <= PAGES && SmallOnly(phys.mem, root, v, v + pageCount)
      requires buf.Length == 2048 && phys.Available() >= pageCount + Missing(Places(at), Paths(v, pageCount, false))
      modifies phys`phy_i, phys`mem, phys`live, phys.bitmap, this`at, buf
      ensures Inv() && |got| == pageCount
      ensures MappedList(phys.mem, root, v, got, write, supportsNoExecute && !exec)
      ensures KeptOutside(old(phys.mem), phys.mem, root, v, v + pageCount)
      ensures PagesTaken(old(phys.bitmap[..]), phys.bitmap[..], old(at), at, got)
      ensures phys.Available() == old(phys.Available()) - pageCount - Missing(old(Places(at)), Paths(v, pageCount, false))
    {
      hide TreeOk, LiveOk, Left, WellFormed, Walk, PagesTaken, OnlyTables, HandedAll, Used, Places, Missing, Path, Paths, TablesMarked, MappedTo, BlocksAt, AmongFrames;
      ghost var m0, b0, at0, places := phys.mem, phys.bitmap[..], at, Places(at);
      NoPaths(places, v, false);
      var n, w := pageCount, v;
      got := [];
      TakenNone(b0, at0);
      while n > 0
        invariant 0 <= n <= pageCount && w == v + (pageCount - n) && |got| == pageCount - n
        invariant Inv() && Places(at) == places + Paths(v, w - v, false)
        invariant phys.Available() == old(phys.Available()) - (w - v) - Missing(places, Paths(v, w - v, false))
        invariant MappedList(phys.mem, root, v, got, write, supportsNoExecute && !exec)
        invariant KeptOutside(m0, phys.mem, root, v, w) && PagesTaken(b0, phys.bitmap[..], at0, at, got)
      {
        ghost var cur := if n <= buf.Length then n else buf.Length;
        PathsPart(places, v, w - v, cur, pageCount, false);
        var taken;
        ghost var all;
        taken, all := AllocateRound(n, w, write, exec, buf, v, got, m0, b0, at0);
        w := w + taken;
        got := all;
        n := n - taken;
      }
    }

    /** What FreeAllocated undoes: pages allocated to an unmapped range and freed again leave every
        translation and the bitmap as they were, but for the page tables made on the way. */
    method AllocateThenFree(v: nat, pageCount: nat, write: bool, exec: bool, buf: array<nat>)
      requires Inv() && v + pageCount <= PAGES && buf.Length == 2048
      requires phys.Available() >= pageCount + Missing(Places(at), Paths(v, pageCount, false))
      requires forall u: nat | v <= u < v + pageCount :: View(u) == Unmapped
      modifies phys`phy_i, phys`mem, phys`live, phys.bitmap, this`at, buf
      ensures Inv() && KeptOutside(old(phys.mem), phys.mem, root, 0, 0)
      ensures OnlyTables(old(phys.bitmap[..]), phys.bitmap[..], old(at), at, 0)
    {
      hide TreeOk, LiveOk, Left, WellFormed, Walk, Used, TablesMarked, PagesTaken, FreedFrames, PagesFreeable, WholePages, Unmapped1;
      ghost var m0, b0, at0 := phys.mem, phys.bitmap[..], at;
      forall u: nat | v <= u < v + pageCount
        ensures Walk(m0, root, 4, u) == Unmapped
      {
        assert View(u) == Unmapped;
      }
      ghost var got := PageAllocated(v, pageCount, write, exec, buf);
      ghost var m1, b1 := phys.mem, phys.bitmap[..];
      ListFreeable(m1, root, v, got, write, supportsNoExecute && !exec, b0, b1, at0, at);
      FreeAllocated(v, v + pageCount);
      Restored(m0, m1, phys.mem, root, v, got, write, supportsNoExecute && !exec, b0, b1, phys.bitmap[..], at0, at);
    }
  }

  lemma ListFreeable(m: Memory, root: nat, v: nat, got: seq<nat>, write: bool, noExecute: bool, b0: seq<Word>, b1: seq<Word>, at0: Tables, at: Tables)
    requires MappedList(m, root, v, got, write, noExecute) && PagesTaken(b0, b1, at0, at, got)
    ensures WholePages(m, root, v, v + |got|) && PagesFreeable(m, root, v, v + |got|, b1, at)
  {
    hide Walk;
    forall u: nat | v <= u < v + |got|
      ensures Walk(m, root, 4, u) == Mapped(got[u - v], 1, write, noExecute) && got[u - v] < BITS * |b1| && got[u - v] !in at
    {
      assert got[u - v] in got && Used(b1, got[u - v]);
    }
  }

  lemma Restored(m0: Memory, m1: Memory, m2: Memory, root: nat, v: nat, got: seq<nat>, write: bool, noExecute: bool,
                 b0: seq<Word>, b1: seq<Word>, b2: seq<Word>, at0: Tables, at: Tables)
    requires MappedList(m1, root, v, got, write, noExecute) && PagesTaken(b0, b1, at0, at, got) && v + |got| <= PAGES
    requires KeptOutside(m0, m1, root, v, v + |got|) && Unmapped1(m1, m2, root, v, |got|)
    requires forall u: nat | v <= u < v + |got| :: Walk(m0, root, 4, u) == Unmapped
    requires FreedFrames(m1, b1, b2, root, v, v + |got|)
    ensures KeptOutside(m0, m2, root, 0, 0) && OnlyTables(b0, b2, at0, at, 0)
  {
    hide Walk, Used;
    forall k: nat
      ensures FrameIn(m1, root, v, v + |got|, k) <==> k in got
    {
      if k in got {
        var i :| 0 <= i < |got| && got[i] == k;
        assert Walk(m1, root, 4, v + i) == Mapped(got[v + i - v], 1, write, noExecute);
      }
    }
    forall k: nat
      ensures Used(b2, k) <==> Used(b0, k) || (k in at && k !in at0)
    {
      if k in got { var i :| 0 <= i < |got| && got[i] == k; }
    }
  }

  /** The pages from v on map to the listed frames. */
  ghost predicate MappedList(m: Memory, root: nat, v: nat, got: seq<nat>, write: bool, noExecute: bool) {
    forall u: nat | v <= u < v + |got| :: Walk(m, root, 4, u) == Mapped(got[u - v], 1, write, noExecute)
  }

  lemma SmallKept(m0: Memory, m: Memory, root: nat, v: nat, w: nat, end: nat)
    requires KeptOutside(m0, m, root, v, w) && SmallOnly(m0, root, w, end) && w < end <= PAGES
    ensures SmallOnly(m, root, w, w + 1) && SmallOnly(m0, root, w + 1, end)
  {
    hide Walk;
    assert Walk(m, root, 4, w) == Walk(m0, root, 4, w);
  }

  lemma KeptChain(m0: Memory, m1: Memory, m2: Memory, root: nat, v: nat, w: nat)
    requires v <= w && KeptOutside(m0, m1, root, v, w) && KeptOutside(m1, m2, root, w, w + 1)
    ensures KeptOutside(m0, m2, root, v, w + 1)
  {
    hide Walk;
  }

  lemma ListMore(m: Memory, m': Memory, root: nat, v: nat, all: seq<nat>, k: nat, write: bool, noExecute: bool)
    requires k < |all| && MappedList(m, root, v, all[..k], write, noExecute) && v + |all| <= PAGES
    requires KeptOutside(m, m', root, v + k, v + k + 1) && MappedTo(m', root, v + k, v + k + 1, all[k], 1, write, noExecute)
    ensures MappedList(m', root, v, all[..k + 1], write, noExecute)
  {
    hide Walk;
    forall u: nat | v <= u < v + k + 1
      ensures Walk(m', root, 4, u) == Mapped(all[u - v], 1, write, noExecute)
    {
      if u < v + k { assert Walk(m, root, 4, u) == Mapped(all[..k][u - v], 1, write, noExecute); }
    }
  }

  ghost function Numbers(frames: seq<nat>): seq<nat> { seq(|frames|, i requires 0 <= i < |frames| => frames[i] / PAGE) }

  /** The listed frames are distinct, were free, are marked and hold no table; besides them only
      frames for new tables were handed out. */
  ghost predicate PagesTaken(b: seq<Word>, b': seq<Word>, at: Tables, at': Tables, got: seq<nat>) {
    && (forall i, j | 0 <= i < j < |got| :: got[i] != got[j])
    && (forall i | 0 <= i < |got| :: !Used(b, got[i]) && got[i] !in at')
    && (forall f <- at' :: f in at || !Used(b, f))
    && (forall f <- at :: f in at' && at'[f] == at[f])
    && (forall k: nat {:trigger Used(b', k)} :: Used(b', k) <==> Used(b, k) || k in got || (k in at' && k !in at))
  }

  lemma TakenNone(b: seq<Word>, at: Tables)
    ensures PagesTaken(b, b, at, at, [])
  {
  }

  lemma FreshAddr(frames: seq<nat>, i: nat, endPage: nat)
    requires i < |frames| && endPage <= MAX_PAGES && frames[i] % PAGE == 0 && frames[i] < endPage * PAGE
    ensures frames[i] % PAGE == 0 && frames[i] + PAGE <= MAX_PHYSICAL && Numbers(frames)[i] == frames[i] / PAGE
  {
  }

  lemma NumberOf(batch: seq<nat>, k: nat)
    requires forall i | 0 <= i < |batch| :: batch[i] % PAGE == 0
    ensures k in Numbers(batch) <==> AmongFrames(batch, k)
  {
    if k in Numbers(batch) {
      var i :| 0 <= i < |batch| && Numbers(batch)[i] == k;
      assert batch[i] == PAGE * k;
    }
    if AmongFrames(batch, k) {
      var i :| 0 <= i < |batch| && batch[i] == PAGE * k;
      assert Numbers(batch)[i] == k;
    }
  }

  /** A batch of frames from the allocator joins the list. */
  lemma TakenFrames(b0: seq<Word>, b1: seq<Word>, b2: seq<Word>, at0: Tables, at: Tables, got: seq<nat>, batch: seq<nat>, endPage: nat)
    requires PagesTaken(b0, b1, at0, at, got) && HandedAll(b1, b2, batch, endPage) && TablesMarked(b1, at)
    ensures PagesTaken(b0, b2, at0, at, got + Numbers(batch)) && TablesMarked(b2, at)
    ensures forall i | 0 <= i < |batch| :: batch[i] % PAGE == 0 && batch[i] < endPage * PAGE
    ensures forall k <- at :: !AmongFrames(batch, k)
  {
    hide Used;
    var ns := Numbers(batch);
    forall k: nat
      ensures k in ns <==> AmongFrames(batch, k)
      ensures AmongFrames(batch, k) ==> !Used(b1, k)
    {
      NumberOf(batch, k);
      if k in ns { var i :| 0 <= i < |ns| && ns[i] == k; assert !Used(b1, batch[i] / PAGE); }
    }
    forall i | 0 <= i < |ns|
      ensures !Used(b0, ns[i]) && ns[i] !in at && ns[i] !in got
    {
      assert !Used(b1, batch[i] / PAGE);
    }
    forall i, j | 0 <= i < j < |ns|
      ensures ns[i] != ns[j]
    {
      assert batch[i] == PAGE * ns[i] && batch[j] == PAGE * ns[j];
    }
  }

  lemma FreshFramesTree(m1: Memory, m2: Memory, at: Tables, root: nat, batch: seq<nat>)
    requires TreeOk(m1, at, root) && (forall k <- at :: !AmongFrames(batch, k))
    requires forall k: nat | k in m1 && !AmongFrames(batch, k) :: k in m2 && m2[k] == m1[k]
    ensures TreeOk(m2, at, root)
    ensures forall u: nat | u < PAGES :: Walk(m2, root, 4, u) == Walk(m1, root, 4, u)
  {
    hide TreeOk, AmongFrames, Walk;
    OtherFrames(m1, m2, at, root);
    forall u: nat | u < PAGES
      ensures Walk(m2, root, 4, u) == Walk(m1, root, 4, u)
    {
      UpZero(u);
    }
  }

  lemma TakenTables(b0: seq<Word>, b1: seq<Word>, b2: seq<Word>, at0: Tables, at1: Tables, at2: Tables, got: seq<nat>)
    requires PagesTaken(b0, b1, at0, at1, got) && OnlyTables(b1, b2, at1, at2, 1)
    ensures PagesTaken(b0, b2, at0, at2, got)
  {
  }

  /** Frame k is mapped by a page of the range. */
  ghost predicate FrameIn(m: Memory, root: nat, begin: nat, end: nat, k: nat) {
    exists u: nat :: begin <= u < end && Walk(m, root, 4, u).Mapped? && Walk(m, root, 4, u).frame == k
  }

  /** The page that contains page u starts at u - u % span; no page of the range sticks out of it. */
  ghost predicate WholePages(m: Memory, root: nat, begin: nat, end: nat) {
    forall u: nat | begin <= u < end && Walk(m, root, 4, u).Mapped? ::
      var n := PageSpan(Walk(m, root, 4, u).size);
      Walk(m, root, 4, u).size <= 3 && begin <= u - u % n && u - u % n + n <= end
  }

  /** Where the page that u lies in starts. */
  ghost function StartOf(r: Mapping, u: nat): nat { if r.Mapped? then u - u % PageSpan(r.size) else u }

  /** The frames of the page that u lies in may be freed: they are in the bitmap and hold no table. */
  ghost predicate Removable(m: Memory, root: nat, b: seq<Word>, at: Tables, u: nat) {
    var r := Walk(m, root, 4, u);
    var s := Walk(m, root, 4, StartOf(r, u));
    r.Mapped? ==> s.Mapped? && Freeable(b, at, s.frame, PageSpan(r.size))
  }

  ghost predicate PagesFreeable(m: Memory, root: nat, begin: nat, end: nat, b: seq<Word>, at: Tables) {
    forall u: nat | begin <= u < end :: Removable(m, root, b, at, u)
  }

  /** The page that v lies in is gone, n pages of 4K, and so are the marks of its frames. */
  ghost predicate Stepped(m: Memory, m': Memory, b: seq<Word>, b': seq<Word>, root: nat, v: nat, n: nat) {
    var r := Walk(m, root, 4, v);
    var start := StartOf(r, v);
    && n == (if r.Mapped? then PageSpan(r.size) else 1) && start <= v < start + n <= PAGES && start % n == 0
    && Unmapped1(m, m', root, start, n)
    && if r.Mapped? then 1 <= r.size <= 3 && MappedRun(m, root, start, n) && FreedRun(b, b', Walk(m, root, 4, start).frame, n) else b' == b
  }

  /** Translations were only lost. */
  ghost predicate Thinned(m: Memory, m': Memory, root: nat) {
    forall u: nat | u < PAGES :: Walk(m', root, 4, u) == Walk(m, root, 4, u) || Walk(m', root, 4, u) == Unmapped
  }

  /** A page outside the range was lost, because a huge page sticks out of it. */
  ghost predicate Broken(m: Memory, m': Memory, root: nat, v: nat, end: nat) {
    && !WholePages(m, root, v, end)
    && exists u: nat :: u < PAGES && !(v <= u < end) && Walk(m, root, 4, u).Mapped? && Walk(m', root, 4, u) == Unmapped
  }

  /** Up to w everything went well. */
  ghost predicate SoFar(m0: Memory, m: Memory, b0: seq<Word>, b: seq<Word>, root: nat, v: nat, w: nat, end: nat) {
    && v <= w <= end && WholePages(m0, root, v, w)
    && Unmapped1(m0, m, root, v, w - v) && FreedFrames(m0, b0, b, root, v, w)
  }

  /** The marks after the pages begin to end - 1 of m were freed. */
  ghost predicate FreedFrames(m: Memory, b: seq<Word>, b': seq<Word>, root: nat, begin: nat, end: nat) {
    forall k: nat {:trigger Used(b', k)} :: Used(b', k) <==> Used(b, k) && !FrameIn(m, root, begin, end, k)
  }

  lemma FreeNone(m: Memory, b: seq<Word>, root: nat, v: nat)
    ensures Unmapped1(m, m, root, v, 0) && FreedFrames(m, b, b, root, v, v) && WholePages(m, root, v, v) && Thinned(m, m, root)
  {
  }

  lemma StillUnmapped(m: Memory, root: nat, v: nat)
    ensures Walk(m, root, 4, v).Unmapped? ==> Unmapped1(m, m, root, v, 1)
  {
    hide Walk;
  }

  lemma {:induction false} UpSame(u: nat, v: nat, k: nat, l: nat)
    requires Up(u, k) == Up(v, k) && k <= l
    ensures Up(u, l) == Up(v, l)
    decreases l
  {
    if k < l { UpSame(u, v, k, l - 1); }
  }

  /** All pages under one leaf entry are translated by it. */
  lemma {:induction false} SharedLeaf(m: Memory, f: nat, l: nat, v: nat, u: nat)
    requires Walk(m, f, l, v).Mapped? && l <= 4
    requires Walk(m, f, l, v).size > 0 ==> Up(u, Walk(m, f, l, v).size - 1) == Up(v, Walk(m, f, l, v).size - 1)
    ensures var s := Walk(m, f, l, v).size;
            && 1 <= s <= 3 && s <= l && Walk(m, f, l, u).Mapped? && Walk(m, f, l, u).size == s
            && Walk(m, f, l, u).frame + Offset(v, s) == Walk(m, f, l, v).frame + Offset(u, s)
    decreases l
  {
    var e := m[f][Index(v, l)];
    if IsLeaf(e, l) {
      UpSame(u, v, l - 1, l);
      assert Index(u, l) == Index(v, l);
    } else {
      SharedSize(m, EntryFrame(e, 12), l - 1, v);
      SharedLeaf(m, EntryFrame(e, 12), l - 1, v, u);
      UpSame(u, v, Walk(m, f, l, v).size - 1, l - 1);
      UpSame(u, v, l - 1, l);
      assert Index(u, l) == Index(v, l);
    }
  }

  lemma {:induction false} SharedSize(m: Memory, f: nat, l: nat, v: nat)
    requires Walk(m, f, l, v).Mapped? && l <= 4
    ensures 1 <= Walk(m, f, l, v).size <= 3 && Walk(m, f, l, v).size <= l
    decreases l
  {
    var e := m[f][Index(v, l)];
    if !IsLeaf(e, l) { SharedSize(m, EntryFrame(e, 12), l - 1, v); }
  }

  lemma SpanSizes()
    ensures PageSpan(1) == 1 && PageSpan(2) == 512 && PageSpan(3) == 512 * 512
  {
  }

  /** The first page under the entry that maps v. */
  lemma PageStart(m: Memory, root: nat, v: nat) returns (start: nat)
    requires v < PAGES
    ensures start == StartOf(Walk(m, root, 4, v), v)
    ensures var r := Walk(m, root, 4, v);
            r.Mapped? ==>
              && 1 <= r.size <= 3 && start <= v < start + PageSpan(r.size) <= PAGES && start % PageSpan(r.size) == 0
              && Index(start, r.size) == Index(v, r.size) && Up(start, r.size) == Up(v, r.size)
              && MappedRun(m, root, start, PageSpan(r.size)) && Walk(m, root, 4, start).Mapped? && Walk(m, root, 4, start).size == r.size
  {
    hide Walk;
    var r := Walk(m, root, 4, v);
    start := StartOf(r, v);
    if r.Mapped? {
      SharedSize(m, root, 4, v);
      StartAligned(v, r.size);
      SpanAt(v, start, r.size);
      SpanAt(start, start, r.size);
      SharedLeaf(m, root, 4, v, start);
      RunAt(m, root, start);
    }
  }

  lemma StartAligned(v: nat, l: nat)
    requires 1 <= l <= 3 && v < PAGES
    ensures var n := PageSpan(l); var s := v - v % n;
            0 <= s <= v < s + n <= PAGES && s % n == 0
  {
    if l == 2 {
      StartBig(v);
    } else if l == 3 {
      StartGiant(v);
    }
  }

  lemma StartBig(v: nat)
    requires v < PAGES
    ensures var s := v - v % 512; 0 <= s <= v < s + 512 <= PAGES && s % 512 == 0
  {
    var q := v / 512;
    assert v - v % 512 == 512 * q;
  }

  lemma StartGiant(v: nat)
    requires v < PAGES
    ensures var s := v - v % (512 * 512); 0 <= s <= v < s + 512 * 512 <= PAGES && s % (512 * 512) == 0
  {
    var q := v / 262144;
    assert v - v % 262144 == 262144 * q;
  }

  lemma RunAt(m: Memory, root: nat, w: nat)
    requires Walk(m, root, 4, w).Mapped? && w < PAGES
    requires 1 <= Walk(m, root, 4, w).size <= 3 && w % PageSpan(Walk(m, root, 4, w).size) == 0
    ensures MappedRun(m, root, w, PageSpan(Walk(m, root, 4, w).size))
  {
    hide Walk;
    var r := Walk(m, root, 4, w);
    SpanAt(w, w, r.size);
    forall u: nat | w <= u < w + PageSpan(r.size)
      ensures Walk(m, root, 4, u).Mapped? && Walk(m, root, 4, u).frame == r.frame + (u - w) && Walk(m, root, 4, u).size == r.size
    {
      SpanAt(u, w, r.size);
      SharedLeaf(m, root, 4, w, u);
    }
  }

  lemma StillRemovable(m0: Memory, m: Memory, b0: seq<Word>, b: seq<Word>, root: nat, v: nat, w: nat, end: nat, at: Tables)
    requires v <= w < end <= PAGES && PagesFreeable(m0, root, v, end, b0, at) && Thinned(m0, m, root) && |b| == |b0|
    ensures Removable(m, root, b, at, w)
  {
    hide Walk, MappedRun, PageSpan;
    assert Removable(m0, root, b0, at, w);
    var start := PageStart(m, root, w);
  }

  lemma StepThins(m0: Memory, m1: Memory, m2: Memory, b1: seq<Word>, b2: seq<Word>, root: nat, v: nat, w: nat, n: nat, end: nat)
    requires Thinned(m0, m1, root) && Stepped(m1, m2, b1, b2, root, w, n)
    ensures Thinned(m0, m2, root) && (Broken(m0, m1, root, v, end) ==> Broken(m0, m2, root, v, end))
  {
    hide Walk, WholePages, MappedRun, FreedRun;
    forall u: nat | u < PAGES
      ensures Walk(m2, root, 4, u) == Walk(m1, root, 4, u) || Walk(m2, root, 4, u) == Unmapped
    {
    }
  }

  lemma StepSoFar(m0: Memory, m1: Memory, m2: Memory, b0: seq<Word>, b1: seq<Word>, b2: seq<Word>, root: nat, v: nat, w: nat, n: nat, end: nat)
    requires w < end <= PAGES && SoFar(m0, m1, b0, b1, root, v, w, end) && Thinned(m0, m1, root) && Stepped(m1, m2, b1, b2, root, w, n)
    ensures SoFar(m0, m2, b0, b2, root, v, w + n, end) || Broken(m0, m2, root, v, end)
  {
    hide Walk, WholePages, FreedFrames, PageSpan;
    var r := Walk(m1, root, 4, w);
    var start := StartOf(r, w);
    SameRun(m0, m1, b1, b2, root, v, w, n, m2);
    if start < w {
      CutAtBegin(m0, m1, m2, root, v, w, start, n, end);
    } else if w + n <= end {
      FreedMore(m0, m1, m2, b0, b1, b2, root, v, w, n, end);
      WholeMore(m0, root, v, w, n);
    } else {
      CutAtEnd(m0, m1, m2, root, v, w, n, end);
    }
  }

  /** What the step finds is what was there at first. */
  lemma SameRun(m0: Memory, m1: Memory, b1: seq<Word>, b2: seq<Word>, root: nat, v: nat, w: nat, n: nat, m2: Memory)
    requires v <= w < PAGES && Unmapped1(m0, m1, root, v, w - v) && Thinned(m0, m1, root) && Stepped(m1, m2, b1, b2, root, w, n)
    ensures Walk(m0, root, 4, w) == Walk(m1, root, 4, w)
    ensures Walk(m1, root, 4, w).Mapped? ==> MappedRun(m0, root, StartOf(Walk(m1, root, 4, w), w), n)
    ensures Walk(m1, root, 4, w).Mapped? && v < w ==> StartOf(Walk(m1, root, 4, w), w) == w
  {
    hide Walk, PageSpan, FreedRun, StartOf, MappedRun, Thinned;
    var r := Walk(m1, root, 4, w);
    if r.Mapped? {
      RunBefore(m0, m1, root, StartOf(r, w), n);
      if v < w {
        assert Walk(m1, root, 4, w - 1) == Unmapped;
        NotInRun(m1, root, StartOf(r, w), n, w - 1);
      }
    }
  }

  lemma RunBefore(m0: Memory, m1: Memory, root: nat, start: nat, n: nat)
    requires Thinned(m0, m1, root) && MappedRun(m1, root, start, n) && n > 0 && start + n <= PAGES
    ensures MappedRun(m0, root, start, n)
  {
    hide Walk;
    forall u: nat | start <= u < start + n
      ensures Walk(m0, root, 4, u) == Walk(m1, root, 4, u)
    {
      assert Walk(m1, root, 4, u).Mapped?;
    }
  }

  lemma NotInRun(m: Memory, root: nat, start: nat, n: nat, u: nat)
    requires MappedRun(m, root, start, n) && Walk(m, root, 4, u) == Unmapped
    ensures !(start <= u < start + n)
  {
    hide Walk;
  }

  lemma CutAtBegin(m0: Memory, m1: Memory, m2: Memory, root: nat, v: nat, w: nat, start: nat, n: nat, end: nat)
    requires start < w < start + n <= PAGES && v == w < end && MappedRun(m0, root, start, n) && Unmapped1(m1, m2, root, start, n)
    requires Walk(m0, root, 4, w) == Walk(m1, root, 4, w) && start == StartOf(Walk(m1, root, 4, w), w) && Walk(m1, root, 4, w).Mapped?
    ensures Broken(m0, m2, root, v, end)
  {
    hide Walk, PageSpan;
    assert Walk(m0, root, 4, start).Mapped? && Walk(m2, root, 4, start) == Unmapped;
  }

  lemma CutAtEnd(m0: Memory, m1: Memory, m2: Memory, root: nat, v: nat, w: nat, n: nat, end: nat)
    requires v <= w < end < w + n <= PAGES && MappedRun(m0, root, w, n) && Unmapped1(m1, m2, root, w, n)
    requires Walk(m0, root, 4, w) == Walk(m1, root, 4, w) && Walk(m1, root, 4, w).Mapped?
    requires w == StartOf(Walk(m1, root, 4, w), w) && n == PageSpan(Walk(m1, root, 4, w).size)
    ensures Broken(m0, m2, root, v, end)
  {
    hide Walk, PageSpan;
    assert Walk(m0, root, 4, end).Mapped? && Walk(m2, root, 4, end) == Unmapped;
  }

  lemma WholeMore(m: Memory, root: nat, v: nat, w: nat, n: nat)
    requires v <= w && n > 0 && w % n == 0 && WholePages(m, root, v, w)
    requires Walk(m, root, 4, w).Mapped? ==> MappedRun(m, root, w, n) && n == PageSpan(Walk(m, root, 4, w).size) && Walk(m, root, 4, w).size <= 3
    requires Walk(m, root, 4, w).Unmapped? ==> n == 1
    ensures WholePages(m, root, v, w + n)
  {
    hide Walk, PageSpan;
    forall u: nat | v <= u < w + n && Walk(m, root, 4, u).Mapped?
      ensures var k := PageSpan(Walk(m, root, 4, u).size);
              Walk(m, root, 4, u).size <= 3 && v <= u - u % k && u - u % k + k <= w + n
    {
      if u >= w { WithinSpan(w, Walk(m, root, 4, w).size, u); }
    }
  }

  lemma WithinSpan(w: nat, l: nat, u: nat)
    requires w % PageSpan(l) == 0 && w <= u < w + PageSpan(l)
    ensures u - u % PageSpan(l) == w
  {
    if l == 2 {
      assert w == 512 * (w / 512);
    } else if l != 1 {
      assert w == 512 * 512 * (w / (512 * 512));
    }
  }

  lemma FreeDone(m0: Memory, m: Memory, b0: seq<Word>, b: seq<Word>, root: nat, v: nat, w: nat, end: nat)
    requires w >= end && v <= end <= PAGES && (SoFar(m0, m, b0, b, root, v, w, end) || Broken(m0, m, root, v, end))
    ensures Unmapped1(m0, m, root, v, end - v) <==> WholePages(m0, root, v, end)
    ensures WholePages(m0, root, v, end) ==> FreedFrames(m0, b0, b, root, v, end)
  {
    hide Walk, WholePages, FreedFrames;
  }

  lemma FreedMore(m0: Memory, m1: Memory, m2: Memory, b0: seq<Word>, b1: seq<Word>, b2: seq<Word>, root: nat, v: nat, w: nat, n: nat, end: nat)
    requires v <= w < end <= PAGES && n > 0 && w + n <= end
    requires Unmapped1(m0, m1, root, v, w - v) && Unmapped1(m1, m2, root, w, n) && FreedFrames(m0, b0, b1, root, v, w)
    requires Walk(m0, root, 4, w) == Walk(m1, root, 4, w)
    requires Walk(m1, root, 4, w).Mapped? ==> MappedRun(m0, root, w, n) && FreedRun(b1, b2, Walk(m1, root, 4, w).frame, n)
    requires Walk(m1, root, 4, w).Unmapped? ==> n == 1 && b2 == b1
    ensures Unmapped1(m0, m2, root, v, w + n - v) && FreedFrames(m0, b0, b2, root, v, w + n)
  {
    hide Walk, Used, FrameIn, MappedRun, FreedRun, FreedFrames;
    MoreFrames(m0, b0, b1, b2, root, v, w, n);
  }

  lemma MoreFrames(m: Memory, b0: seq<Word>, b1: seq<Word>, b2: seq<Word>, root: nat, v: nat, w: nat, n: nat)
    requires v <= w && n > 0 && FreedFrames(m, b0, b1, root, v, w)
    requires Walk(m, root, 4, w).Mapped? ==> MappedRun(m, root, w, n) && FreedRun(b1, b2, Walk(m, root, 4, w).frame, n)
    requires Walk(m, root, 4, w).Unmapped? ==> n == 1 && b2 == b1
    ensures FreedFrames(m, b0, b2, root, v, w + n)
  {
    hide Walk, Used;
    var r := Walk(m, root, 4, w);
    forall k: nat
      ensures FrameIn(m, root, v, w + n, k) <==> FrameIn(m, root, v, w, k) || (r.Mapped? && r.frame <= k < r.frame + n)
    {
      if r.Mapped? && r.frame <= k < r.frame + n {
        assert Walk(m, root, 4, w + (k - r.frame)).frame == k;
      }
    }
    forall k: nat
      ensures Used(b2, k) <==> Used(b0, k) && !FrameIn(m, root, v, w + n, k)
    {
      assert Used(b1, k) <==> Used(b0, k) && !FrameIn(m, root, v, w, k);
    }
  }

  /** Number of 4K pages under a leaf entry of level l. */
  function PageSpan(l: nat): (n: nat)
    ensures n > 0
  {
    if l == 1 then 1 else if l == 2 then 512 else 512 * 512
  }

  /** A run of frames within the bitmap that holds no page table. */
  ghost predicate Freeable(b: seq<Word>, at: Tables, frame: nat, n: nat) {
    frame + n <= BITS * |b| && forall f <- at :: !(frame <= f < frame + n)
  }

  /** Pages v to v + n - 1 lost their translation, and no others. */
  ghost predicate Unmapped1(m: Memory, m': Memory, root: nat, v: nat, n: nat) {
    && KeptOutside(m, m', root, v, v + n)
    && forall u: nat | v <= u < v + n && u < PAGES :: Walk(m', root, 4, u) == Unmapped
  }

  ghost predicate FreedRun(b: seq<Word>, b': seq<Word>, frame: nat, n: nat) {
    forall k: nat {:trigger Used(b', k)} :: Used(b', k) <==> Used(b, k) && !(frame <= k < frame + n)
  }

  /** Pages v to v + n - 1 map to consecutive frames with one size. */
  ghost predicate MappedRun(m: Memory, root: nat, v: nat, n: nat) {
    var r := Walk(m, root, 4, v);
    r.Mapped? && forall u: nat | v <= u < v + n ::
      Walk(m, root, 4, u).Mapped? && Walk(m, root, 4, u).frame == r.frame + (u - v) && Walk(m, root, 4, u).size == r.size
  }

  ghost predicate ShareEntry(u: nat, v: nat, l: nat) { l > 0 && Up(u, l - 1) == Up(v, l - 1) }

  lemma SpanAt(u: nat, v: nat, l: nat)
    requires 1 <= l <= 3 && v < PAGES && v % PageSpan(l) == 0
    ensures ShareEntry(u, v, l) <==> v <= u < v + PageSpan(l)
    ensures ShareEntry(u, v, l) ==> Offset(u, l) == u - v && u < PAGES && Up(u, l) == Up(v, l) && Index(u, l) == Index(v, l)
  {
    if l == 2 {
      SpanOfBig(u, v);
    } else if l == 3 {
      SpanOfGiant(u, v);
    }
  }

  lemma SpanOfBig(u: nat, v: nat)
    requires v < PAGES && v % 512 == 0
    ensures ShareEntry(u, v, 2) <==> v <= u < v + 512
    ensures ShareEntry(u, v, 2) ==> Offset(u, 2) == u - v && u < PAGES && Up(u, 2) == Up(v, 2) && Index(u, 2) == Index(v, 2)
  {
    SameBlock(u, v);
    assert Up(u, 1) == u / 512 && Up(v, 1) == v / 512;
  }

  lemma SpanOfGiant(u: nat, v: nat)
    requires v < PAGES && v % (512 * 512) == 0
    ensures ShareEntry(u, v, 3) <==> v <= u < v + 512 * 512
    ensures ShareEntry(u, v, 3) ==> Offset(u, 3) == u - v && u < PAGES && Up(u, 3) == Up(v, 3) && Index(u, 3) == Index(v, 3)
  {
    SameBigBlock(u, v);
    Halves(u);
    Halves(v);
    TwoFields(u);
    TwoFields(v);
  }

  lemma TwoFields(u: nat)
    ensures Up(u, 2) == u / 512 / 512
  {
    assert Up(u, 1) == u / 512;
  }

  lemma SameBlock(u: nat, v: nat)
    requires v % 512 == 0
    ensures u / 512 == v / 512 <==> v <= u < v + 512
    ensures v <= u < v + 512 ==> u % 512 == u - v
  {
  }

  lemma SameBigBlock(u: nat, v: nat)
    requires v % (512 * 512) == 0
    ensures u / (512 * 512) == v / (512 * 512) <==> v <= u < v + 512 * 512
    ensures v <= u < v + 512 * 512 ==> u % (512 * 512) == u - v
  {
  }

  lemma Halves(u: nat)
    ensures u / 512 / 512 == u / (512 * 512)
  {
  }

  lemma LeafRun(m: Memory, at: Tables, root: nat, f: nat, v: nat)
    requires TreeOk(m, at, root) && f in at && 1 <= at[f].level <= 3 && Under(at[f], v) && v < PAGES && v % PageSpan(at[f].level) == 0
    requires var i := Index(v, at[f].level); EntryOk(m, at, f, i) && IsLeaf(m[f][i], at[f].level)
    ensures MappedRun(m, root, v, PageSpan(at[f].level))
  {
    hide TreeOk, Walk, EntryFrame;
    var l := at[f].level;
    EntryAt(m, at, root, f, v);
    SpanAt(v, v, l);
    forall u: nat | v <= u < v + PageSpan(l)
      ensures Walk(m, root, 4, u) == LeafMapping(m[f][Index(v, l)], l, u) && Offset(u, l) == u - v
    {
      SpanAt(u, v, l);
      EntryAt(m, at, root, f, u);
    }
  }

  lemma LeafCleared(m: Memory, at: Tables, root: nat, f: nat, v: nat)
    requires TreeOk(m, at, root) && f in at && 1 <= at[f].level <= 3 && Under(at[f], v) && v < PAGES && v % PageSpan(at[f].level) == 0
    requires var i := Index(v, at[f].level); EntryOk(m, at, f, i) && IsLeaf(m[f][i], at[f].level)
    ensures var m' := SetEntry(m, f, Index(v, at[f].level), Zero(64));
            TreeOk(m', at, root) && Unmapped1(m, m', root, v, PageSpan(at[f].level))
  {
    hide TreeOk, Walk, EntryFrame;
    LeafSet(m, at, root, f, v, Zero(64));
    var l := at[f].level;
    var m' := SetEntry(m, f, Index(v, l), Zero(64));
    forall u: nat | u < PAGES
      ensures Walk(m', root, 4, u) == if v <= u < v + PageSpan(l) then Unmapped else Walk(m, root, 4, u)
    {
      SpanAt(u, v, l);
    }
  }

  lemma LeafAddr(e: Word, l: nat)
    requires |e| == 64 && 1 <= l <= 3
    ensures Addr(e, LeafBit(l)) % 4096 == 0 && Addr(e, LeafBit(l)) / 4096 == EntryFrame(e, LeafBit(l))
  {
    hide Pow2, Addr;
    PageSizes();
    var q := AddrAligned(e, LeafBit(l));
    if l == 2 {
      assert Addr(e, 21) == 4096 * (512 * q);
    } else if l == 3 {
      assert Addr(e, 30) == 4096 * (512 * 512 * q);
    }
  }

  lemma StillMarked(b: seq<Word>, b': seq<Word>, at: Tables, frame: nat, n: nat)
    requires TablesMarked(b, at) && FreedRun(b, b', frame, n) && forall f <- at :: !(frame <= f < frame + n)
    ensures TablesMarked(b', at)
  {
  }

  /** Pages begin to end - 1 map to consecutive frames from `frame` on. */
  ghost predicate MappedTo(m: Memory, root: nat, begin: nat, end: nat, frame: nat, size: nat, write: bool, noExecute: bool) {
    forall u: nat | begin <= u < end :: Walk(m, root, 4, u) == Mapped(frame + (u - begin), size, write, noExecute)
  }

  lemma BigSet(m0: Memory, m: Memory, at: Tables, root: nat, f: nat, v: nat, physical: nat, write: bool, noExecute: bool)
    requires f in at && at[f].level == 2 && Under(at[f], v) && v + 512 <= PAGES && v % 512 == 0
    requires TreeOk(m, at, root) && EntryOk(m, at, f, Index(v, 2)) && KeptOutside(m0, m, root, 0, 0)
    requires physical % (PAGE * 512) == 0 && physical < MAX_PHYSICAL
    ensures var e := MakeEntry(physical, true, write, noExecute);
            var m' := SetEntry(m, f, Index(v, 2), e);
            && TreeOk(m', Cut(m, at, f, Index(v, 2)), root) && KeptOutside(m0, m', root, v, v + 512)
            && MappedTo(m', root, v, v + 512, physical / PAGE, 2, write, noExecute)
  {
    hide TreeOk, EntryOk, MakeEntry, Walk;
    LeafEntry(physical, 2, write, noExecute);
    LeafSet(m, at, root, f, v, MakeEntry(physical, true, write, noExecute));
    BigRange(v);
  }

  /** No page of the range is part of a 1G page. */
  ghost predicate NoGiant(m: Memory, root: nat, begin: nat, end: nat) {
    forall u: nat | begin <= u < end :: Walk(m, root, 4, u).Mapped? ==> Walk(m, root, 4, u).size <= 2
  }

  /** The page tables at places begin to end - 1 were given back, and other tables only added. */
  ghost predicate TablesReplaced(b: seq<Word>, b': seq<Word>, at: Tables, at': Tables, begin: nat, end: nat) {
    && (forall f <- at' :: !Replaced(at'[f], begin, end) && ((f in at && at'[f] == at[f]) || at'[f].level >= 2))
    && (forall k: nat {:trigger Used(b', k)} ::
          Used(b', k) <==> (Used(b, k) && !(k in at && Replaced(at[k], begin, end))) || k in at')
    && (forall f <- at :: !Replaced(at[f], begin, end) ==> f in at' && at'[f] == at[f])
  }

  ghost predicate Replaced(p: Pos, begin: nat, end: nat) { p.level == 1 && begin <= p.path < end }

  lemma ReplacedNone(b: seq<Word>, at: Tables, begin: nat)
    requires TablesMarked(b, at)
    ensures TablesReplaced(b, b, at, at, begin, begin)
  {
  }

  lemma ReplacedMore(b0: seq<Word>, b1: seq<Word>, b2: seq<Word>, at0: Tables, at1: Tables, at2: Tables, begin: nat, end: nat)
    requires TablesReplaced(b0, b1, at0, at1, begin, end) && TablesSwapped(b1, b2, at1, at2, end) && begin <= end
    requires TablesMarked(b0, at0) && TablesMarked(b1, at1) && TablesMarked(b2, at2)
    ensures TablesReplaced(b0, b2, at0, at2, begin, end + 1)
  {
  }

  /** No page of the range is part of a huge one. */
  ghost predicate SmallOnly(m: Memory, root: nat, begin: nat, end: nat) {
    forall u: nat | begin <= u < end :: Walk(m, root, 4, u).Mapped? ==> Walk(m, root, 4, u).size == 1
  }

  /** The pages under one 2M entry. */
  lemma BigRange(v: nat)
    requires v % 512 == 0 && v < PAGES
    ensures forall u: nat :: Up(u, 1) == Up(v, 1) <==> v <= u < v + 512
    ensures forall u: nat | v <= u < v + 512 :: Offset(u, 2) == u - v && u < PAGES
  {
    forall u: nat
      ensures Up(u, 1) == Up(v, 1) <==> v <= u < v + 512
    {
      UpOne(u);
      UpOne(v);
    }
  }

  lemma UpOne(v: nat)
    ensures Up(v, 1) == v / 512
  {
    assert Up(v, 0) == v;
  }

  lemma TablesCut(m: Memory, b0: seq<Word>, b2: seq<Word>, b3: seq<Word>, at0: Tables, at: Tables, root: nat, f: nat, i: nat)
    requires TreeOk(m, at, root) && f in at && at[f].level == 2 && i < ENTRIES && EntryOk(m, at, f, i)
    requires TablesMarked(b2, at) && TablesMarked(b0, at0) && OnlyTables(b0, b2, at0, at, 2)
    requires forall k: nat {:trigger Used(b3, k)} ::
               Used(b3, k) <==> Used(b2, k) && !(IsTableEntry(m[f][i], 2) && k == EntryFrame(m[f][i], 12))
    ensures TablesMarked(b3, Cut(m, at, f, i)) && TablesSwapped(b0, b3, at0, Cut(m, at, f, i), at[f].path * ENTRIES + i)
  {
    hide TreeOk, EntryFrame;
    var p := Pos(1, at[f].path * ENTRIES + i);
    forall g | g in at && at[g] == p
      ensures IsTableEntry(m[f][i], 2) && EntryFrame(m[f][i], 12) == g
    {
      TableHere(m, at, root, f, i, g);
    }
  }

  /** The table that stands under an entry is the one it points to. */
  lemma TableHere(m: Memory, at: Tables, root: nat, f: nat, i: nat, g: nat)
    requires TreeOk(m, at, root) && f in at && i < ENTRIES && g in at && at[f].level >= 2 && at[g] == ChildPos(at[f], i)
    ensures PointsTo(m, at, f, i, g)
  {
    TreeFacts(m, at, root, g, 0);
    TreeFacts(m, at, root, f, i);
    RootFacts(m, at, root);
    var x: nat, j: nat :| PointsTo(m, at, x, j, g);
    TreeFacts(m, at, root, x, 0);
    TreeFacts(m, at, root, x, j);
    SamePlace(at[x], j, at[f], i);
  }

  /** Under an entry that is not present no table stands. */
  lemma NoTableThere(m: Memory, at: Tables, root: nat, f: nat, i: nat)
    requires TreeOk(m, at, root) && f in at && i < ENTRIES && at[f].level >= 2 && EntryOk(m, at, f, i) && !IsPresent(m[f][i])
    ensures ChildPos(at[f], i) !in Places(at)
  {
    hide TreeOk;
    forall g | g in at
      ensures at[g] != ChildPos(at[f], i)
    {
      if at[g] == ChildPos(at[f], i) { TableHere(m, at, root, f, i, g); }
    }
  }

  lemma UpperCut(m: Memory, at: Tables, f: nat, i: nat)
    requires EntryOk(m, at, f, i) && at[f].level == 2
    ensures Upper(Places(Cut(m, at, f, i))) == Upper(Places(at))
  {
    var at' := Cut(m, at, f, i);
    forall p | p in Upper(Places(at))
      ensures p in Places(at')
    {
      var g :| g in at && at[g] == p;
      assert g in at' && at'[g] == p;
    }
  }

  lemma TableAddr(e: Word)
    requires |e| == 64
    ensures Addr(e, 12) % 4096 == 0 && Addr(e, 12) / 4096 == EntryFrame(e, 12)
  {
    PageSizes();
    var q := AddrAligned(e, 12);
  }

  /** New tables were marked; the page table at one place, if there was one, was given back. */
  ghost predicate TablesSwapped(b: seq<Word>, b': seq<Word>, at: Tables, at': Tables, path: nat) {
    && (forall f <- at :: if at[f] == Pos(1, path) then f !in at' && !Used(b', f) else f in at' && at'[f] == at[f])
    && (forall f <- at' :: at'[f] != Pos(1, path))
    && (forall k: nat {:trigger Used(b', k)} | k !in at && k !in at' :: Used(b', k) <==> Used(b, k))
    && (forall k: nat | k in at' && k !in at :: !Used(b, k) && Used(b', k) && at'[k].level >= 2)
  }

  lemma TablesChain(b0: seq<Word>, b1: seq<Word>, b2: seq<Word>, at0: Tables, at1: Tables, at2: Tables, low: nat, low': nat)
    requires OnlyTables(b0, b1, at0, at1, low) && OnlyTables(b1, b2, at1, at2, low') && low' <= low && TablesMarked(b0, at0) && TablesMarked(b1, at1)
    ensures OnlyTables(b0, b2, at0, at2, low')
  {
    assert forall f <- at2 :: f in at1 || !Used(b1, f);
    forall k: nat
      ensures Used(b2, k) <==> Used(b0, k) || (k in at2 && k !in at0)
    {
      assert Used(b1, k) <==> Used(b0, k) || (k in at1 && k !in at0);
    }
  }

  /** What an entry for a page of the given level maps. */
  lemma LeafEntry(physical: nat, l: nat, write: bool, noExecute: bool)
    requires (if l == 1 then physical % PAGE == 0 else l == 2 && physical % (PAGE * 512) == 0) && physical < MAX_PHYSICAL
    ensures var e := MakeEntry(physical, l == 2, write, noExecute);
            && |e| == 64 && IsLeaf(e, l) && !IsTableEntry(e, l)
            && forall u: nat :: LeafMapping(e, l, u) == Mapped(physical / PAGE + Offset(u, l), l, write, noExecute)
  {
    hide MakeEntry;
    PageSizes();
    EntryRoundTrip(physical, l == 2, write, noExecute, LeafBit(l), if l == 1 then physical / PAGE else physical / (PAGE * 512));
  }

  /** Setting the entry of page v in table f: the pages under it change, and no others. */
  lemma LeafSet(m: Memory, at: Tables, root: nat, f: nat, v: nat, e: Word)
    requires f in at && CanSetLeaf(m, at, root, f, Index(v, at[f].level), e) && Under(at[f], v) && v < PAGES
    ensures var l, i := at[f].level, Index(v, at[f].level);
            var m' := SetEntry(m, f, i, e);
            && l > 0 && TreeOk(m', Cut(m, at, f, i), root)
            && (forall u: nat | u < PAGES && Up(u, l - 1) != Up(v, l - 1) :: Walk(m', root, 4, u) == Walk(m, root, 4, u))
            && (forall u: nat | u < PAGES && Up(u, l - 1) == Up(v, l - 1) ::
                  Walk(m', root, 4, u) == if IsPresent(e) then LeafMapping(e, l, u) else Unmapped)
            && (l == 1 ==> KeptOutside(m, m', root, v, v + 1))
  {
    hide TreeOk, CanSetLeaf, LeafMapping, Walk;
    var l, i := at[f].level, Index(v, at[f].level);
    SetLeaf(m, at, root, f, i, e);
    SetLeafView(m, at, root, f, i, e, 0);
    forall u: nat | u < PAGES
      ensures var m' := SetEntry(m, f, i, e);
              Walk(m', root, 4, u) ==
                if Up(u, l - 1) != Up(v, l - 1) then Walk(m, root, 4, u) else if IsPresent(e) then LeafMapping(e, l, u) else Unmapped
    {
      UpZero(u);
      SetLeafView(m, at, root, f, i, e, u);
    }
  }
}
