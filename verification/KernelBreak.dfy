/** The kernel heap's break (memory/heap_break.c) over the page tables: every page below it is mapped. */
module KernelBreak {
  import opened Words
  import opened Bitmap
  import opened Physical
  import opened PageTables
  import opened TableNeeds
  import opened Paging
  import opened HeapSteps
  import A = Arena

  /** The kernel's stack page, right below KERNEL_CODE_VIRTUAL, where its code pages start. */
  const STACK_PAGE: nat := 0xFFFF_FFFF_BFFF_F000

  const HALF: int := 0x8000_0000_0000_0000

  /** The number of the virtual page at an address. */
  function PageOf(a: nat): nat { a / PAGE % PAGES }

  lemma PageOfHigh(a: nat)
    requires HEAP_BASE <= a < ADDRESS_SPACE
    ensures PageOf(a) == (a - 0xFFFF_0000_0000_0000) / PAGE
  {
    assert a / PAGE == 0xF_FFF0_0000_0000 + (a - 0xFFFF_0000_0000_0000) / PAGE;
  }

  /** Mapped for reading and writing, and not for execution where the processor can forbid that. */
  predicate MappedForHeap(r: Mapping, supportsNoExecute: bool) {
    r.Mapped? && r.size == 1 && r.write && r.noExecute == supportsNoExecute
  }

  /** The page is mapped to a frame that is in use. */
  ghost predicate Taken(r: Mapping, b: seq<Word>) { r.Mapped? && Used(b, r.frame) }

  /** The pages are mapped to frames that were not in use. */
  ghost predicate FreshFrames(m: Memory, root: nat, first: nat, n: nat, b: seq<Word>) {
    forall u: nat | first <= u < first + n :: Walk(m, root, 4, u).Mapped? && !Used(b, Walk(m, root, 4, u).frame)
  }

  ghost predicate HeapMapped(m: Memory, root: nat, begin: nat, end: nat, supportsNoExecute: bool) {
    forall u: nat | begin <= u < end :: MappedForHeap(Walk(m, root, 4, u), supportsNoExecute)
  }

  class HeapBreak {
    var heapBreak: nat
    var pageBreak: nat
    const pages: PageMap
    const buf: array<nat>

    /** Up to pageBreak the heap is mapped, page by page, for writing and not for execution. */
    ghost predicate Valid()
      reads this, pages, pages.phys, pages.phys.bitmap
    {
      && HEAP_BASE <= heapBreak <= pageBreak < ADDRESS_SPACE && pageBreak % PAGE == 0 && pages.Inv() && buf.Length == 2048
      && HeapMapped(pages.phys.mem, pages.root, PageOf(HEAP_BASE), PageOf(pageBreak), pages.supportsNoExecute)
    }

    constructor (pages: PageMap, buf: array<nat>)
      requires pages.Inv() && buf.Length == 2048
      ensures Valid() && heapBreak == HEAP_BASE && this.pages == pages && this.buf == buf
    {
      heapBreak, pageBreak := HEAP_BASE, HEAP_BASE;
      this.pages, this.buf := pages, buf;
    }

    /** Pages that moving the break takes. */
    ghost function NewPages(inc: int): nat
      reads this
    {
      var b := Moved(heapBreak, inc);
      if b > pageBreak then (b - pageBreak + PAGE - 1) / PAGE else 0
    }

    /** memory_AddBreak. It does not look at what the new pages hold: on their way may be no huge page,
        and there must be frames for them and for the page tables they lack. A page in use behind the
        heap, such as the kernel's stack and code, keeps its translation exactly when the break does not
        move past its start. */
    method AddBreak(inc: int) returns (br: int)
      requires Valid() && -HALF <= inc < HALF && pageBreak + PAGE * NewPages(inc) < ADDRESS_SPACE
      requires SmallOnly(pages.phys.mem, pages.root, PageOf(pageBreak), PageOf(pageBreak) + NewPages(inc))
      requires pages.phys.Available() >= NewPages(inc) + Missing(Places(pages.at), Paths(PageOf(pageBreak), NewPages(inc), false))
      modifies this`heapBreak, this`pageBreak, buf
      modifies pages.phys`phy_i, pages.phys`mem, pages.phys`live, pages.phys.bitmap, pages`at
      ensures Valid() && heapBreak == Moved(old(heapBreak), inc) && pageBreak == old(pageBreak) + PAGE * old(NewPages(inc))
      ensures br == if Moves(old(heapBreak), inc) then old(heapBreak) else CMFAIL
      ensures var b := (old(heapBreak) + inc) % 0x1_0000_0000_0000_0000;
              if b < 0xFFFF_FFFF_0000_0000 then heapBreak == old(heapBreak) && pageBreak == old(pageBreak) && br == -1
              else heapBreak == b && br == old(heapBreak) && (b <= old(pageBreak) ==> pageBreak == old(pageBreak))
                   && (b > old(pageBreak) ==> pageBreak % 4096 == 0 && b <= pageBreak < b + 4096)
      ensures KeptOutside(old(pages.phys.mem), pages.phys.mem, pages.root, PageOf(old(pageBreak)), PageOf(old(pageBreak)) + old(NewPages(inc)))
      ensures FreshFrames(pages.phys.mem, pages.root, PageOf(old(pageBreak)), old(NewPages(inc)), old(pages.phys.bitmap[..]))
      ensures forall a: nat | HEAP_BASE <= a < pageBreak ::
                var r := pages.View(PageOf(a)); r.Mapped? && r.size == 1 && r.write && r.noExecute == pages.supportsNoExecute
      ensures forall a: nat | old(pageBreak) <= a < ADDRESS_SPACE && a % PAGE == 0 && Taken(old(pages.View(PageOf(a))), old(pages.phys.bitmap[..])) ::
                pages.View(PageOf(a)) == old(pages.View(PageOf(a))) <==> Moved(old(heapBreak), inc) <= a
    {
      hide TreeOk, LiveOk, Left, WellFormed, TablesMarked, Walk, Missing, Places, Paths, HeapMapped, Used;
      var moved := (heapBreak + inc) % ADDRESS_SPACE;
      ghost var m, b, first, n, p0, to := pages.phys.mem, pages.phys.bitmap[..], PageOf(pageBreak), NewPages(inc), pageBreak, Moved(heapBreak, inc);
      if moved < HEAP_BASE {
        KeptIff(m, pages.phys.mem, b, pages.root, p0, n, to);
        BytesMapped(pages.phys.mem, pages.root, pageBreak, pages.supportsNoExecute);
        return CMFAIL;
      }
      heapBreak := moved;
      if heapBreak > pageBreak { MapMore(); }
      KeptIff(m, pages.phys.mem, b, pages.root, p0, n, to);
      BytesMapped(pages.phys.mem, pages.root, pageBreak, pages.supportsNoExecute);
      return (heapBreak - inc) % ADDRESS_SPACE;
    }

    ghost function Short(): nat
      reads this
    {
      if heapBreak > pageBreak then (heapBreak - pageBreak + PAGE - 1) / PAGE else 0
    }

    /** The part of memory_AddBreak that maps more pages. */
    method MapMore()
      requires HEAP_BASE <= pageBreak < heapBreak && pageBreak + PAGE * Short() < ADDRESS_SPACE && pageBreak % PAGE == 0
      requires pages.Inv() && buf.Length == 2048 && HeapMapped(pages.phys.mem, pages.root, PageOf(HEAP_BASE), PageOf(pageBreak), pages.supportsNoExecute)
      requires SmallOnly(pages.phys.mem, pages.root, PageOf(pageBreak), PageOf(pageBreak) + Short())
      requires pages.phys.Available() >= Short() + Missing(Places(pages.at), Paths(PageOf(pageBreak), Short(), false))
      modifies this`pageBreak, buf
      modifies pages.phys`phy_i, pages.phys`mem, pages.phys`live, pages.phys.bitmap, pages`at
      ensures Valid() && pageBreak == old(pageBreak) + PAGE * old(Short())
      ensures KeptOutside(old(pages.phys.mem), pages.phys.mem, pages.root, PageOf(old(pageBreak)), PageOf(old(pageBreak)) + old(Short()))
      ensures FreshFrames(pages.phys.mem, pages.root, PageOf(old(pageBreak)), old(Short()), old(pages.phys.bitmap[..]))
    {
      hide TreeOk, LiveOk, Left, WellFormed, TablesMarked, Walk, Missing, Places, Paths, PagesTaken, HeapMapped, MappedList, SmallOnly, Used;
      ghost var m, b, at0, first := pages.phys.mem, pages.phys.bitmap[..], pages.at, PageOf(pageBreak);
      var pageCount := (heapBreak - pageBreak + PAGE - 1) / PAGE;
      PageOfHigh(HEAP_BASE);
      PageOfHigh(pageBreak);
      PageOfHigh(pageBreak + PAGE * pageCount);
      ghost var got := pages.PageAllocated(PageOf(pageBreak), pageCount, true, false, buf);
      HeapExtended(m, pages.phys.mem, pages.root, PageOf(HEAP_BASE), first, got, pages.supportsNoExecute);
      ListFresh(pages.phys.mem, pages.root, first, got, pages.supportsNoExecute, b, pages.phys.bitmap[..], at0, pages.at);
      pageBreak := pageBreak + PAGE * pageCount;
    }
  }

  lemma BytesMapped(m: Memory, root: nat, pageBreak: nat, noExecute: bool)
    requires HEAP_BASE <= pageBreak < ADDRESS_SPACE && pageBreak % PAGE == 0
    requires HeapMapped(m, root, PageOf(HEAP_BASE), PageOf(pageBreak), noExecute)
    ensures forall a: nat | HEAP_BASE <= a < pageBreak ::
              var r := Walk(m, root, 4, PageOf(a)); r.Mapped? && r.size == 1 && r.write && r.noExecute == noExecute
  {
    hide Walk, PageOf;
    forall a: nat | HEAP_BASE <= a < pageBreak
      ensures MappedForHeap(Walk(m, root, 4, PageOf(a)), noExecute)
    {
      PageOfHigh(HEAP_BASE);
      PageOfHigh(a);
      PageOfHigh(pageBreak);
    }
  }

  lemma ListFresh(m: Memory, root: nat, first: nat, got: seq<nat>, noExecute: bool, b: seq<Word>, b': seq<Word>, at: Tables, at': Tables)
    requires MappedList(m, root, first, got, true, noExecute) && PagesTaken(b, b', at, at', got)
    ensures FreshFrames(m, root, first, |got|, b)
  {
    hide Walk, Used;
    forall u: nat | first <= u < first + |got|
      ensures Walk(m, root, 4, u).Mapped? && !Used(b, Walk(m, root, 4, u).frame)
    {
      assert Walk(m, root, 4, u) == Mapped(got[u - first], 1, true, noExecute);
    }
  }

  /** Which pages from pageBreak on keep their translation when the break moves to `to`. */
  lemma KeptIff(m: Memory, m': Memory, b: seq<Word>, root: nat, pageBreak: nat, n: nat, to: nat)
    requires HEAP_BASE <= pageBreak && pageBreak % PAGE == 0 && pageBreak + PAGE * n < ADDRESS_SPACE
    requires n == if to > pageBreak then (to - pageBreak + PAGE - 1) / PAGE else 0
    requires KeptOutside(m, m', root, PageOf(pageBreak), PageOf(pageBreak) + n) && FreshFrames(m', root, PageOf(pageBreak), n, b)
    ensures forall a: nat | pageBreak <= a < ADDRESS_SPACE && a % PAGE == 0 && Taken(Walk(m, root, 4, PageOf(a)), b) ::
              Walk(m', root, 4, PageOf(a)) == Walk(m, root, 4, PageOf(a)) <==> to <= a
  {
    hide Walk, Used, PageOf;
    forall a: nat | pageBreak <= a < ADDRESS_SPACE && a % PAGE == 0 && Taken(Walk(m, root, 4, PageOf(a)), b)
      ensures Walk(m', root, 4, PageOf(a)) == Walk(m, root, 4, PageOf(a)) <==> to <= a
    {
      PageOfHigh(pageBreak);
      PageOfHigh(a);
      PastPage(pageBreak, n, to, a);
    }
  }

  lemma PastPage(pageBreak: nat, n: nat, to: nat, a: nat)
    requires HEAP_BASE <= pageBreak <= a < ADDRESS_SPACE && pageBreak % PAGE == 0 && a % PAGE == 0
    requires n == if to > pageBreak then (to - pageBreak + PAGE - 1) / PAGE else 0
    ensures (a - 0xFFFF_0000_0000_0000) / PAGE < (pageBreak - 0xFFFF_0000_0000_0000) / PAGE + n <==> to > a
    ensures (a - 0xFFFF_0000_0000_0000) / PAGE >= (pageBreak - 0xFFFF_0000_0000_0000) / PAGE
    ensures (a - 0xFFFF_0000_0000_0000) / PAGE < PAGES
  {
  }

  /** With the heap grown to the kernel's stack, one more byte takes the stack page from the kernel. */
  method LosesTheStack(h: HeapBreak)
    requires h.Valid() && h.heapBreak == h.pageBreak == STACK_PAGE
    requires h.pages.View(PageOf(STACK_PAGE)).Mapped? && h.pages.View(PageOf(STACK_PAGE)).size == 1
    requires Used(h.pages.phys.bitmap[..], h.pages.View(PageOf(STACK_PAGE)).frame)
    requires h.pages.phys.Available() >= 1 + Missing(Places(h.pages.at), Paths(PageOf(STACK_PAGE), 1, false))
    modifies h`heapBreak, h`pageBreak, h.buf
    modifies h.pages.phys`phy_i, h.pages.phys`mem, h.pages.phys`live, h.pages.phys.bitmap, h.pages`at
    ensures h.Valid() && h.pages.View(PageOf(STACK_PAGE)) != old(h.pages.View(PageOf(STACK_PAGE)))
  {
    hide TreeOk, LiveOk, Left, WellFormed, TablesMarked, Walk, Missing, Places, Paths, HeapMapped, Used;
    PageOfHigh(STACK_PAGE);
    assert h.NewPages(1) == 1;
    var br := h.AddBreak(1);
  }

  lemma HeapExtended(m: Memory, m': Memory, root: nat, base: nat, first: nat, got: seq<nat>, noExecute: bool)
    requires first + |got| <= PAGES && KeptOutside(m, m', root, first, first + |got|) && MappedList(m', root, first, got, true, noExecute)
    requires HeapMapped(m, root, base, first, noExecute)
    ensures HeapMapped(m', root, base, first + |got|, noExecute)
  {
    hide Walk;
    forall u: nat | base <= u < first + |got|
      ensures MappedForHeap(Walk(m', root, 4, u), noExecute)
    {
      if u < first { assert Walk(m', root, 4, u) == Walk(m, root, 4, u); }
    }
  }

  /** Every byte of every chunk, and of top, is on a page that is mapped for writing and not for
      execution. */
  lemma HeapIsMapped(b: HeapBreak, a: A.Arena, dv: int, dvsize: nat, p: int, x: nat)
    requires b.Valid() && Ready(a, dv, dvsize, b.heapBreak)
    requires (p in a.chunks && p <= x < p + A.Size(a, p)) || a.top <= x < a.top + a.topsize
    ensures var r := b.pages.View(PageOf(x)); r.Mapped? && r.size == 1 && r.write && r.noExecute == b.pages.supportsNoExecute
  {
    hide Walk;
    ChunkWithin(a, dv, dvsize, b.heapBreak, p);
    PageOfHigh(HEAP_BASE);
    PageOfHigh(x);
    PageOfHigh(b.pageBreak);
  }

  lemma ChunkWithin(a: A.Arena, dv: int, dvsize: nat, brk: nat, p: int)
    requires Ready(a, dv, dvsize, brk)
    ensures HEAP_BASE <= a.top && a.top + a.topsize < brk
    ensures p in a.chunks ==> HEAP_BASE <= p && p + A.Size(a, p) <= a.top
  {
    A.EdgeFacts(a);
    if p in a.chunks { A.ChunkFacts(a, p); }
  }
}
