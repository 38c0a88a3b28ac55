/** sys/src/lib/elf.c: loading the segments of an executable through the page tables. */
module Elf {
  import opened Words
  import opened Paging
  import opened Forest
  import opened Flat
  import opened Calls
  import opened Bitmap
  import opened FlatMmap
  import opened Spaces
  import opened Machines
  import opened Mmap
  import Vmm

  const PT_LOAD: nat := 1

  datatype Phdr = Phdr(kind: nat, offset: nat, paddr: nat, filesz: nat, memsz: nat)

  // ---- pages with a frame of their own -----------------------------------------------------------

  ghost function FrameFor(mem: seq<Frame>, r: nat, p: Page): nat {
    FrameOf(Leaf(mem, r, p))
  }

  /** p is mapped to a frame that belongs to it: in use, but no table and no bitmap. */
  ghost predicate Owned(w: World, r: nat, p: Page) {
    && Present(Leaf(w.mem, r, p))
    && FrameFor(w.mem, r, p) < |w.mem|
    && FrameFor(w.mem, r, p) !in w.free && FrameFor(w.mem, r, p) !in w.tabs && FrameFor(w.mem, r, p) !in w.meta
  }

  /** What `mmap` leaves behind: every page owns a zeroed frame, taken from the free set w0.free,
      and no two share one. */
  ghost predicate Fresh(w0: World, w: World, r: nat, pages: seq<Page>) {
    && (forall k :: 0 <= k < |pages| ==> FreshPage(w0, w, r, pages[k]))
    && (forall j, k :: 0 <= j < k < |pages| ==> FrameFor(w.mem, r, pages[j]) != FrameFor(w.mem, r, pages[k]))
  }

  ghost predicate FreshPage(w0: World, w: World, r: nat, p: Page) {
    Owned(w, r, p) && FrameFor(w.mem, r, p) in w0.free && w.mem[FrameFor(w.mem, r, p)] == ZeroFrame()
  }

  // ---- a fully successful mmap -------------------------------------------------------------------

  /** Success of the whole loop is success of a first part and then of the rest. */
  lemma {:induction false} AllMappedSplit(a: Flat, init: seq<Page>, rest: seq<Page>, flags: Word)
    requires Bounded(a) && AllMapped(a, init + rest, flags)
    ensures AllMapped(a, init, flags)
    ensures var b := FlatMmap.Mmap(a, init, flags).0; Bounded(b) && AllMapped(b, rest, flags)
    decreases |init|
  {
    if init == [] {
      assert init + rest == rest;
    } else {
      assert (init + rest)[1..] == init[1..] + rest;
      NextFrees(a, init[0], flags);
      AllMappedSplit(MapNext(a, init[0], flags), init[1..], rest, flags);
    }
  }

  /** One successful turn gives its page a fresh frame. */
  lemma TurnGivesPage(w: World, w1: World, w': World, r: nat, p: Page, f: nat, flags: Word)
    requires Inv(w) && IsRoot(w, r) && TurnDoes(w, w1, w', r, p, f, flags)
    requires FlagsOnly(flags) && Present(flags) && TableFor(w'.mem, r, p).Some?
    ensures Inv(w') && FreshPage(w, w', r, p) && FrameFor(w'.mem, r, p) == f
  {
    var e := EntryFor(4096 * f, flags);
    AllocKeeps(w, w1, f);
    StoreIsExact(w1, w', r, p, e);
    LeafEntry(f, flags);
    assert Leaf(w'.mem, r, p) == e;
    assert f !in w1.free && f !in w1.tabs && f !in w1.meta;
    assert f !in w'.tabs;
    assert w'.mem[f] == w1.mem[f];
  }

  /** A later turn for another page leaves an owned page and its frame's contents alone. */
  lemma TurnKeepsPage(w: World, w1: World, w': World, r: nat, p: Page, f: nat, flags: Word, q: Page)
    requires Inv(w) && IsRoot(w, r) && TurnDoes(w, w1, w', r, p, f, flags)
    requires Owned(w, r, q) && q != p
    ensures Owned(w', r, q) && FrameFor(w'.mem, r, q) == FrameFor(w.mem, r, q)
    ensures w'.mem[FrameFor(w.mem, r, q)] == w.mem[FrameFor(w.mem, r, q)]
    ensures f != FrameFor(w.mem, r, q)
  {
    TurnKeeps(w, w1, w', r, p, f, flags);
    assert Leaf(w'.mem, r, q) == Leaf(w.mem, r, q);
  }

  lemma LastWalkSucceeds(a: Flat, b: Flat, init: seq<Page>, last: Page, flags: Word)
    requires Bounded(a) && AllMapped(a, init + [last], flags) && b == FlatMmap.Mmap(a, init, flags).0
    ensures AllMapped(a, init, flags) && Bounded(b) && b.free != {}
    ensures PathOf(last) in MapNext(b, last, flags).tables
  {
    AllMappedSplit(a, init, [last], flags);
    WalkTables(Taken(b), last);
  }

  lemma FlatAfterTurns(w: World, mid: World, r: nat, init: seq<Page>, flags: Word)
    requires Inv(w) && IsRoot(w, r) && TurnsDo(w, mid, r, init, flags)
    ensures Inv(mid) && IsRoot(mid, r) && Bounded(FlatOf(w, r))
    ensures FlatOf(mid, r) == FlatMmap.Mmap(FlatOf(w, r), init, flags).0
  {
    TurnsKeepRoot(w, mid, r, init, flags);
    assert init[..|init|] == init && init[|init|..] == [];
    TurnsRefineUpTo(w, mid, r, init, |init|, flags);
  }

  lemma LastTurnFindsTable(w: World, mid: World, w1: World, w': World, r: nat, init: seq<Page>, last: Page, f: nat,
                           flags: Word)
    requires Inv(w) && IsRoot(w, r) && TurnsDo(w, mid, r, init, flags) && TurnDoes(mid, w1, w', r, last, f, flags)
    requires Bounded(FlatOf(w, r)) && AllMapped(FlatOf(w, r), init + [last], flags)
    ensures Inv(mid) && IsRoot(mid, r) && AllMapped(FlatOf(w, r), init, flags) && TableFor(w'.mem, r, last).Some?
  {
    FlatAfterTurns(w, mid, r, init, flags);
    LastWalkSucceeds(FlatOf(w, r), FlatOf(mid, r), init, last, flags);
    TurnRefines(mid, w1, w', r, last, f, flags);
    TableForIsTableAt(w'.mem, r, last);
  }

  lemma TurnKeepsFresh(w: World, mid: World, w1: World, w': World, r: nat, init: seq<Page>, last: Page, f: nat,
                       flags: Word)
    requires Inv(mid) && IsRoot(mid, r) && TurnDoes(mid, w1, w', r, last, f, flags)
    requires Fresh(w, mid, r, init) && last !in init
    ensures Fresh(w, w', r, init)
    ensures forall k :: 0 <= k < |init| ==> FrameFor(w'.mem, r, init[k]) != f
  {
    forall k | 0 <= k < |init|
      ensures FreshPage(w, w', r, init[k]) && FrameFor(w'.mem, r, init[k]) == FrameFor(mid.mem, r, init[k])
      ensures FrameFor(w'.mem, r, init[k]) != f
    {
      assert FreshPage(w, mid, r, init[k]);
      TurnKeepsPage(mid, w1, w', r, last, f, flags, init[k]);
    }
  }

  /** A fully successful `mmap` backs its pages with fresh frames. */
  lemma {:induction false} TurnsGivePages(w: World, w': World, r: nat, pages: seq<Page>, flags: Word)
    requires Inv(w) && IsRoot(w, r) && TurnsDo(w, w', r, pages, flags) && Distinct(pages)
    requires FlagsOnly(flags) && Present(flags)
    requires Bounded(FlatOf(w, r)) && AllMapped(FlatOf(w, r), pages, flags)
    ensures Fresh(w, w', r, pages)
    decreases |pages|
  {
    if pages != [] {
      var init, last := pages[..|pages| - 1], pages[|pages| - 1];
      DistinctSplit(pages, init, last);
      var mid: World, w1: World, f: nat :| TurnsDo(w, mid, r, init, flags) && TurnDoes(mid, w1, w', r, last, f, flags);
      LastTurnFindsTable(w, mid, w1, w', r, init, last, f, flags);
      TurnsGivePages(w, mid, r, init, flags);
      OneMorePage(w, mid, w1, w', r, pages, init, last, f, flags);
    }
  }

  lemma DistinctSplit(pages: seq<Page>, init: seq<Page>, last: Page)
    requires pages != [] && init == pages[..|pages| - 1] && last == pages[|pages| - 1] && Distinct(pages)
    ensures pages == init + [last] && Distinct(init) && last !in init
  {
  }

  lemma OneMorePage(w: World, mid: World, w1: World, w': World, r: nat, pages: seq<Page>, init: seq<Page>, last: Page,
                    f: nat, flags: Word)
    requires Inv(w) && IsRoot(w, r) && Inv(mid) && IsRoot(mid, r) && FlagsOnly(flags) && Present(flags)
    requires pages == init + [last] && last !in init && TurnsDo(w, mid, r, init, flags)
    requires TurnDoes(mid, w1, w', r, last, f, flags) && TableFor(w'.mem, r, last).Some? && Fresh(w, mid, r, init)
    ensures Fresh(w, w', r, pages)
  {
    TurnKeepsFresh(w, mid, w1, w', r, init, last, f, flags);
    LastPageFresh(w, mid, w1, w', r, init, last, f, flags);
    AppendFresh(w, w', r, pages, init, f);
  }

  lemma LastPageFresh(w: World, mid: World, w1: World, w': World, r: nat, init: seq<Page>, last: Page, f: nat,
                      flags: Word)
    requires Inv(w) && IsRoot(w, r) && TurnsDo(w, mid, r, init, flags) && Inv(mid) && IsRoot(mid, r)
    requires TurnDoes(mid, w1, w', r, last, f, flags) && FlagsOnly(flags) && Present(flags)
    requires TableFor(w'.mem, r, last).Some?
    ensures FreshPage(w, w', r, last) && FrameFor(w'.mem, r, last) == f
  {
    TurnGivesPage(mid, w1, w', r, last, f, flags);
    TurnsKeep(w, mid, r, init, flags);
  }

  lemma AppendFresh(w: World, w': World, r: nat, pages: seq<Page>, init: seq<Page>, f: nat)
    requires pages != [] && init == pages[..|pages| - 1]
    requires Fresh(w, w', r, init) && FreshPage(w, w', r, pages[|pages| - 1])
    requires FrameFor(w'.mem, r, pages[|pages| - 1]) == f
    requires forall k :: 0 <= k < |init| ==> FrameFor(w'.mem, r, init[k]) != f
    ensures Fresh(w, w', r, pages)
  {
    forall k | 0 <= k < |pages| ensures FreshPage(w, w', r, pages[k]) {
      if k < |init| { assert FreshPage(w, w', r, init[k]); }
    }
    forall j, k | 0 <= j < k < |pages| ensures FrameFor(w'.mem, r, pages[j]) != FrameFor(w'.mem, r, pages[k]) {
      assert init[j] == pages[j];
      if k < |init| { assert init[k] == pages[k]; }
    }
  }

  // ---- cells: what a virtual address stands for --------------------------------------------------

  /** A byte of physical memory. */
  datatype Cell = Cell(frame: nat, offset: nat)

  function Peek(mem: seq<Frame>, c: Cell): Byte {
    ReadByte(mem, c.frame, c.offset)
  }

  ghost predicate InMemory(mem: seq<Frame>, c: Cell) {
    c.frame < |mem| && c.offset < 4096
  }

  function Poke(mem: seq<Frame>, c: Cell, b: Byte): seq<Frame>
    requires c.frame < |mem| && c.offset < 4096
  {
    WriteByte(mem, c.frame, c.offset, b)
  }

  lemma PeekPoke(mem: seq<Frame>, c: Cell, b: Byte, d: Cell)
    requires InMemory(mem, c) && InMemory(mem, d)
    ensures Peek(Poke(mem, c, b), d) == if d == c then b else Peek(mem, d)
    ensures |Poke(mem, c, b)| == |mem|
    ensures forall g :: 0 <= g < |mem| && g != c.frame ==> Poke(mem, c, b)[g] == mem[g]
  {
    WriteByteFrame(mem, c.frame, c.offset, b);
    if c.frame == d.frame {
      ReadWritten(mem, c.frame, c.offset, b, d.offset);
    }
  }

  /** The page of a virtual address. */
  function PageAtAddr(v: nat): Page { PageAt(v / 4096) }

  /** Where the page tables of root r send the virtual address v. */
  ghost function CellAt(mem: seq<Frame>, r: nat, v: nat): Cell {
    Cell(FrameFor(mem, r, PageAtAddr(v)), v % 4096)
  }

  /** The cell is in use, and part of no table and of no bitmap. */
  ghost predicate OwnedCell(w: World, c: Cell) {
    InMemory(w.mem, c) && c.frame !in w.free && c.frame !in w.tabs && c.frame !in w.meta
  }

  /** `*(char*)v = b` at the cell that v stands for. */
  ghost predicate PokeDoes(w: World, w': World, c: Cell, b: Byte) {
    OwnedCell(w, c) && w' == World(Poke(w.mem, c, b), w.free, w.tabs, w.meta)
  }

  lemma PokeKeeps(w: World, w': World, c: Cell, b: Byte)
    requires Inv(w) && PokeDoes(w, w', c, b)
    ensures Inv(w') && SameLeaves(w, w') && |w'.mem| == |w.mem|
    ensures forall g :: 0 <= g < |w.mem| && g != c.frame ==> w'.mem[g] == w.mem[g]
  {
    PeekPoke(w.mem, c, b, c);
    assert w'.mem == w.mem[c.frame := w'.mem[c.frame]];
    DataKeeps(w, w', c.frame, w'.mem[c.frame]);
  }

  /** A store through the page tables of the current address space; v, a canonical address, stands
      for the cell c. */
  method StoreVirtual(m: Machine, v: Word, b: Byte, ghost c: Cell)
    requires m.Valid() && m.Synced() && Canonical(v)
    requires c == CellAt(m.ram[..], m.cr3 / 4096, v) && OwnedCell(m.State(), c)
    modifies m.ram
    ensures m.Valid() && m.Synced()
    ensures PokeDoes(old(m.State()), m.State(), c, b)
  {
    ghost var w := m.State();
    var f := FrameOf(Leaf(m.ram[..], m.cr3 / 4096, PageAtAddr(v)));
    StoreRamByte(m, f, v % 4096, b);
    PokeKeeps(w, m.State(), c, b);
  }

  method StoreRamByte(m: Machine, f: nat, k: nat, b: Byte)
    requires m.bitmapSize % 4096 == 0 && f < m.ram.Length && k < 4096
    requires f !in BitmapFrames(m.bitmap, m.bitmapSize)
    modifies m.ram
    ensures m.ram[..] == WriteByte(old(m.ram[..]), f, k, b) && m.State().free == old(m.State().free)
  {
    ghost var mem := m.ram[..];
    m.ram[f] := m.ram[f][k / 8 := PutWordByte(m.ram[f][k / 8], k % 8, b)];
    assert m.ram[..] == WriteByte(mem, f, k, b);
    ClearElsewhere(mem, m.ram[..], m.bitmap, m.bitmapSize);
  }

  // ---- segments ----------------------------------------------------------------------------------

  /** `p_memsz + 0x1000 - 1`: taken as a number of pages, without a division. */
  function PageCount(seg: Phdr): nat { seg.memsz + 4095 }

  ghost function SegPages(seg: Phdr): seq<Page> {
    Pages(seg.paddr / 4096, PageCount(seg))
  }

  /** What the source asks of a segment: it fits the file, its page count fits an int, and the
      pages mapped for it are canonical addresses, without wrapping round. */
  ghost predicate GoodSegment(file: seq<Byte>, seg: Phdr) {
    && seg.filesz <= seg.memsz && seg.offset + seg.filesz <= |file|
    && PageCount(seg) < 0x8000_0000
    && CanonicalRange(seg.paddr / 4096, PageCount(seg))
  }

  /** Page number n is one of those mapped for segment t. */
  predicate MappedFor(t: Phdr, n: nat) {
    t.paddr / 4096 <= n < t.paddr / 4096 + PageCount(t)
  }

  /** Address v lies on a page mapped for segment t. */
  predicate MapsAddr(t: Phdr, v: nat) { MappedFor(t, v / 4096) }

  /** Index of the page of address v among those mapped for a segment. */
  function PageIndex(seg: Phdr, v: nat): int { v / 4096 - seg.paddr / 4096 }

  lemma AddrPage(seg: Phdr, v: nat)
    requires MapsAddr(seg, v)
    ensures 0 <= PageIndex(seg, v) < PageCount(seg)
    ensures PageAtAddr(v) == SegPages(seg)[PageIndex(seg, v)]
  {
    PagesAt(seg.paddr / 4096, PageCount(seg), PageIndex(seg, v));
  }

  lemma SegmentMaps(seg: Phdr, i: nat)
    requires i < seg.memsz
    ensures MapsAddr(seg, seg.paddr + i)
  {
  }

  lemma SegmentAddress(file: seq<Byte>, seg: Phdr, i: nat)
    requires GoodSegment(file, seg) && i < seg.memsz
    ensures seg.paddr + i < WORD_LIMIT && Canonical(seg.paddr + i)
  {
  }

  /** The cells of a segment's bytes, in order. */
  ghost predicate CellsOf(mem: seq<Frame>, r: nat, seg: Phdr, cells: seq<Cell>) {
    |cells| == seg.memsz && forall i :: 0 <= i < |cells| ==> cells[i] == CellAt(mem, r, seg.paddr + i)
  }

  /** The cells belong to the segment, lie in frames that were free in w0, and are distinct. */
  ghost predicate OwnCells(w0: World, w: World, cells: seq<Cell>) {
    && (forall i :: 0 <= i < |cells| ==> OwnedCell(w, cells[i]) && cells[i].frame in w0.free)
    && (forall i, j :: 0 <= i < j < |cells| ==> cells[i] != cells[j])
  }

  ghost function SegCells(mem: seq<Frame>, r: nat, seg: Phdr): (cells: seq<Cell>)
    ensures CellsOf(mem, r, seg, cells)
  {
    seq(seg.memsz, i requires 0 <= i < seg.memsz => CellAt(mem, r, seg.paddr + i))
  }

  lemma FreshCell(w0: World, w: World, r: nat, seg: Phdr, v: nat)
    requires Fresh(w0, w, r, SegPages(seg)) && MapsAddr(seg, v)
    ensures Present(Leaf(w.mem, r, PageAtAddr(v)))
    ensures var c := CellAt(w.mem, r, v);
            OwnedCell(w, c) && c.frame in w0.free && Peek(w.mem, c) == 0
  {
    AddrPage(seg, v);
    assert FreshPage(w0, w, r, SegPages(seg)[PageIndex(seg, v)]);
    ZeroFrameByte(w.mem, CellAt(w.mem, r, v).frame, v % 4096);
  }

  /** Different addresses on the pages of a segment stand for different cells. */
  lemma CellsDiffer(w0: World, w: World, r: nat, seg: Phdr, u: nat, v: nat)
    requires Fresh(w0, w, r, SegPages(seg)) && MapsAddr(seg, u) && MapsAddr(seg, v) && u != v
    ensures CellAt(w.mem, r, u) != CellAt(w.mem, r, v)
  {
    AddrPage(seg, u);
    AddrPage(seg, v);
    var k, l := PageIndex(seg, u), PageIndex(seg, v);
    if k != l {
      FramesDiffer(w0, w, r, SegPages(seg), k, l);
    } else {
      SamePageOffsets(u, v);
    }
  }

  lemma FramesDiffer(w0: World, w: World, r: nat, pages: seq<Page>, k: nat, l: nat)
    requires Fresh(w0, w, r, pages) && k < |pages| && l < |pages| && k != l
    ensures FrameFor(w.mem, r, pages[k]) != FrameFor(w.mem, r, pages[l])
  {
  }

  lemma SamePageOffsets(u: nat, v: nat)
    requires u / 4096 == v / 4096 && u != v
    ensures u % 4096 != v % 4096
  {
  }

  lemma ZeroFrameByte(mem: seq<Frame>, f: nat, k: nat)
    requires f < |mem| && mem[f] == ZeroFrame() && k < 4096
    ensures ReadByte(mem, f, k) == 0
  {
    ZeroByte(k % 8);
  }

  lemma {:induction false} ZeroByte(k: nat)
    ensures ByteOf(0, k) == 0
  {
    if k > 0 { ZeroByte(k - 1); }
  }

  /** What `mmap` gives a segment: distinct zeroed cells of its own. */
  lemma FreshCells(w0: World, w: World, r: nat, seg: Phdr, cells: seq<Cell>)
    requires Fresh(w0, w, r, SegPages(seg)) && CellsOf(w.mem, r, seg, cells)
    ensures OwnCells(w0, w, cells)
    ensures forall i :: 0 <= i < |cells| ==> Peek(w.mem, cells[i]) == 0
  {
    forall i | 0 <= i < |cells|
      ensures OwnedCell(w, cells[i]) && cells[i].frame in w0.free && Peek(w.mem, cells[i]) == 0
    {
      SegmentMaps(seg, i);
      FreshCell(w0, w, r, seg, seg.paddr + i);
    }
    forall i, j | 0 <= i < j < |cells| ensures cells[i] != cells[j] {
      SegmentMaps(seg, i);
      SegmentMaps(seg, j);
      CellsDiffer(w0, w, r, seg, seg.paddr + i, seg.paddr + j);
    }
  }

  // ---- copying a segment -------------------------------------------------------------------------

  /** Byte i of the image when n bytes have been copied: the file's, then zeros. */
  function Expected(file: seq<Byte>, seg: Phdr, n: nat, i: nat): Byte {
    if i < n && seg.offset + i < |file| then file[seg.offset + i] else 0
  }

  ghost predicate Bytes(mem: seq<Frame>, cells: seq<Cell>, file: seq<Byte>, seg: Phdr, n: nat) {
    forall i :: 0 <= i < |cells| ==> Peek(mem, cells[i]) == Expected(file, seg, n, i)
  }

  /** What the copying loop never changes: translations, frames' roles, and every frame that
      was in use in w0. */
  ghost predicate Moving(w0: World, w1: World, w: World, r: nat) {
    && Inv(w) && IsRoot(w, r) && SameLeaves(w1, w)
    && w.free == w1.free && w.tabs == w1.tabs && w.meta == w1.meta && |w.mem| == |w1.mem|
    && (forall g :: 0 <= g < |w1.mem| && (g !in w0.free || g in w1.tabs) ==> w.mem[g] == w1.mem[g])
  }

  lemma MovingStep(w0: World, w1: World, w: World, w': World, r: nat, c: Cell, b: Byte)
    requires IsRoot(w1, r) && Moving(w0, w1, w, r) && PokeDoes(w, w', c, b) && c.frame in w0.free
    ensures Moving(w0, w1, w', r)
  {
    PokeKeeps(w, w', c, b);
    forall r', p | IsRoot(w1, r') ensures Leaf(w'.mem, r', p) == Leaf(w1.mem, r', p) {
      assert IsRoot(w, r');
      assert Leaf(w.mem, r', p) == Leaf(w1.mem, r', p);
    }
  }

  lemma SameCells(w1: World, w: World, r: nat, seg: Phdr, cells: seq<Cell>)
    requires IsRoot(w1, r) && SameLeaves(w1, w) && CellsOf(w1.mem, r, seg, cells)
    ensures CellsOf(w.mem, r, seg, cells)
  {
  }

  lemma BytesStep(mem: seq<Frame>, cells: seq<Cell>, file: seq<Byte>, seg: Phdr, n: nat, n': nat)
    requires Bytes(mem, cells, file, seg, n) && n < |cells| && n' == n + 1 && seg.offset + n < |file|
    requires InMemory(mem, cells[n]) && forall i :: 0 <= i < |cells| ==> InMemory(mem, cells[i])
    requires forall i, j :: 0 <= i < j < |cells| ==> cells[i] != cells[j]
    ensures Bytes(Poke(mem, cells[n], file[seg.offset + n]), cells, file, seg, n')
  {
    var mem' := Poke(mem, cells[n], file[seg.offset + n]);
    forall i | 0 <= i < |cells| ensures Peek(mem', cells[i]) == Expected(file, seg, n', i) {
      PeekPoke(mem, cells[n], file[seg.offset + n], cells[i]);
    }
  }

  /** No other cell has changed. */
  ghost predicate OnlyCells(mem1: seq<Frame>, mem: seq<Frame>, cells: seq<Cell>) {
    |mem| == |mem1| && forall c :: InMemory(mem1, c) && c !in cells ==> Peek(mem, c) == Peek(mem1, c)
  }

  lemma OnlyCellsStep(mem1: seq<Frame>, mem: seq<Frame>, cells: seq<Cell>, i: nat, b: Byte)
    requires OnlyCells(mem1, mem, cells) && i < |cells| && InMemory(mem, cells[i])
    ensures OnlyCells(mem1, Poke(mem, cells[i], b), cells)
  {
    PeekPoke(mem, cells[i], b, cells[i]);
    forall c | InMemory(mem1, c) && c !in cells ensures Peek(Poke(mem, cells[i], b), c) == Peek(mem1, c) {
      PeekPoke(mem, cells[i], b, c);
    }
  }

  /** Invariant of the copying loop, which started in world w1. */
  ghost predicate Copying(w0: World, w1: World, w: World, r: nat, file: seq<Byte>, seg: Phdr, cells: seq<Cell>,
                          i: nat) {
    && IsRoot(w1, r) && CellsOf(w1.mem, r, seg, cells) && OwnCells(w0, w1, cells)
    && Moving(w0, w1, w, r) && Bytes(w.mem, cells, file, seg, i) && OnlyCells(w1.mem, w.mem, cells)
  }

  /** `for (i = 0; i < p_filesz; ++i) ((char*)segment)[i] = elf_ptr[i]` */
  method CopySegment(m: Machine, file: seq<Byte>, seg: Phdr, ghost w0: World, ghost cells: seq<Cell>)
    requires m.Valid() && m.Synced() && GoodSegment(file, seg)
    requires CellsOf(m.ram[..], m.cr3 / 4096, seg, cells) && OwnCells(w0, m.State(), cells)
    requires Bytes(m.ram[..], cells, file, seg, 0)
    modifies m.ram
    ensures m.Valid() && m.Synced()
    ensures Copying(w0, old(m.State()), m.State(), m.cr3 / 4096, file, seg, cells, seg.filesz)
  {
    ghost var w1 := m.State();
    var i := 0;
    while i < seg.filesz
      invariant 0 <= i <= seg.filesz
      invariant m.Valid() && m.Synced()
      invariant Copying(w0, w1, m.State(), m.cr3 / 4096, file, seg, cells, i)
    {
      CopyByte(m, file, seg, i, w0, w1, cells);
      i := i + 1;
    }
  }

  /** One turn of the loop. */
  method CopyByte(m: Machine, file: seq<Byte>, seg: Phdr, i: nat, ghost w0: World, ghost w1: World,
                  ghost cells: seq<Cell>)
    requires m.Valid() && m.Synced() && GoodSegment(file, seg) && i < seg.filesz
    requires Copying(w0, w1, m.State(), m.cr3 / 4096, file, seg, cells, i)
    modifies m.ram
    ensures m.Valid() && m.Synced()
    ensures Copying(w0, w1, m.State(), m.cr3 / 4096, file, seg, cells, i + 1)
  {
    ghost var w := m.State();
    var v := seg.paddr + i;
    CellReady(w0, w1, w, m.cr3 / 4096, file, seg, cells, i, v);
    StoreVirtual(m, v, file[seg.offset + i], cells[i]);
    CellCopied(w0, w1, w, m.State(), m.cr3 / 4096, file, seg, cells, i, i + 1);
  }

  lemma CellReady(w0: World, w1: World, w: World, r: nat, file: seq<Byte>, seg: Phdr, cells: seq<Cell>, i: nat, v: nat)
    requires GoodSegment(file, seg) && i < seg.memsz && Copying(w0, w1, w, r, file, seg, cells, i)
    requires v == seg.paddr + i
    ensures v < WORD_LIMIT && Canonical(v) && i < |cells|
    ensures cells[i] == CellAt(w.mem, r, v) && OwnedCell(w, cells[i])
  {
    SameCells(w1, w, r, seg, cells);
    SegmentAddress(file, seg, i);
    StillOwned(w0, w1, w, r, cells, i);
    CellOfByte(w.mem, r, seg, cells, i, v);
  }

  lemma CellOfByte(mem: seq<Frame>, r: nat, seg: Phdr, cells: seq<Cell>, i: nat, v: nat)
    requires CellsOf(mem, r, seg, cells) && i < |cells| && v == seg.paddr + i
    ensures cells[i] == CellAt(mem, r, v)
  {
  }

  lemma StillOwned(w0: World, w1: World, w: World, r: nat, cells: seq<Cell>, i: nat)
    requires OwnCells(w0, w1, cells) && Moving(w0, w1, w, r) && IsRoot(w1, r) && i < |cells|
    ensures OwnedCell(w, cells[i])
  {
  }

  lemma CellCopied(w0: World, w1: World, w: World, w': World, r: nat, file: seq<Byte>, seg: Phdr, cells: seq<Cell>,
                   i: nat, i': nat)
    requires Copying(w0, w1, w, r, file, seg, cells, i) && i < |cells| && i' == i + 1 && seg.offset + i < |file|
    requires PokeDoes(w, w', cells[i], file[seg.offset + i])
    ensures Copying(w0, w1, w', r, file, seg, cells, i')
  {
    assert OwnedCell(w1, cells[i]) && cells[i].frame in w0.free;
    MovingStep(w0, w1, w, w', r, cells[i], file[seg.offset + i]);
    forall k | 0 <= k < |cells| ensures InMemory(w.mem, cells[k]) {
      assert OwnedCell(w1, cells[k]);
    }
    BytesStep(w.mem, cells, file, seg, i, i');
    OnlyCellsStep(w1.mem, w.mem, cells, i, file[seg.offset + i]);
  }

  // ---- one segment after another -----------------------------------------------------------------

  /** Offset k of page p reads as b, from a cell in use that is part of no table or bitmap. */
  ghost predicate Holds(w: World, r: nat, p: Page, k: nat, b: Byte) {
    && Present(Leaf(w.mem, r, p))
    && OwnedCell(w, Cell(FrameFor(w.mem, r, p), k))
    && Peek(w.mem, Cell(FrameFor(w.mem, r, p), k)) == b
  }

  ghost predicate LoadedByte(w: World, r: nat, file: seq<Byte>, seg: Phdr, i: nat) {
    Holds(w, r, BytePage(seg, i), ByteOffset(seg, i), Expected(file, seg, seg.filesz, i))
  }

  /** Page and offset of the address of byte i. */
  function BytePage(seg: Phdr, i: nat): Page { PageAtAddr(seg.paddr + i) }
  function ByteOffset(seg: Phdr, i: nat): nat { (seg.paddr + i) % 4096 }

  /** The segment reads as its file bytes followed by zeros up to memsz. */
  ghost predicate Loaded(w: World, r: nat, file: seq<Byte>, seg: Phdr) {
    forall i :: 0 <= i < seg.memsz ==> LoadedByte(w, r, file, seg, i)
  }

  lemma CopiedCell(w0: World, w1: World, w: World, r: nat, file: seq<Byte>, seg: Phdr, cells: seq<Cell>, i: nat,
                   p: Page, k: nat)
    requires Copying(w0, w1, w, r, file, seg, cells, seg.filesz) && i < |cells|
    requires cells[i] == Cell(FrameFor(w1.mem, r, p), k) && Present(Leaf(w1.mem, r, p))
    ensures Holds(w, r, p, k, Expected(file, seg, seg.filesz, i))
  {
    assert Leaf(w.mem, r, p) == Leaf(w1.mem, r, p);
    assert OwnedCell(w1, cells[i]);
    assert Peek(w.mem, cells[i]) == Expected(file, seg, seg.filesz, i);
  }

  lemma BytePresent(w0: World, w: World, r: nat, seg: Phdr, i: nat)
    requires Fresh(w0, w, r, SegPages(seg)) && i < seg.memsz
    ensures Present(Leaf(w.mem, r, BytePage(seg, i)))
  {
    SegmentMaps(seg, i);
    FreshCell(w0, w, r, seg, seg.paddr + i);
  }

  lemma ByteCell(mem: seq<Frame>, r: nat, seg: Phdr, cells: seq<Cell>, i: nat)
    requires CellsOf(mem, r, seg, cells) && i < |cells|
    ensures cells[i] == Cell(FrameFor(mem, r, BytePage(seg, i)), ByteOffset(seg, i))
  {
    assert cells[i] == CellAt(mem, r, seg.paddr + i);
  }

  lemma CopiedByte(w0: World, w1: World, w: World, r: nat, file: seq<Byte>, seg: Phdr, cells: seq<Cell>, i: nat)
    requires Fresh(w0, w1, r, SegPages(seg)) && i < seg.memsz
    requires Copying(w0, w1, w, r, file, seg, cells, seg.filesz)
    ensures LoadedByte(w, r, file, seg, i)
  {
    BytePresent(w0, w1, r, seg, i);
    ByteCell(w1.mem, r, seg, cells, i);
    CopiedCell(w0, w1, w, r, file, seg, cells, i, BytePage(seg, i), ByteOffset(seg, i));
  }

  lemma MmapKeepsByte(w: World, w': World, r: nat, p: Page, k: nat, b: Byte)
    requires Consumed(w, w') && Holds(w, r, p, k, b) && Leaf(w'.mem, r, p) == Leaf(w.mem, r, p)
    ensures Holds(w', r, p, k, b) && FrameFor(w'.mem, r, p) !in w.free
  {
    var f := FrameFor(w.mem, r, p);
    assert w'.mem[f] == w.mem[f];
  }

  lemma CopyKeepsByte(w0: World, w1: World, w: World, r: nat, p: Page, k: nat, b: Byte)
    requires IsRoot(w1, r) && Moving(w0, w1, w, r)
    requires Holds(w1, r, p, k, b) && FrameFor(w1.mem, r, p) !in w0.free
    ensures Holds(w, r, p, k, b)
  {
    assert Leaf(w.mem, r, p) == Leaf(w1.mem, r, p);
    assert w.mem[FrameFor(w1.mem, r, p)] == w1.mem[FrameFor(w1.mem, r, p)];
  }

  // ---- what one segment leaves on all the pages mapped for it --------------------------------------

  /** The byte that loading segment t leaves at address v on one of its pages. */
  function ByteIn(file: seq<Byte>, t: Phdr, v: nat): Byte {
    if t.paddr <= v then Expected(file, t, t.filesz, v - t.paddr) else 0
  }

  function OffsetAt(v: nat): nat { v % 4096 }

  /** Address v reads as b. */
  ghost predicate Reads(w: World, r: nat, v: nat, b: Byte) {
    Holds(w, r, PageAtAddr(v), OffsetAt(v), b)
  }

  /** Every address on a page mapped for the segment reads as it should, the pages far beyond
      its end included. */
  ghost predicate SegmentImage(w: World, r: nat, file: seq<Byte>, seg: Phdr) {
    forall v :: MapsAddr(seg, v) ==> Reads(w, r, v, ByteIn(file, seg, v))
  }

  /** A cell of the segment's pages outside the segment itself is still zero. */
  lemma OutsideByte(w0: World, w1: World, w: World, r: nat, file: seq<Byte>, seg: Phdr, cells: seq<Cell>, v: nat)
    requires Fresh(w0, w1, r, SegPages(seg)) && MapsAddr(seg, v) && !(seg.paddr <= v < seg.paddr + seg.memsz)
    requires Copying(w0, w1, w, r, file, seg, cells, seg.filesz)
    ensures Reads(w, r, v, 0)
  {
    FreshReads(w0, w1, r, seg, v);
    NotACell(w0, w1, r, seg, cells, v);
    UncopiedCell(w0, w1, w, r, cells, PageAtAddr(v), OffsetAt(v));
  }

  lemma FreshReads(w0: World, w: World, r: nat, seg: Phdr, v: nat)
    requires Fresh(w0, w, r, SegPages(seg)) && MapsAddr(seg, v)
    ensures Reads(w, r, v, 0)
  {
    FreshCell(w0, w, r, seg, v);
  }

  lemma NotACell(w0: World, w1: World, r: nat, seg: Phdr, cells: seq<Cell>, v: nat)
    requires Fresh(w0, w1, r, SegPages(seg)) && MapsAddr(seg, v) && !(seg.paddr <= v < seg.paddr + seg.memsz)
    requires CellsOf(w1.mem, r, seg, cells)
    ensures Cell(FrameFor(w1.mem, r, PageAtAddr(v)), OffsetAt(v)) !in cells
  {
    forall i | 0 <= i < |cells| ensures cells[i] != CellAt(w1.mem, r, v) {
      SegmentMaps(seg, i);
      CellsDiffer(w0, w1, r, seg, seg.paddr + i, v);
      CellOfByte(w1.mem, r, seg, cells, i, seg.paddr + i);
    }
  }

  lemma UncopiedCell(w0: World, w1: World, w: World, r: nat, cells: seq<Cell>, p: Page, k: nat)
    requires IsRoot(w1, r) && Moving(w0, w1, w, r) && OnlyCells(w1.mem, w.mem, cells)
    requires Holds(w1, r, p, k, 0) && Cell(FrameFor(w1.mem, r, p), k) !in cells
    ensures Holds(w, r, p, k, 0)
  {
    assert Leaf(w.mem, r, p) == Leaf(w1.mem, r, p);
  }

  /** After the copying loop every address on the segment's pages reads as it should. */
  lemma CopiedImage(w0: World, w1: World, w: World, r: nat, file: seq<Byte>, seg: Phdr, cells: seq<Cell>, n: nat)
    requires Fresh(w0, w1, r, SegPages(seg)) && seg.filesz <= seg.memsz
    requires n == seg.filesz && Copying(w0, w1, w, r, file, seg, cells, n)
    ensures SegmentImage(w, r, file, seg)
  {
    forall v: nat | MapsAddr(seg, v) ensures Reads(w, r, v, ByteIn(file, seg, v)) {
      if seg.paddr <= v < seg.paddr + seg.memsz {
        CopiedAddr(w0, w1, w, r, file, seg, cells, v, v - seg.paddr);
      } else {
        OutsideByte(w0, w1, w, r, file, seg, cells, v);
      }
    }
  }

  lemma CopiedAddr(w0: World, w1: World, w: World, r: nat, file: seq<Byte>, seg: Phdr, cells: seq<Cell>, v: nat, i: nat)
    requires Fresh(w0, w1, r, SegPages(seg)) && i < seg.memsz && v == seg.paddr + i
    requires Copying(w0, w1, w, r, file, seg, cells, seg.filesz)
    ensures Reads(w, r, v, ByteIn(file, seg, v))
  {
    CopiedByte(w0, w1, w, r, file, seg, cells, i);
  }

  lemma ImageIsLoaded(w: World, r: nat, file: seq<Byte>, seg: Phdr)
    requires SegmentImage(w, r, file, seg)
    ensures Loaded(w, r, file, seg)
  {
    forall i | 0 <= i < seg.memsz ensures LoadedByte(w, r, file, seg, i) {
      SegmentMaps(seg, i);
      assert Reads(w, r, seg.paddr + i, ByteIn(file, seg, seg.paddr + i));
    }
  }

  // ---- pages of different segments -----------------------------------------------------------------

  /** Segment t starts on a page after the last byte of s. */
  ghost predicate Before(s: Phdr, t: Phdr) {
    s.memsz > 0 ==> (s.paddr + s.memsz - 1) / 4096 < t.paddr / 4096
  }

  /** The PT_LOAD segments come in ascending order, no two on one page. */
  ghost predicate Ascending(segs: seq<Phdr>) {
    forall i, j :: 0 <= i < j < |segs| && segs[i].kind == PT_LOAD && segs[j].kind == PT_LOAD ==>
          Before(segs[i], segs[j])
  }

  /** Different canonical page numbers are different pages. */
  lemma PageNumberOnce(x: nat, y: nat)
    requires CanonicalNumber(x) && CanonicalNumber(y) && x != y
    ensures PageAt(x) != PageAt(y)
  {
    PageAtInjective(x, y);
    CanonicalMod(x);
    CanonicalMod(y);
  }

  lemma CanonicalMod(x: nat)
    requires CanonicalNumber(x)
    ensures x % NR_PAGES == if x < 0x8_0000_0000 then x else x - 0xF_FFF0_0000_0000
    ensures x >= 0x8_0000_0000 ==> x % NR_PAGES >= 0x8_0000_0000
  {
  }

  lemma InPagesWhen(x: nat, first: nat, n: nat)
    requires CanonicalRange(first, n) && CanonicalNumber(x)
    ensures PageAt(x) in Pages(first, n) <==> first <= x < first + n
  {
    if first <= x < first + n {
      PagesAt(first, n, x - first);
      assert Pages(first, n)[x - first] == PageAt(x);
    } else {
      forall k | 0 <= k < n ensures Pages(first, n)[k] != PageAt(x) {
        PagesAt(first, n, k);
        PageNumberOnce(x, first + k);
      }
    }
  }

  lemma ByteBefore(s: Phdr, i: nat, t: nat)
    requires i < s.memsz && (s.paddr + s.memsz - 1) / 4096 < t
    ensures (s.paddr + i) / 4096 < t
  {
  }

  /** The page of byte i is mapped for segment t. */
  predicate HitBy(s: Phdr, t: Phdr, i: nat) { MapsAddr(t, s.paddr + i) }

  // ---- frames enough -----------------------------------------------------------------------------

  /** The most frames that mapping n consecutive pages can take, tables included. */
  function CostBound(n: nat): nat {
    n + (CeilDiv(n, 512) + 1) + (CeilDiv(n, 512 * 512) + 1) + (CeilDiv(n, 512 * 512 * 512) + 1)
  }

  function Cost(seg: Phdr): nat {
    if seg.kind == PT_LOAD then CostBound(PageCount(seg)) else 0
  }

  function Need(segs: seq<Phdr>): nat {
    if segs == [] then 0 else Cost(segs[0]) + Need(segs[1..])
  }

  /** PROT_READ | PROT_WRITE | PROT_USER | PROT_EXEC */
  const PROT_SEGMENT: Word := 15

  /** There is a frame for every page mapped for the segment and for every table that needs. */
  ghost predicate FitsSegment(a: Flat, seg: Phdr) {
    PageCount(seg) + |NewTables(a, SegPages(seg))| <= |a.free|
  }

  ghost function AfterSegment(a: Flat, seg: Phdr): (b: Flat)
    requires Bounded(a)
    ensures Bounded(b)
  {
    MmapFrees(a, SegPages(seg), FlagsOf(PROT_SEGMENT));
    FlatMmap.Mmap(a, SegPages(seg), FlagsOf(PROT_SEGMENT)).0
  }

  /** The exact price of loading: the frames suffice for one segment after the other, with the
      tables that exist by then. */
  ghost predicate Fits(a: Flat, segs: seq<Phdr>)
    requires Bounded(a)
    decreases |segs|
  {
    if segs == [] then true
    else if segs[0].kind == PT_LOAD then FitsSegment(a, segs[0]) && Fits(AfterSegment(a, segs[0]), segs[1..])
    else Fits(a, segs[1..])
  }

  lemma SegmentCost(a: Flat, seg: Phdr)
    requires Bounded(a)
    ensures FitsSegment(a, seg) <==> AllMapped(a, SegPages(seg), FlagsOf(PROT_SEGMENT))
    ensures CostBound(PageCount(seg)) <= |a.free| ==>
              FitsSegment(a, seg) && |AfterSegment(a, seg).free| + CostBound(PageCount(seg)) >= |a.free|
  {
    MmapCost(a, SegPages(seg), FlagsOf(PROT_SEGMENT));
    NewTablesBound(a, seg.paddr / 4096, PageCount(seg));
  }

  /** The bound in numbers. */
  lemma CostBoundIs(n: nat)
    ensures n <= CostBound(n) <= n + n / 512 + n / 0x4_0000 + n / 0x800_0000 + 6
  {
  }

  lemma NeedIs(seg: Phdr)
    ensures Need([seg]) == if seg.kind == 1 then CostBound(seg.memsz + 4095) else 0
  {
    assert [seg][1..] == [];
  }

  /** The frames asked for segment after segment add up. */
  lemma {:induction false} NeedAdds(xs: seq<Phdr>, ys: seq<Phdr>)
    ensures Need(xs + ys) == Need(xs) + Need(ys)
  {
    if xs == [] {
      assert xs + ys == ys;
    } else {
      assert (xs + ys)[1..] == xs[1..] + ys;
      NeedAdds(xs[1..], ys);
    }
  }

  /** A number of free frames that suffices whatever tables exist. */
  lemma {:induction false} EnoughFrames(a: Flat, segs: seq<Phdr>)
    requires Bounded(a) && Need(segs) <= |a.free|
    ensures Fits(a, segs)
    decreases |segs|
  {
    if segs != [] {
      if segs[0].kind == PT_LOAD {
        SegmentCost(a, segs[0]);
        EnoughFrames(AfterSegment(a, segs[0]), segs[1..]);
      } else {
        EnoughFrames(a, segs[1..]);
      }
    }
  }

  lemma SegmentFlags()
    ensures FlagsOnly(FlagsOf(PROT_SEGMENT)) && Present(FlagsOf(PROT_SEGMENT))
  {
    FlagsOfFlagsOnly(PROT_SEGMENT);
  }

  /** `mmap` of a segment's pages returns 0 with all of them mapped if and only if the frames
      suffice, and then gives every page a fresh frame. */
  lemma SegmentMapped(w: World, w': World, r: nat, seg: Phdr, ret: int)
    requires Inv(w) && IsRoot(w, r) && PageCount(seg) <= NR_PAGES
    requires MmapDoes(w, w', r, SegPages(seg), FlagsOf(PROT_SEGMENT), ret)
    ensures Bounded(FlatOf(w, r)) && FlatOf(w', r) == AfterSegment(FlatOf(w, r), seg)
    ensures FitsSegment(FlatOf(w, r), seg) ==>
              ret == 0 && TurnsDo(w, w', r, SegPages(seg), FlagsOf(PROT_SEGMENT)) && Fresh(w, w', r, SegPages(seg))
  {
    var flags := FlagsOf(PROT_SEGMENT);
    InvBounded(w, r);
    MmapRefines(w, w', r, SegPages(seg), flags, ret);
    SegmentCost(FlatOf(w, r), seg);
    if FitsSegment(FlatOf(w, r), seg) {
      SegmentFlags();
      PagesDistinct(seg.paddr / 4096, PageCount(seg));
      FlatOfWellFormed(w, r);
      AllMappedFresh(FlatOf(w, r), SegPages(seg), flags);
      TurnsGivePages(w, w', r, SegPages(seg), flags);
    }
  }

  /** Page number n of root r leads to a frame that was free in w, readable, writable, executable
      and open to the user, with no other bit set. */
  ghost predicate GivenPage(w: World, w': World, r: nat, n: nat) {
    var e := Leaf(w'.mem, r, PageAt(n));
    e / 4096 % 0x100_0000_0000 in w.free && e == 4096 * (e / 4096 % 0x100_0000_0000) + 7
  }

  /** memsz + 4095 pages have been given frames, and as many frames are gone, besides those of the
      tables the pages were missing. */
  ghost predicate TakenBy(w: World, w': World, r: nat, seg: Phdr) {
    && (forall n: nat :: seg.paddr / 4096 <= n < seg.paddr / 4096 + seg.memsz + 4095 ==> GivenPage(w, w', r, n))
    && |w.free| == |w'.free| + seg.memsz + 4095
                   + |NewTables(FlatOf(w, r), Pages(seg.paddr / 4096, seg.memsz + 4095))|
  }

  lemma TakenFrom(w: World, w': World, r: nat, seg: Phdr, cost: nat)
    requires GotFrames(w, w', r, SegPages(seg), FlagsOf(PROT_SEGMENT)) && |w.free| == |w'.free| + cost
    requires cost == seg.memsz + 4095 + |NewTables(FlatOf(w, r), Pages(seg.paddr / 4096, seg.memsz + 4095))|
    ensures TakenBy(w, w', r, seg)
  {
    AllGiven(w, w', r, seg, seg.paddr / 4096);
  }

  lemma AllGiven(w: World, w': World, r: nat, seg: Phdr, first: nat)
    requires GotFrames(w, w', r, SegPages(seg), FlagsOf(PROT_SEGMENT)) && first == seg.paddr / 4096
    ensures forall n: nat :: first <= n < first + seg.memsz + 4095 ==> GivenPage(w, w', r, n)
  {
    forall n: nat | first <= n < first + seg.memsz + 4095 ensures GivenPage(w, w', r, n) {
      PageGiven(w, w', r, seg, n - first, n);
    }
  }

  lemma SegmentGot(w: World, w': World, r: nat, seg: Phdr, ret: int) returns (cost: nat)
    requires Inv(w) && IsRoot(w, r) && PageCount(seg) <= NR_PAGES
    requires MmapDoes(w, w', r, SegPages(seg), FlagsOf(PROT_SEGMENT), ret) && FitsSegment(FlatOf(w, r), seg)
    ensures GotFrames(w, w', r, SegPages(seg), FlagsOf(PROT_SEGMENT))
    ensures |w.free| == |w'.free| + cost
    ensures cost == seg.memsz + 4095 + |NewTables(FlatOf(w, r), Pages(seg.paddr / 4096, seg.memsz + 4095))|
  {
    SegmentFlags();
    InvBounded(w, r);
    SegmentCost(FlatOf(w, r), seg);
    PagesDistinct(seg.paddr / 4096, PageCount(seg));
    PagesGot(w, w', r, SegPages(seg), FlagsOf(PROT_SEGMENT), ret);
    cost := PageCount(seg) + |NewTables(FlatOf(w, r), SegPages(seg))|;
  }

  lemma PagesGot(w: World, w': World, r: nat, pages: seq<Page>, flags: Word, ret: int)
    requires Inv(w) && IsRoot(w, r) && FlagsOnly(flags) && Distinct(pages) && Bounded(FlatOf(w, r))
    requires MmapDoes(w, w', r, pages, flags, ret) && AllMapped(FlatOf(w, r), pages, flags)
    ensures GotFrames(w, w', r, pages, flags)
    ensures |w.free| == |w'.free| + |pages| + |NewTables(FlatOf(w, r), pages)|
  {
    MmapRefines(w, w', r, pages, flags, ret);
    MmapCost(FlatOf(w, r), pages, flags);
    AllMappedGetFrames(w, w', r, pages, flags);
  }

  lemma PageGiven(w: World, w': World, r: nat, seg: Phdr, k: nat, n: nat)
    requires GotFrames(w, w', r, SegPages(seg), FlagsOf(PROT_SEGMENT)) && k < PageCount(seg)
    requires n == seg.paddr / 4096 + k
    ensures GivenPage(w, w', r, n)
  {
    PagesAt(seg.paddr / 4096, PageCount(seg), k);
    assert GotFrame(w, w', r, SegPages(seg)[k], FlagsOf(PROT_SEGMENT));
    EntryAsAsked(FrameOf(Leaf(w'.mem, r, PageAt(n))), PROT_SEGMENT);
  }

  // ---- the segments of a file --------------------------------------------------------------------

  /** What loading these segments leaves alone: pages of no segment in every address space, and
      data frames that were in use. */
  ghost predicate Spares(w: World, w': World, segs: seq<Phdr>) {
    SparesLeaves(w, w', segs) && SparesData(w, w')
  }

  ghost predicate SparesLeaves(w: World, w': World, segs: seq<Phdr>) {
    forall r, q :: IsRoot(w, r) && OffSegments(segs, q) ==> SameAt(w, w', r, q)
  }

  ghost predicate SameAt(w: World, w': World, r: nat, q: Page) {
    IsRoot(w', r) && Leaf(w'.mem, r, q) == Leaf(w.mem, r, q)
  }

  /** In an address space that does not share the slot of a page with r, the page stays. */
  ghost predicate SparesApart(w: World, w': World, r: nat) {
    && SameSharing(w, w')
    && forall r', q: Page :: IsRoot(w, r') && r' != r && !Shares(w, r, r', q.i4) ==> SameAt(w, w', r', q)
  }

  ghost predicate SparesData(w: World, w': World) {
    |w'.mem| == |w.mem| &&
    forall g :: 0 <= g < |w.mem| && DataFrame(w, g) ==> DataFrame(w', g) && w'.mem[g] == w.mem[g]
  }

  ghost predicate DataFrame(w: World, g: nat) {
    g !in w.free && g !in w.tabs && g !in w.meta
  }

  ghost predicate OffSegments(segs: seq<Phdr>, q: Page) {
    forall k :: 0 <= k < |segs| && segs[k].kind == PT_LOAD ==> q !in SegPages(segs[k])
  }

  lemma TurnApart(w: World, w1: World, w': World, r: nat, p: Page, f: nat, flags: Word)
    requires Inv(w) && IsRoot(w, r) && TurnDoes(w, w1, w', r, p, f, flags)
    ensures Inv(w') && IsRoot(w', r) && SparesApart(w, w', r)
  {
    var e := EntryFor(4096 * f, flags);
    TurnKeeps(w, w1, w', r, p, f, flags);
    AllocKeeps(w, w1, f);
    StepSameSharing(w, Alloc(f), w1);
    StoreSameSharing(w1, w', r, p, e);
    forall r', q: Page | IsRoot(w, r') && r' != r && !Shares(w, r, r', q.i4) ensures SameAt(w, w', r', q) {
      if q == p { StoreLeavesApart(w1, w', r, r', p, e); }
    }
  }

  lemma StoreLeavesApart(w: World, w': World, r: nat, r': nat, p: Page, e: Word)
    requires Apart(w, r, r', p.i4) && StoreDoes(w, w', r, p, e)
    ensures Leaf(w'.mem, r', p) == Leaf(w.mem, r', p)
  {
    StoreApart(w, w', r, r', p, e);
    assert FlatOf(w', r').pte[p] == FlatOf(w, r').pte[p];
  }

  lemma ApartTransitive(w: World, w1: World, w2: World, r: nat)
    requires IsRoot(w, r) && SparesApart(w, w1, r) && SparesApart(w1, w2, r)
    ensures SparesApart(w, w2, r)
  {
    forall r', q: Page | IsRoot(w, r') && r' != r && !Shares(w, r, r', q.i4) ensures SameAt(w, w2, r', q) {
      assert SameAt(w, w1, r', q) && !Shares(w1, r, r', q.i4);
      assert SameAt(w1, w2, r', q);
    }
    forall x, y, i | IsRoot(w, x) && IsRoot(w, y) && x != y ensures Shares(w2, x, y, i) <==> Shares(w, x, y, i) {
      assert Shares(w1, x, y, i) <==> Shares(w, x, y, i);
    }
  }

  lemma {:induction false} TurnsApart(w: World, w': World, r: nat, pages: seq<Page>, flags: Word)
    requires Inv(w) && IsRoot(w, r) && TurnsDo(w, w', r, pages, flags)
    ensures Inv(w') && IsRoot(w', r) && SparesApart(w, w', r)
    decreases |pages|
  {
    if pages != [] {
      var init, last := pages[..|pages| - 1], pages[|pages| - 1];
      var mid: World, w1: World, f: nat :| TurnsDo(w, mid, r, init, flags) && TurnDoes(mid, w1, w', r, last, f, flags);
      TurnsApart(w, mid, r, init, flags);
      TurnApart(mid, w1, w', r, last, f, flags);
      ApartTransitive(w, mid, w', r);
    }
  }

  /** The tables are as they were before the copying. */
  lemma MovingApart(w0: World, w1: World, w: World, r: nat)
    requires Inv(w1) && IsRoot(w1, r) && Moving(w0, w1, w, r)
    ensures SparesApart(w1, w, r) && FlatOf(w, r) == FlatOf(w1, r)
  {
    QuietRefines(w1, w, r);
  }

  lemma SegmentApart(w0: World, w1: World, w: World, r: nat, seg: Phdr)
    requires Inv(w0) && IsRoot(w0, r) && TurnsDo(w0, w1, r, SegPages(seg), FlagsOf(PROT_SEGMENT))
    requires Moving(w0, w1, w, r)
    ensures SparesApart(w0, w, r) && FlatOf(w, r) == FlatOf(w1, r)
  {
    TurnsApart(w0, w1, r, SegPages(seg), FlagsOf(PROT_SEGMENT));
    MovingApart(w0, w1, w, r);
    ApartTransitive(w0, w1, w, r);
  }

  lemma SegmentSparesData(w0: World, w1: World, w: World, r: nat)
    requires Consumed(w0, w1) && Moving(w0, w1, w, r)
    ensures SparesData(w0, w)
  {
  }

  lemma PagesSpare(w0: World, w1: World, w: World, r: nat, pages: seq<Page>, flags: Word)
    requires Inv(w0) && IsRoot(w0, r) && TurnsDo(w0, w1, r, pages, flags) && Moving(w0, w1, w, r)
    ensures SparesData(w0, w)
    ensures forall r', q :: IsRoot(w0, r') && q !in pages ==> SameAt(w0, w, r', q)
  {
    TurnsKeep(w0, w1, r, pages, flags);
    SegmentSparesData(w0, w1, w, r);
    forall r', q | IsRoot(w0, r') && q !in pages ensures SameAt(w0, w, r', q) {
      assert Leaf(w1.mem, r', q) == Leaf(w0.mem, r', q);
      MovedLeaf(w0, w1, w, r, r', q);
    }
  }

  lemma MovedLeaf(w0: World, w1: World, w: World, r: nat, r': nat, q: Page)
    requires Settled(w0, w1) && Moving(w0, w1, w, r) && IsRoot(w0, r')
    ensures IsRoot(w, r') && Leaf(w.mem, r', q) == Leaf(w1.mem, r', q)
  {
  }

  lemma SegmentSpares(w0: World, w1: World, w: World, r: nat, seg: Phdr, flags: Word)
    requires Inv(w0) && IsRoot(w0, r) && TurnsDo(w0, w1, r, SegPages(seg), flags) && Moving(w0, w1, w, r)
    requires seg.kind == PT_LOAD
    ensures Spares(w0, w, [seg])
  {
    PagesSpare(w0, w1, w, r, SegPages(seg), flags);
    forall r', q | IsRoot(w0, r') && OffSegments([seg], q) ensures SameAt(w0, w, r', q) {
      assert q !in SegPages([seg][0]);
    }
  }

  lemma OffFewer(segs: seq<Phdr>, k: nat, q: Page)
    requires k < |segs| && OffSegments(segs[..k + 1], q)
    ensures OffSegments(segs[..k], q)
    ensures segs[k].kind == PT_LOAD ==> OffSegments([segs[k]], q)
  {
  }

  lemma SparesSnoc(w: World, mid: World, w': World, segs: seq<Phdr>, k: nat)
    requires k < |segs| && Spares(w, mid, segs[..k])
    requires if segs[k].kind == PT_LOAD then Spares(mid, w', [segs[k]]) else w' == mid
    ensures Spares(w, w', segs[..k + 1])
  {
    forall r, q | IsRoot(w, r) && OffSegments(segs[..k + 1], q) ensures SameAt(w, w', r, q) {
      OffFewer(segs, k, q);
      assert SameAt(w, mid, r, q);
      if segs[k].kind == PT_LOAD { assert SameAt(mid, w', r, q); }
    }
  }

  // ---- the image of a whole file -------------------------------------------------------------------

  /** The byte at address v after the first k program headers: the last one whose pages include
      v's has the say, whatever came before. */
  function ImageAt(file: seq<Byte>, segs: seq<Phdr>, k: nat, v: nat): Option<Byte>
    requires k <= |segs|
  {
    if k == 0 then None
    else if segs[k - 1].kind == PT_LOAD && MapsAddr(segs[k - 1], v) then Some(ByteIn(file, segs[k - 1], v))
    else ImageAt(file, segs, k - 1, v)
  }

  ghost predicate ImagedAt(w: World, r: nat, file: seq<Byte>, segs: seq<Phdr>, k: nat, v: nat)
    requires k <= |segs|
  {
    var b := ImageAt(file, segs, k, v);
    b.Some? ==> Reads(w, r, v, b.value)
  }

  /** The first k program headers have been dealt with. */
  ghost predicate Imaged(w: World, r: nat, file: seq<Byte>, segs: seq<Phdr>, k: nat) {
    k <= |segs| && forall v :: ImagedAt(w, r, file, segs, k, v)
  }

  /** The pages of PT_LOAD headers do not wrap round the address space. */
  ghost predicate AllGood(file: seq<Byte>, segs: seq<Phdr>) {
    forall k :: 0 <= k < |segs| && segs[k].kind == PT_LOAD ==> GoodSegment(file, segs[k])
  }

  lemma {:induction false} ImageBelow(file: seq<Byte>, segs: seq<Phdr>, k: nat, v: nat)
    requires k <= |segs| && AllGood(file, segs) && ImageAt(file, segs, k, v).Some?
    ensures CanonicalNumber(v / 4096)
  {
    if !(segs[k - 1].kind == PT_LOAD && MapsAddr(segs[k - 1], v)) {
      ImageBelow(file, segs, k - 1, v);
    }
  }

  /** Loading a segment keeps every address off the pages mapped for it. */
  lemma OtherAddress(w0: World, w1: World, w: World, r: nat, flags: Word, seg: Phdr, v: nat, b: Byte)
    requires Inv(w0) && IsRoot(w0, r) && TurnsDo(w0, w1, r, SegPages(seg), flags) && Moving(w0, w1, w, r)
    requires CanonicalRange(seg.paddr / 4096, PageCount(seg)) && CanonicalNumber(v / 4096) && !MapsAddr(seg, v)
    requires Reads(w0, r, v, b)
    ensures Reads(w, r, v, b)
  {
    InPagesWhen(v / 4096, seg.paddr / 4096, PageCount(seg));
    KeptByte(w0, w1, w, r, SegPages(seg), flags, PageAtAddr(v), OffsetAt(v), b);
  }

  lemma KeptByte(w0: World, w1: World, w: World, r: nat, pages: seq<Page>, flags: Word, p: Page, k: nat, b: Byte)
    requires Inv(w0) && IsRoot(w0, r) && TurnsDo(w0, w1, r, pages, flags) && Moving(w0, w1, w, r)
    requires p !in pages && Holds(w0, r, p, k, b)
    ensures Holds(w, r, p, k, b)
  {
    TurnsKeep(w0, w1, r, pages, flags);
    MmapKeepsByte(w0, w1, r, p, k, b);
    CopyKeepsByte(w0, w1, w, r, p, k, b);
  }

  /** One more header. */
  lemma ImagedNext(w0: World, w1: World, w: World, r: nat, file: seq<Byte>, segs: seq<Phdr>, k: nat, k': nat,
                   flags: Word)
    requires Inv(w0) && IsRoot(w0, r) && k < |segs| && k' == k + 1 && segs[k].kind == PT_LOAD && AllGood(file, segs)
    requires TurnsDo(w0, w1, r, SegPages(segs[k]), flags) && Moving(w0, w1, w, r)
    requires Imaged(w0, r, file, segs, k) && SegmentImage(w, r, file, segs[k])
    ensures Imaged(w, r, file, segs, k')
  {
    forall v: nat ensures ImagedAt(w, r, file, segs, k', v) {
      if MapsAddr(segs[k], v) {
        assert Reads(w, r, v, ByteIn(file, segs[k], v));
      } else if ImageAt(file, segs, k, v).Some? {
        assert ImagedAt(w0, r, file, segs, k, v);
        ImageBelow(file, segs, k, v);
        OtherAddress(w0, w1, w, r, flags, segs[k], v, ImageAt(file, segs, k, v).value);
      }
    }
  }

  lemma ImagedSkip(w: World, r: nat, file: seq<Byte>, segs: seq<Phdr>, k: nat, k': nat)
    requires k < |segs| && k' == k + 1 && segs[k].kind != PT_LOAD && Imaged(w, r, file, segs, k)
    ensures Imaged(w, r, file, segs, k')
  {
    forall v: nat ensures ImagedAt(w, r, file, segs, k', v) {
      assert ImagedAt(w, r, file, segs, k, v);
    }
  }

  // ---- which segments are loaded at the end --------------------------------------------------------

  /** In the final image every byte of segment j is the one it should be. */
  ghost predicate Intact(file: seq<Byte>, segs: seq<Phdr>, j: nat)
    requires j < |segs|
  {
    forall i :: 0 <= i < segs[j].memsz ==> IntactByte(file, segs, j, i)
  }

  ghost predicate IntactByte(file: seq<Byte>, segs: seq<Phdr>, j: nat, i: nat)
    requires j < |segs|
  {
    ImageAt(file, segs, |segs|, segs[j].paddr + i) == Some(Expected(file, segs[j], segs[j].filesz, i))
  }

  lemma {:induction false} ImageKnown(file: seq<Byte>, segs: seq<Phdr>, k: nat, j: nat, v: nat)
    requires j < k <= |segs| && segs[j].kind == PT_LOAD && MapsAddr(segs[j], v)
    ensures ImageAt(file, segs, k, v).Some?
  {
    if k - 1 > j { ImageKnown(file, segs, k - 1, j, v); }
  }

  /** A segment is loaded at the end if and only if the image has its bytes, which depends on the
      file alone. */
  lemma LoadedIffIntact(w: World, r: nat, file: seq<Byte>, segs: seq<Phdr>, n: nat, j: nat)
    requires n == |segs| && Imaged(w, r, file, segs, n) && j < n && segs[j].kind == PT_LOAD
    ensures Loaded(w, r, file, segs[j]) <==> Intact(file, segs, j)
  {
    forall i | 0 <= i < segs[j].memsz ensures LoadedByte(w, r, file, segs[j], i) <==> IntactByte(file, segs, j, i) {
      var v := segs[j].paddr + i;
      SegmentMaps(segs[j], i);
      ImageKnown(file, segs, n, j, v);
      assert ImagedAt(w, r, file, segs, n, v);
    }
  }

  /** No two PT_LOAD segments have a byte on the same page. */
  ghost predicate PageDisjoint(segs: seq<Phdr>) {
    forall i, j :: 0 <= i < j < |segs| && segs[i].kind == PT_LOAD && segs[j].kind == PT_LOAD ==>
      Before(segs[i], segs[j]) || Before(segs[j], segs[i])
  }

  /** A later PT_LOAD header, among the first k, maps the page of byte i of segment j. */
  ghost predicate HitLater(segs: seq<Phdr>, j: nat, k: nat, i: nat)
    requires j < |segs| && k <= |segs|
  {
    exists t :: j < t < k && segs[t].kind == PT_LOAD && HitBy(segs[j], segs[t], i)
  }

  /** On a page of another segment's bytes there is none of this one's. */
  lemma NoByteThere(file: seq<Byte>, s: Phdr, t: Phdr, i: nat)
    requires (Before(s, t) || Before(t, s)) && i < s.memsz && t.filesz <= t.memsz
    ensures ByteIn(file, t, s.paddr + i) == 0
  {
    var v := s.paddr + i;
    if t.paddr <= v < t.paddr + t.memsz {
      BytesApart(s, t, i, v - t.paddr);
    }
  }

  lemma BytesApart(s: Phdr, t: Phdr, i: nat, k: nat)
    requires (Before(s, t) || Before(t, s)) && i < s.memsz && k < t.memsz
    ensures s.paddr + i != t.paddr + k
  {
    SamePageOrder(s.paddr, i, s.memsz);
    SamePageOrder(t.paddr, k, t.memsz);
  }

  lemma SamePageOrder(p: nat, i: nat, n: nat)
    requires i < n
    ensures p / 4096 <= (p + i) / 4096 <= (p + n - 1) / 4096
  {
  }

  lemma {:induction false} DisjointImage(file: seq<Byte>, segs: seq<Phdr>, j: nat, k: nat, i: nat)
    requires j < k <= |segs| && PageDisjoint(segs) && AllGood(file, segs)
    requires segs[j].kind == PT_LOAD && i < segs[j].memsz
    ensures ImageAt(file, segs, k, segs[j].paddr + i)
            == Some(if HitLater(segs, j, k, i) then 0 else Expected(file, segs[j], segs[j].filesz, i))
    decreases k
  {
    SegmentMaps(segs[j], i);
    if k - 1 > j {
      DisjointImage(file, segs, j, k - 1, i);
      if segs[k - 1].kind == PT_LOAD && HitBy(segs[j], segs[k - 1], i) {
        NoByteThere(file, segs[j], segs[k - 1], i);
      }
    }
  }

  /** For page-disjoint segments in any order: segment j ends up loaded if and only if its bytes
      on pages that later headers map again are all zero. */
  lemma IntactWhenDisjoint(file: seq<Byte>, segs: seq<Phdr>, j: nat)
    requires PageDisjoint(segs) && AllGood(file, segs) && j < |segs| && segs[j].kind == PT_LOAD
    ensures Intact(file, segs, j) <==>
            forall i :: 0 <= i < segs[j].memsz && HitLater(segs, j, |segs|, i) ==>
              Expected(file, segs[j], segs[j].filesz, i) == 0
  {
    forall i | 0 <= i < segs[j].memsz
      ensures IntactByte(file, segs, j, i)
         <==> (HitLater(segs, j, |segs|, i) ==> Expected(file, segs[j], segs[j].filesz, i) == 0)
    {
      DisjointImage(file, segs, j, |segs|, i);
    }
  }

  /** Two segments of one byte each, the second a page below the first: the first is lost. */
  lemma DescendingLost()
    ensures var file, segs := [7, 9], [Phdr(PT_LOAD, 0, 0x5000, 1, 1), Phdr(PT_LOAD, 1, 0x4000, 1, 1)];
            AllGood(file, segs) && PageDisjoint(segs) && !Intact(file, segs, 0) && Intact(file, segs, 1)
  {
    var file: seq<Byte>, segs := [7, 9], [Phdr(PT_LOAD, 0, 0x5000, 1, 1), Phdr(PT_LOAD, 1, 0x4000, 1, 1)];
    assert MapsAddr(segs[1], 0x5000) && MapsAddr(segs[1], 0x4000);
    assert ImageAt(file, segs, 2, 0x5000) == Some(ByteIn(file, segs[1], 0x5000)) == Some(0);
    assert ImageAt(file, segs, 2, 0x4000) == Some(ByteIn(file, segs[1], 0x4000)) == Some(9);
    assert !IntactByte(file, segs, 0, 0) && IntactByte(file, segs, 1, 0);
  }

  /** In ascending order every segment is intact, although pages far beyond each one's end are
      mapped for it. */
  lemma AscendingIntact(file: seq<Byte>, segs: seq<Phdr>, j: nat)
    requires Ascending(segs) && AllGood(file, segs) && j < |segs| && segs[j].kind == PT_LOAD
    ensures Intact(file, segs, j)
  {
    forall i | 0 <= i < segs[j].memsz ensures !HitLater(segs, j, |segs|, i) {
      forall t | j < t < |segs| && segs[t].kind == PT_LOAD ensures !HitBy(segs[j], segs[t], i) {
        ByteBefore(segs[j], i, segs[t].paddr / 4096);
      }
    }
    IntactWhenDisjoint(file, segs, j);
  }

  /** `mmap` of a segment's pages in world w and address space r, with frames enough. */
  method MapSegment(m: Machine, file: seq<Byte>, seg: Phdr, ghost w: World, ghost r: nat)
    requires m.Valid() && m.Synced() && w == m.State() && r == m.cr3 / 4096
    requires GoodSegment(file, seg) && FitsSegment(FlatOf(w, r), seg)
    modifies m.ram, m`tabs, m`tlb, m`stale
    ensures m.Valid() && m.Synced()
    ensures TurnsDo(w, m.State(), r, SegPages(seg), FlagsOf(PROT_SEGMENT)) && Fresh(w, m.State(), r, SegPages(seg))
    ensures Bounded(FlatOf(w, r)) && FlatOf(m.State(), r) == AfterSegment(FlatOf(w, r), seg)
    ensures TakenBy(w, m.State(), r, seg)
  {
    CanonicalFlushed(seg.paddr, PageCount(seg), PageCount(seg));
    var ret := MmapAt(m, m.cr3, seg.paddr, PageCount(seg), PROT_SEGMENT);
    SegmentMapped(w, m.State(), r, seg, ret);
    ghost var cost := SegmentGot(w, m.State(), r, seg, ret);
    TakenFrom(w, m.State(), r, seg, cost);
  }

  lemma ReadyToCopy(w0: World, w1: World, r: nat, file: seq<Byte>, seg: Phdr, cells: seq<Cell>)
    requires Fresh(w0, w1, r, SegPages(seg)) && CellsOf(w1.mem, r, seg, cells)
    ensures OwnCells(w0, w1, cells) && Bytes(w1.mem, cells, file, seg, 0)
  {
    FreshCells(w0, w1, r, seg, cells);
  }

  /** The body of the loop for a PT_LOAD header, in world w0 and address space r: map, then copy.
      w1 is the world in between. */
  method LoadSegment(m: Machine, file: seq<Byte>, seg: Phdr, ghost w0: World, ghost r: nat) returns (ghost w1: World)
    requires m.Valid() && m.Synced() && w0 == m.State() && r == m.cr3 / 4096
    requires GoodSegment(file, seg) && FitsSegment(FlatOf(w0, r), seg)
    modifies m.ram, m`tabs, m`tlb, m`stale
    ensures m.Valid() && m.Synced()
    ensures TurnsDo(w0, w1, r, SegPages(seg), FlagsOf(PROT_SEGMENT)) && Moving(w0, w1, m.State(), r)
    ensures SegmentImage(m.State(), r, file, seg) && Loaded(m.State(), r, file, seg)
    ensures Bounded(FlatOf(w0, r)) && FlatOf(m.State(), r) == AfterSegment(FlatOf(w0, r), seg)
    ensures SparesApart(w0, m.State(), r) && TakenBy(w0, m.State(), r, seg)
  {
    MapSegment(m, file, seg, w0, r);
    w1 := m.State();
    ghost var cells := SegCells(w1.mem, r, seg);
    ReadyToCopy(w0, w1, r, file, seg, cells);
    CopySegment(m, file, seg, w0, cells);
    CopiedImage(w0, w1, m.State(), r, file, seg, cells, seg.filesz);
    ImageIsLoaded(m.State(), r, file, seg);
    SegmentApart(w0, w1, m.State(), r, seg);
    StillTaken(w0, w1, m.State(), r, seg);
  }

  lemma StillTaken(w0: World, w1: World, w: World, r: nat, seg: Phdr)
    requires IsRoot(w1, r) && Moving(w0, w1, w, r) && TakenBy(w0, w1, r, seg)
    ensures TakenBy(w0, w, r, seg)
  {
    forall n: nat | seg.paddr / 4096 <= n < seg.paddr / 4096 + seg.memsz + 4095 ensures GivenPage(w0, w, r, n) {
      assert GivenPage(w0, w1, r, n);
      StillGiven(w0, w1, w, r, n);
    }
  }

  lemma StillGiven(w0: World, w1: World, w: World, r: nat, n: nat)
    requires IsRoot(w1, r) && Moving(w0, w1, w, r) && GivenPage(w0, w1, r, n)
    ensures GivenPage(w0, w, r, n)
  {
    assert Leaf(w.mem, r, PageAt(n)) == Leaf(w1.mem, r, PageAt(n));
  }

  // ---- the file ----------------------------------------------------------------------------------

  /** A little-endian field of n bytes at offset `at`. */
  function Field(s: seq<Byte>, at: nat, n: nat): nat
    decreases n
  {
    if n == 0 then 0 else (if at < |s| then s[at] else 0) + 256 * Field(s, at + 1, n - 1)
  }

  function Little(x: nat, n: nat): (s: seq<Byte>)
    ensures |s| == n
    decreases n
  {
    if n == 0 then [] else [x % 256] + Little(x / 256, n - 1)
  }

  lemma {:induction false} FieldOfLittle(pre: seq<Byte>, x: nat, n: nat, post: seq<Byte>)
    requires x < Pow256(n)
    ensures Field(pre + Little(x, n) + post, |pre|, n) == x
    decreases n
  {
    if n > 0 {
      var d, rest := [x % 256], Little(x / 256, n - 1);
      FieldOfLittle(pre + d, x / 256, n - 1, post);
      assert pre + d + rest + post == pre + Little(x, n) + post;
      assert (pre + Little(x, n) + post)[|pre|] == x % 256;
    }
  }

  lemma {:induction false} FieldBound(s: seq<Byte>, at: nat, n: nat)
    ensures Field(s, at, n) < Pow256(n)
    decreases n
  {
    if n > 0 { FieldBound(s, at + 1, n - 1); }
  }

  /** `is_valid`: the four magic bytes. */
  predicate IsValid(s: seq<Byte>)
    requires |s| >= 64
  {
    s[0] == 0x7F && s[1] == 'E' as int && s[2] == 'L' as int && s[3] == 'F' as int
  }

  /** `is_supported`: a 64-bit little-endian x86-64 executable of the current version. */
  predicate IsSupported(s: seq<Byte>)
    requires |s| >= 64
  {
    s[4] == 2 && s[5] == 1 && Field(s, 18, 2) == 62 && Field(s, 20, 4) == 1 && Field(s, 16, 2) == 2
  }

  predicate Accepted(file: Option<seq<Byte>>) {
    file.Some? && |file.value| >= 64 && IsValid(file.value) && IsSupported(file.value)
  }

  function Entry(s: seq<Byte>): nat { Field(s, 24, 8) }
  function PhOff(s: seq<Byte>): nat { Field(s, 32, 8) }
  function PhEntSize(s: seq<Byte>): nat { Field(s, 54, 2) }
  function PhNum(s: seq<Byte>): nat { Field(s, 56, 2) }

  /** The program header at offset `at`. */
  function ReadPhdr(s: seq<Byte>, at: nat): Phdr {
    Phdr(Field(s, at, 4), Field(s, at + 8, 8), Field(s, at + 24, 8), Field(s, at + 32, 8), Field(s, at + 40, 8))
  }

  // Bytes in ELF's field types.
  function HalfSize(): nat { 2 }
  function WordSize(): nat { 4 }
  function XwordSize(): nat { 8 }

  /** An Elf64_Phdr as it is laid out in a file; word and xword are the sizes of its field types. */
  function PhdrBytes(p: Phdr, flags: nat, vaddr: nat, align: nat, word: nat, xword: nat): seq<Byte> {
    Little(p.kind, word) + Little(flags, word) + Little(p.offset, xword) + Little(vaddr, xword)
    + Little(p.paddr, xword) + Little(p.filesz, xword) + Little(p.memsz, xword) + Little(align, xword)
  }

  predicate FitsPhdr(p: Phdr) {
    && p.kind < 0x1_0000_0000 && p.offset < WORD_LIMIT && p.paddr < WORD_LIMIT
    && p.filesz < WORD_LIMIT && p.memsz < WORD_LIMIT
  }

  lemma FieldLimits(half: nat, word: nat, xword: nat)
    requires half == 2 && word == 4 && xword == 8
    ensures Pow256(half) == 0x1_0000 && Pow256(word) == 0x1_0000_0000 && Pow256(xword) == WORD_LIMIT
  {
    assert Pow256(2) == 0x1_0000 && Pow256(4) == 0x1_0000_0000 && Pow256(8) == WORD_LIMIT;
  }

  /** A field found by its place among the bytes before and after it. */
  lemma FieldAt(s: seq<Byte>, pre: seq<Byte>, x: nat, n: nat, post: seq<Byte>, at: nat)
    requires s == pre + Little(x, n) + post && at == |pre| && x < Pow256(n)
    ensures Field(s, at, n) == x
  {
    FieldOfLittle(pre, x, n, post);
  }

  /** Reading a program header undoes its layout, wherever in the file it stands. */
  lemma PhdrRoundTrip(pre: seq<Byte>, p: Phdr, flags: nat, vaddr: nat, align: nat, post: seq<Byte>)
    requires FitsPhdr(p)
    ensures ReadPhdr(pre + PhdrBytes(p, flags, vaddr, align, WordSize(), XwordSize()) + post, |pre|) == p
  {
    var s := pre + PhdrBytes(p, flags, vaddr, align, WordSize(), XwordSize()) + post;
    FieldLimits(HalfSize(), WordSize(), XwordSize());
    PhdrFields(s, pre, p, flags, vaddr, align, post, WordSize(), XwordSize());
  }

  lemma PhdrFields(s: seq<Byte>, pre: seq<Byte>, p: Phdr, flags: nat, vaddr: nat, align: nat, post: seq<Byte>,
                   n4: nat, n8: nat)
    requires n4 == 4 && n8 == 8
    requires p.kind < Pow256(n4) && p.offset < Pow256(n8) && p.paddr < Pow256(n8)
    requires p.filesz < Pow256(n8) && p.memsz < Pow256(n8)
    requires s == pre + PhdrBytes(p, flags, vaddr, align, n4, n8) + post
    ensures Field(s, |pre|, n4) == p.kind && Field(s, |pre| + 8, n8) == p.offset
    ensures Field(s, |pre| + 24, n8) == p.paddr && Field(s, |pre| + 32, n8) == p.filesz
    ensures Field(s, |pre| + 40, n8) == p.memsz
  {
    var a, b, c, d := Little(p.kind, n4), Little(flags, n4), Little(p.offset, n8), Little(vaddr, n8);
    var e, f, g, h := Little(p.paddr, n8), Little(p.filesz, n8), Little(p.memsz, n8), Little(align, n8);
    Regroup(pre, a, b, c, d, e, f, g, h, post);
    FieldAt(s, pre, p.kind, n4, b + c + d + e + f + g + h + post, |pre|);
    FieldAt(s, pre + a + b, p.offset, n8, d + e + f + g + h + post, |pre| + 8);
    FieldAt(s, pre + a + b + c + d, p.paddr, n8, f + g + h + post, |pre| + 24);
    FieldAt(s, pre + a + b + c + d + e, p.filesz, n8, g + h + post, |pre| + 32);
    FieldAt(s, pre + a + b + c + d + e + f, p.memsz, n8, h + post, |pre| + 40);
  }

  lemma Regroup(pre: seq<Byte>, a: seq<Byte>, b: seq<Byte>, c: seq<Byte>, d: seq<Byte>,
                e: seq<Byte>, f: seq<Byte>, g: seq<Byte>, h: seq<Byte>, post: seq<Byte>)
    ensures var s := pre + (a + b + c + d + e + f + g + h) + post;
            && s == pre + a + (b + c + d + e + f + g + h + post)
            && s == pre + a + b + c + (d + e + f + g + h + post)
            && s == pre + a + b + c + d + e + (f + g + h + post)
            && s == pre + a + b + c + d + e + f + (g + h + post)
            && s == pre + a + b + c + d + e + f + g + (h + post)
  {
  }

  /** Where `phdr` points after k times adding e_phentsize. */
  function PhdrOffset(s: seq<Byte>, k: nat): (at: nat)
    decreases k
  {
    if k == 0 then PhOff(s) else PhdrOffset(s, k - 1) + PhEntSize(s)
  }

  ghost function Phdrs(s: seq<Byte>): (segs: seq<Phdr>)
    ensures |segs| == PhNum(s)
    ensures forall k :: 0 <= k < |segs| ==> segs[k] == ReadPhdr(s, PhdrOffset(s, k))
  {
    seq(PhNum(s), k requires 0 <= k < PhNum(s) => ReadPhdr(s, PhdrOffset(s, k)))
  }

  /** What the source takes for granted of an accepted file: its header table lies in the file,
      and so do its PT_LOAD segments. */
  ghost predicate Loadable(s: seq<Byte>) {
    && PhEntSize(s) >= 56 && PhdrOffset(s, PhNum(s)) <= |s| && PhdrOffset(s, PhNum(s)) - PhOff(s) < 0x8000_0000
    && AllGood(s, Phdrs(s))
  }

  /** The state between two turns of the loop over the program headers. */
  ghost predicate Loading(w0: World, w: World, r: nat, s: seq<Byte>, segs: seq<Phdr>, k: nat) {
    && k <= |segs| && Spares(w0, w, segs[..k]) && Imaged(w, r, s, segs, k)
    && SparesApart(w0, w, r) && Bounded(FlatOf(w, r)) && Fits(FlatOf(w, r), segs[k..])
  }

  lemma FitsNext(a: Flat, segs: seq<Phdr>, k: nat)
    requires Bounded(a) && k < |segs| && Fits(a, segs[k..])
    ensures if segs[k].kind == PT_LOAD then FitsSegment(a, segs[k]) && Fits(AfterSegment(a, segs[k]), segs[k + 1..])
            else Fits(a, segs[k + 1..])
  {
    assert segs[k..][1..] == segs[k + 1..];
  }

  lemma LoadingNext(w0: World, w: World, w1: World, w': World, r: nat, s: seq<Byte>, segs: seq<Phdr>, k: nat,
                    flags: Word)
    requires Inv(w) && IsRoot(w, r) && IsRoot(w0, r) && k < |segs| && Loading(w0, w, r, s, segs, k)
    requires segs[k].kind == PT_LOAD
    requires TurnsDo(w, w1, r, SegPages(segs[k]), flags) && Moving(w, w1, w', r)
    requires AllGood(s, segs) && SegmentImage(w', r, s, segs[k])
    requires SparesApart(w, w', r) && FlatOf(w', r) == AfterSegment(FlatOf(w, r), segs[k])
    ensures Loading(w0, w', r, s, segs, k + 1)
  {
    SegmentSpares(w, w1, w', r, segs[k], flags);
    SparesSnoc(w0, w, w', segs, k);
    ImagedNext(w, w1, w', r, s, segs, k, k + 1, flags);
    FitsNext(FlatOf(w, r), segs, k);
    ApartTransitive(w0, w, w', r);
  }

  lemma LoadingSkip(w0: World, w: World, r: nat, s: seq<Byte>, segs: seq<Phdr>, k: nat)
    requires k < |segs| && Loading(w0, w, r, s, segs, k) && segs[k].kind != PT_LOAD
    ensures Loading(w0, w, r, s, segs, k + 1)
  {
    SparesSnoc(w0, w, w, segs, k);
    ImagedSkip(w, r, s, segs, k, k + 1);
    FitsNext(FlatOf(w, r), segs, k);
  }

  lemma LoadingStarts(w: World, r: nat, s: seq<Byte>, segs: seq<Phdr>)
    requires Bounded(FlatOf(w, r)) && Fits(FlatOf(w, r), segs)
    ensures Loading(w, w, r, s, segs, 0)
  {
  }

  /** The frames suffice for these segments in the current address space. */
  ghost predicate HasFrames(m: Machine, segs: seq<Phdr>)
    reads m`bitmap, m`bitmapSize, m`tabs, m`cr3, m.ram
  {
    var a := FlatOf(m.State(), m.cr3 / 4096);
    Bounded(a) && Fits(a, segs)
  }

  /** `elf_load`, given the file that `initrd_open` found. */
  method ElfLoad(m: Machine, file: Option<seq<Byte>>) returns (entry: Word)
    requires m.Valid() && m.Synced()
    requires file.Some? ==> |file.value| >= 64
    requires Accepted(file) ==> Loadable(file.value) && HasFrames(m, Phdrs(file.value))
    modifies m.ram, m`tabs, m`tlb, m`stale
    ensures m.Valid() && m.Synced()
    ensures !Accepted(file) ==> entry == 0 && m.State() == old(m.State())
    ensures Accepted(file) ==> entry == Entry(file.value)
    ensures Accepted(file) ==> Spares(old(m.State()), m.State(), Phdrs(file.value))
    ensures Accepted(file) ==> SparesApart(old(m.State()), m.State(), m.cr3 / 4096)
    ensures Accepted(file) ==> Imaged(m.State(), m.cr3 / 4096, file.value, Phdrs(file.value), PhNum(file.value))
    ensures Accepted(file) ==>
              forall k :: 0 <= k < PhNum(file.value) && Phdrs(file.value)[k].kind == PT_LOAD ==>
                (Loaded(m.State(), m.cr3 / 4096, file.value, Phdrs(file.value)[k])
                 <==> Intact(file.value, Phdrs(file.value), k))
  {
    if file.None? || !IsValid(file.value) || !IsSupported(file.value) {
      return 0;
    }
    LoadableHeaders(file.value, Phdrs(file.value));
    LoadSegments(m, file.value, PhNum(file.value), Phdrs(file.value));
    AllIffIntact(m.State(), m.cr3 / 4096, file.value, Phdrs(file.value), PhNum(file.value));
    FieldBound(file.value, 24, 8);
    assert Pow256(8) == WORD_LIMIT;
    entry := Entry(file.value);
  }

  lemma AllIffIntact(w: World, r: nat, file: seq<Byte>, segs: seq<Phdr>, n: nat)
    requires n == |segs| && Imaged(w, r, file, segs, n)
    ensures forall k :: 0 <= k < n && segs[k].kind == PT_LOAD ==>
              (Loaded(w, r, file, segs[k]) <==> Intact(file, segs, k))
  {
    forall k | 0 <= k < n && segs[k].kind == PT_LOAD
      ensures Loaded(w, r, file, segs[k]) <==> Intact(file, segs, k)
    {
      LoadedIffIntact(w, r, file, segs, n, k);
    }
  }

  /** segs are the program headers of the file, and fit for loading. */
  ghost predicate Headers(s: seq<Byte>, segs: seq<Phdr>) {
    AllGood(s, segs) && forall k :: 0 <= k < |segs| ==> GoodHeader(s, segs[k], k)
  }

  ghost predicate GoodHeader(s: seq<Byte>, seg: Phdr, k: nat) {
    seg == ReadPhdr(s, PhdrOffset(s, k)) && (seg.kind == PT_LOAD ==> GoodSegment(s, seg))
  }

  lemma LoadableHeaders(s: seq<Byte>, segs: seq<Phdr>)
    requires Loadable(s) && segs == Phdrs(s)
    ensures Headers(s, segs)
  {
  }

  lemma LoadingEnds(w0: World, w: World, r: nat, s: seq<Byte>, segs: seq<Phdr>)
    requires Loading(w0, w, r, s, segs, |segs|)
    ensures Spares(w0, w, segs) && SparesApart(w0, w, r) && Imaged(w, r, s, segs, |segs|)
  {
  }

  /** The loop over the program headers. */
  method LoadSegments(m: Machine, s: seq<Byte>, n: nat, ghost segs: seq<Phdr>)
    requires m.Valid() && m.Synced()
    requires n == |segs| && Headers(s, segs) && HasFrames(m, segs)
    modifies m.ram, m`tabs, m`tlb, m`stale
    ensures m.Valid() && m.Synced()
    ensures Spares(old(m.State()), m.State(), segs) && SparesApart(old(m.State()), m.State(), m.cr3 / 4096)
    ensures Imaged(m.State(), m.cr3 / 4096, s, segs, n)
  {
    ghost var w0 := m.State();
    LoadingStarts(w0, m.cr3 / 4096, s, segs);
    var k := 0;
    while k < n
      invariant 0 <= k <= n
      invariant m.Valid() && m.Synced()
      invariant Loading(w0, m.State(), m.cr3 / 4096, s, segs, k)
    {
      assert GoodHeader(s, segs[k], k);
      LoadHeader(m, s, ReadPhdr(s, PhdrOffset(s, k)), w0, segs, k);
      k := k + 1;
    }
    LoadingEnds(w0, m.State(), m.cr3 / 4096, s, segs);
  }

  /** One turn of that loop. */
  method LoadHeader(m: Machine, s: seq<Byte>, seg: Phdr, ghost w0: World, ghost segs: seq<Phdr>, ghost k: nat)
    requires m.Valid() && m.Synced()
    requires k < |segs| && seg == segs[k] && AllGood(s, segs)
    requires IsRoot(w0, m.cr3 / 4096) && Loading(w0, m.State(), m.cr3 / 4096, s, segs, k)
    modifies m.ram, m`tabs, m`tlb, m`stale
    ensures m.Valid() && m.Synced()
    ensures Loading(w0, m.State(), m.cr3 / 4096, s, segs, k + 1)
  {
    ghost var w := m.State();
    FitsNext(FlatOf(w, m.cr3 / 4096), segs, k);
    if seg.kind == PT_LOAD {
      ghost var w1 := LoadSegment(m, s, seg, w, m.cr3 / 4096);
      LoadingNext(w0, w, w1, m.State(), m.cr3 / 4096, s, segs, k, FlagsOf(PROT_SEGMENT));
    } else {
      LoadingSkip(w0, w, m.cr3 / 4096, s, segs, k);
    }
  }
}
