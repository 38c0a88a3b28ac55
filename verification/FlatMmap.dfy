/** sys/src/mm/mmap.c on the flat machine: what a run of the page-mapping loop gives and
    what it costs. */
module FlatMmap {
  import opened Words
  import opened Paging
  import opened Forest
  import opened Flat
  import opened Calls

  const ENOMEM: int := 2

  /** Frames are numbered from 1, so that address 0 can mean "none". */
  ghost predicate Bounded(a: Flat) {
    forall f :: f in a.free ==> 0 < f < MAX_FRAMES
  }

  ghost function Taken(a: Flat): Flat
    requires a.free != {}
  {
    Flat(a.pte, a.tables, a.free - {Min(a.free)})
  }

  /** One turn of the loop: a frame, then page p mapped to it. */
  ghost function MapNext(a: Flat, p: Page, flags: Word): Flat
    requires a.free != {} && Bounded(a)
  {
    Map(Taken(a), p, EntryFor(4096 * Min(a.free), flags))
  }

  lemma MapFrees(a: Flat, p: Page, e: Word)
    ensures Map(a, p, e).free <= a.free
  {
  }

  /** The loop of `mmap` over the given pages: the machine afterwards and the result. */
  ghost function Mmap(a: Flat, pages: seq<Page>, flags: Word): (Flat, int)
    requires Bounded(a)
    decreases |pages|
  {
    if pages == [] then (a, 0)
    else if a.free == {} then (a, -ENOMEM)
    else
      MapFrees(Taken(a), pages[0], EntryFor(4096 * Min(a.free), flags));
      Mmap(MapNext(a, pages[0], flags), pages[1..], flags)
  }

  lemma NextFrees(a: Flat, p: Page, flags: Word)
    requires a.free != {} && Bounded(a)
    ensures Bounded(MapNext(a, p, flags))
    ensures MapNext(a, p, flags).free <= a.free - {Min(a.free)}
  {
  }

  lemma NextWellFormed(a: Flat, p: Page, flags: Word)
    requires a.free != {} && Bounded(a) && WellFormed(a)
    ensures WellFormed(MapNext(a, p, flags))
    ensures MapNext(a, p, flags).pte ==
            if Walk(Taken(a), p).1 then a.pte[p := EntryFor(4096 * Min(a.free), flags)] else a.pte
    ensures !Walk(Taken(a), p).1 ==> MapNext(a, p, flags).free == {}
  {
    WalkWellFormed(Taken(a), p);
    WalkCost(Taken(a), p);
  }

  /** A page table that cannot be made on any page but the last turns the next iteration
      into -ENOMEM. */
  lemma TableFailureForcesEnomem(a: Flat, pages: seq<Page>, flags: Word)
    requires Bounded(a) && WellFormed(a) && a.free != {} && |pages| >= 2
    requires !Walk(Taken(a), pages[0]).1
    ensures Mmap(a, pages, flags) == (MapNext(a, pages[0], flags), -ENOMEM)
  {
  }

  /** Other pages keep their entries, whatever the result. */
  lemma {:induction false} MmapElsewhere(a: Flat, pages: seq<Page>, flags: Word, p: Page)
    requires Bounded(a) && WellFormed(a) && p !in pages
    ensures WellFormed(Mmap(a, pages, flags).0)
    ensures Mmap(a, pages, flags).0.pte[p] == a.pte[p]
    decreases |pages|
  {
    if pages != [] && a.free != {} {
      NextWellFormed(a, pages[0], flags);
      NextFrees(a, pages[0], flags);
      MmapElsewhere(MapNext(a, pages[0], flags), pages[1..], flags, p);
    }
  }

  lemma {:induction false} MmapFrees(a: Flat, pages: seq<Page>, flags: Word)
    requires Bounded(a)
    ensures Mmap(a, pages, flags).0.free <= a.free
    decreases |pages|
  {
    if pages != [] && a.free != {} {
      NextFrees(a, pages[0], flags);
      MmapFrees(MapNext(a, pages[0], flags), pages[1..], flags);
    }
  }

  /** p ends up mapped, with the given flags, to a frame that was free on entry. */
  ghost predicate MappedFresh(a: Flat, a': Flat, p: Page, flags: Word) {
    && p in a'.pte
    && FrameOf(a'.pte[p]) in a.free
    && FrameOf(a'.pte[p]) !in a'.free
    && a'.pte[p] == EntryFor(4096 * FrameOf(a'.pte[p]), flags)
  }

  ghost predicate Distinct(pages: seq<Page>) {
    forall j, k :: 0 <= j < k < |pages| ==> pages[j] != pages[k]
  }

  /** Every iteration found a frame and a page table. */
  ghost predicate AllMapped(a: Flat, pages: seq<Page>, flags: Word)
    requires Bounded(a)
    decreases |pages|
  {
    pages == [] ||
    (a.free != {} && Walk(Taken(a), pages[0]).1 &&
     (NextFrees(a, pages[0], flags); AllMapped(MapNext(a, pages[0], flags), pages[1..], flags)))
  }

  /** If every iteration succeeded, the result is 0, and the pages are mapped to pairwise
      distinct frames that were free on entry and are not free any more. */
  lemma {:induction false} AllMappedFresh(a: Flat, pages: seq<Page>, flags: Word)
    requires Bounded(a) && WellFormed(a) && FlagsOnly(flags) && Distinct(pages)
    requires AllMapped(a, pages, flags)
    ensures Mmap(a, pages, flags).1 == 0
    ensures var a' := Mmap(a, pages, flags).0;
            && (forall k :: 0 <= k < |pages| ==> MappedFresh(a, a', pages[k], flags))
            && (forall j, k :: 0 <= j < k < |pages| ==> FrameOf(a'.pte[pages[j]]) != FrameOf(a'.pte[pages[k]]))
    decreases |pages|
  {
    if pages != [] {
      var p, rest, b := pages[0], pages[1..], MapNext(a, pages[0], flags);
      NextWellFormed(a, p, flags);
      NextFrees(a, p, flags);
      AllMappedFresh(b, rest, flags);
      NextMaps(a, pages, flags);
      var a' := Mmap(a, pages, flags).0;
      forall k | 1 <= k < |pages|
        ensures MappedFresh(a, a', pages[k], flags) && FrameOf(a'.pte[pages[k]]) in b.free
      {
        assert MappedFresh(b, a', rest[k - 1], flags);
      }
      forall j, k | 0 <= j < k < |pages| ensures FrameOf(a'.pte[pages[j]]) != FrameOf(a'.pte[pages[k]]) {
        if j > 0 { assert FrameOf(a'.pte[rest[j - 1]]) != FrameOf(a'.pte[rest[k - 1]]); }
      }
    }
  }

  lemma NextMaps(a: Flat, pages: seq<Page>, flags: Word)
    requires Bounded(a) && WellFormed(a) && FlagsOnly(flags) && a.free != {}
    requires pages != [] && pages[0] !in pages[1..]
    requires Walk(Taken(a), pages[0]).1
    ensures var a' := Mmap(a, pages, flags).0;
            MappedFresh(a, a', pages[0], flags) && FrameOf(a'.pte[pages[0]]) == Min(a.free)
  {
    var f, b := Min(a.free), MapNext(a, pages[0], flags);
    NextWellFormed(a, pages[0], flags);
    NextFrees(a, pages[0], flags);
    MmapElsewhere(b, pages[1..], flags, pages[0]);
    MmapFrees(b, pages[1..], flags);
    LeafEntry(f, flags);
  }

  /** What a result of 0 means: the iterations before the last all succeeded, and the last
      either did too, or mapped nothing because its own table walk emptied the pool. */
  lemma {:induction false} MmapZero(a: Flat, pages: seq<Page>, flags: Word)
    requires Bounded(a) && WellFormed(a) && pages != []
    requires Mmap(a, pages, flags).1 == 0
    ensures AllMapped(a, pages[..|pages| - 1], flags)
    ensures AllMapped(a, pages, flags)
         || (Mmap(a, pages, flags).0.free == {}
             && Mmap(a, pages, flags).0.pte == Mmap(a, pages[..|pages| - 1], flags).0.pte)
    decreases |pages|
  {
    var p, rest, b := pages[0], pages[1..], MapNext(a, pages[0], flags);
    NextWellFormed(a, p, flags);
    NextFrees(a, p, flags);
    if rest != [] {
      if !Walk(Taken(a), p).1 {
        TableFailureForcesEnomem(a, pages, flags);
        assert false;
      }
      MmapZero(b, rest, flags);
      assert pages[..|pages| - 1][1..] == rest[..|rest| - 1];
    } else {
      assert pages[..0] == [];
    }
  }

  /** `mmap` returning 0: pages 0..n-2 are mapped to pairwise distinct frames that were free
      on entry; the last page is too unless the pool ran dry in its own table walk. */
  lemma MmapSuccess(a: Flat, pages: seq<Page>, flags: Word)
    requires Bounded(a) && WellFormed(a) && FlagsOnly(flags) && Distinct(pages) && pages != []
    requires Mmap(a, pages, flags).1 == 0
    ensures var (a', n) := (Mmap(a, pages, flags).0, |pages|);
            && (forall k :: 0 <= k < n - 1 ==> MappedFresh(a, a', pages[k], flags))
            && (forall j, k :: 0 <= j < k < n - 1 ==> FrameOf(a'.pte[pages[j]]) != FrameOf(a'.pte[pages[k]]))
    ensures AllMapped(a, pages, flags) || Mmap(a, pages, flags).0.free == {}
  {
    MmapZero(a, pages, flags);
    var init := pages[..|pages| - 1];
    if AllMapped(a, pages, flags) {
      AllMappedFresh(a, pages, flags);
    } else {
      AllMappedFresh(a, init, flags);
      var a', b := Mmap(a, pages, flags).0, Mmap(a, init, flags).0;
      forall k | 0 <= k < |pages| - 1 ensures MappedFresh(a, a', pages[k], flags) {
        assert MappedFresh(a, b, init[k], flags);
      }
      forall j, k | 0 <= j < k < |pages| - 1 ensures FrameOf(a'.pte[pages[j]]) != FrameOf(a'.pte[pages[k]]) {
        assert init[j] == pages[j] && init[k] == pages[k];
      }
    }
  }

  // ---- what it costs ---------------------------------------------------------------------------

  ghost function PrefixesOf(p: Page): set<Path> {
    {Sub(Root, p.i4), Sub(Sub(Root, p.i4), p.i3), PathOf(p)}
  }

  /** The tables the given pages hang from. */
  ghost function Prefixes(pages: seq<Page>): (s: set<Path>)
    ensures forall q :: q in s <==> exists k :: 0 <= k < |pages| && q in PrefixesOf(pages[k])
  {
    if pages == [] then {} else
    var rest := Prefixes(pages[1..]);
    assert forall k :: 1 <= k < |pages| ==> pages[k] == pages[1..][k - 1];
    assert forall k :: 0 <= k < |pages| - 1 ==> pages[1..][k] == pages[k + 1];
    PrefixesOf(pages[0]) + rest
  }

  /** The ones that do not exist yet. */
  ghost function NewTables(a: Flat, pages: seq<Page>): set<Path> {
    set q | q in Prefixes(pages) && q !in a.tables
  }

  ghost function ToIset(s: set<Path>): iset<Path> {
    iset q | q in s
  }

  lemma WalkTables(a: Flat, p: Page)
    requires Walk(a, p).1
    ensures Walk(a, p).0.tables == a.tables + ToIset(PrefixesOf(p))
  {
  }

  ghost function AbsentSet(a: Flat, path: Path): (s: set<Path>)
    ensures |s| == Absent(a, path)
    ensures forall q :: q in s <==> q == path && q !in a.tables
  {
    if path in a.tables then {} else {path}
  }

  ghost function AbsentOf(a: Flat, p: Page): (s: set<Path>)
    ensures forall q :: q in s <==> q in PrefixesOf(p) && q !in a.tables
  {
    AbsentSet(a, Sub(Root, p.i4)) + AbsentSet(a, Sub(Sub(Root, p.i4), p.i3)) + AbsentSet(a, PathOf(p))
  }

  lemma MissingIsAbsent(a: Flat, p: Page)
    ensures |AbsentOf(a, p)| == Missing(a, p)
  {
  }

  /** Going through the pages one by one splits the new tables accordingly. */
  lemma NewTablesSplit(a: Flat, b: Flat, pages: seq<Page>)
    requires pages != [] && b.tables == a.tables + ToIset(PrefixesOf(pages[0]))
    ensures |NewTables(a, pages)| == Missing(a, pages[0]) + |NewTables(b, pages[1..])|
  {
    var here, rest := AbsentOf(a, pages[0]), NewTables(b, pages[1..]);
    MissingIsAbsent(a, pages[0]);
    assert Prefixes(pages) == PrefixesOf(pages[0]) + Prefixes(pages[1..]);
    assert NewTables(a, pages) == here + rest;
    assert here !! rest;
  }

  lemma NewTablesFirst(a: Flat, pages: seq<Page>)
    requires pages != []
    ensures Missing(a, pages[0]) <= |NewTables(a, pages)|
  {
    var b := Flat(a.pte, a.tables + ToIset(PrefixesOf(pages[0])), a.free);
    NewTablesSplit(a, b, pages);
  }

  /** Frame conservation: `mmap` maps everything exactly when there is a frame for every page
      and for every table it has to create, and then it consumes exactly those. */
  lemma {:induction false} MmapCost(a: Flat, pages: seq<Page>, flags: Word)
    requires Bounded(a)
    ensures AllMapped(a, pages, flags) <==> |pages| + |NewTables(a, pages)| <= |a.free|
    ensures AllMapped(a, pages, flags) ==>
              var a' := Mmap(a, pages, flags).0;
              && |a'.free| == |a.free| - |pages| - |NewTables(a, pages)|
              && a'.tables == a.tables + ToIset(Prefixes(pages))
    decreases |pages|
  {
    if pages == [] {
      assert NewTables(a, pages) == {};
    } else if a.free != {} {
      var p, t, b := pages[0], Taken(a), MapNext(a, pages[0], flags);
      assert |t.free| == |a.free| - 1;
      NextFrees(a, p, flags);
      WalkCost(t, p);
      if Walk(t, p).1 {
        WalkTables(t, p);
        MmapCost(b, pages[1..], flags);
        NewTablesSplit(a, b, pages);
        assert Missing(t, p) == Missing(a, p);
      } else {
        NewTablesFirst(a, pages);
      }
    }
  }

  // ---- when the result is 0 --------------------------------------------------------------------

  /** After iterations that all succeeded, one more reaches the end of the call exactly when it
      finds a frame, whether or not it then maps its page. */
  lemma {:induction false} ZeroAfter(a: Flat, init: seq<Page>, last: Page, flags: Word)
    requires Bounded(a) && AllMapped(a, init, flags)
    ensures Mmap(a, init + [last], flags).1 == 0 <==> Mmap(a, init, flags).0.free != {}
    decreases |init|
  {
    if init == [] {
      assert (init + [last])[1..] == [];
    } else {
      assert (init + [last])[1..] == init[1..] + [last];
      NextFrees(a, init[0], flags);
      ZeroAfter(MapNext(a, init[0], flags), init[1..], last, flags);
    }
  }

  /** `mmap` returns 0 if and only if there is a frame for every page but the last, one for every
      table those need, and one more. */
  lemma MmapZeroWhen(a: Flat, init: seq<Page>, last: Page, flags: Word)
    requires Bounded(a) && WellFormed(a)
    ensures Mmap(a, init + [last], flags).1 == 0 <==> |init| + |NewTables(a, init)| < |a.free|
  {
    var pages := init + [last];
    assert pages[..|pages| - 1] == init;
    MmapCost(a, init, flags);
    if Mmap(a, pages, flags).1 == 0 { MmapZero(a, pages, flags); }
    if AllMapped(a, init, flags) { ZeroAfter(a, init, last, flags); }
  }

  /** It returns 0 although not every page is mapped if and only if that one more frame, but not a
      frame for every table, is there. */
  lemma LastPageMissing(a: Flat, pages: seq<Page>, init: seq<Page>, flags: Word)
    requires Bounded(a) && WellFormed(a) && pages != [] && init == pages[..|pages| - 1]
    ensures Mmap(a, pages, flags).1 == 0 && !AllMapped(a, pages, flags)
       <==> |init| + |NewTables(a, init)| < |a.free| < |pages| + |NewTables(a, pages)|
  {
    assert pages == init + [pages[|pages| - 1]];
    MmapZeroWhen(a, init, pages[|pages| - 1], flags);
    MmapCost(a, pages, flags);
  }

  /** Then the last page is as it was, and no frame is left. */
  lemma MissingPageStays(a: Flat, init: seq<Page>, last: Page, flags: Word)
    requires Bounded(a) && WellFormed(a) && last !in init
    requires Mmap(a, init + [last], flags).1 == 0 && !AllMapped(a, init + [last], flags)
    ensures Mmap(a, init + [last], flags).0.free == {}
    ensures last in Mmap(a, init + [last], flags).0.pte
         && Mmap(a, init + [last], flags).0.pte[last] == a.pte[last]
  {
    assert (init + [last])[..|init|] == init;
    MmapZero(a, init + [last], flags);
    MmapElsewhere(a, init, flags, last);
  }

  function NoEntry(p: Page): Word { 0 }

  /** No page mapped, no table, and one free frame. */
  ghost function OneFrame(): (a: Flat)
    ensures WellFormed(a) && Bounded(a)
  {
    Flat(imap p: Page :: NoEntry(p), iset{}, {1})
  }

  /** There `mmap` of one page takes the frame for the page, finds none for a table, maps nothing
      and returns 0. */
  lemma ZeroButUnmapped(p: Page, flags: Word)
    ensures Mmap(OneFrame(), [p], flags) == (Flat(OneFrame().pte, iset{}, {}), 0)
  {
    var a := OneFrame();
    assert Min(a.free) == 1 && Taken(a).free == {};
    assert [p][1..] == [];
  }

  // ---- consecutive pages -----------------------------------------------------------------------

  /** The n pages from page number m on. */
  ghost function Pages(m: nat, n: nat): (s: seq<Page>)
    ensures |s| == n
    decreases n
  {
    if n == 0 then [] else [PageAt(m)] + Pages(m + 1, n - 1)
  }

  lemma {:induction false} PagesAt(m: nat, n: nat, k: nat)
    requires k < n
    ensures Pages(m, n)[k] == PageAt(m + k)
    decreases n
  {
    if k > 0 { PagesAt(m + 1, n - 1, k - 1); }
  }

  lemma PagesDistinct(m: nat, n: nat)
    requires n <= NR_PAGES
    ensures Distinct(Pages(m, n))
  {
    forall j, k | 0 <= j < k < n ensures Pages(m, n)[j] != Pages(m, n)[k] {
      PagesAt(m, n, j);
      PagesAt(m, n, k);
      PageAtInjective(m + j, m + k);
      ModGap(m + j, k - j);
    }
  }

  lemma ModGap(x: nat, d: nat)
    requires 0 < d < NR_PAGES
    ensures x % NR_PAGES != (x + d) % NR_PAGES
  {
  }

  /** The table above page number j: level 1 is its page table, 2 and 3 those above. */
  ghost function TableOver(j: nat, level: nat): Path {
    var p := PageAt(j);
    if level == 1 then PathOf(p) else if level == 2 then Sub(Sub(Root, p.i4), p.i3) else Sub(Root, p.i4)
  }

  function Span(level: nat): (d: nat)
    ensures d > 0
  {
    if level == 1 then 512 else if level == 2 then 0x4_0000 else 0x800_0000
  }

  lemma SameTableOver(i: nat, j: nat, level: nat)
    requires i / Span(level) == j / Span(level)
    ensures TableOver(i, level) == TableOver(j, level)
  {
    if level == 1 {
      assert i / 512 / 512 == i / 0x4_0000 && j / 512 / 512 == j / 0x4_0000;
      assert i / 512 / 512 / 512 == i / 0x800_0000 && j / 512 / 512 / 512 == j / 0x800_0000;
    } else if level == 2 {
      assert i / 0x4_0000 / 512 == i / 0x800_0000 && j / 0x4_0000 / 512 == j / 0x800_0000;
    }
  }

  ghost function TablesOver(m: nat, n: nat, level: nat): (s: set<Path>)
    ensures forall k :: m <= k < m + n ==> TableOver(k, level) in s
    decreases n
  {
    if n == 0 then {} else TablesOver(m, n - 1, level) + {TableOver(m + n - 1, level)}
  }

  lemma {:induction false} TablesOverBound(m: nat, n: nat, level: nat)
    requires n > 0
    ensures |TablesOver(m, n, level)| <= (m + n - 1) / Span(level) - m / Span(level) + 1
    decreases n
  {
    var d := Span(level);
    if n > 1 {
      TablesOverBound(m, n - 1, level);
      DivMono(m + n - 2, d);
      if (m + n - 2) / d == (m + n - 1) / d {
        SameTableOver(m + n - 2, m + n - 1, level);
        assert TablesOver(m, n, level) == TablesOver(m, n - 1, level);
      }
    } else {
      assert TablesOver(m, 0, level) == {};
    }
  }

  lemma DivMono(x: nat, d: nat)
    requires d > 0
    ensures x / d <= (x + 1) / d
  {
    DivUnique(x, d, x / d, x % d);
    MulGap(d, x / d, (x + 1) / d);
  }

  function CeilDiv(n: nat, d: nat): nat
    requires d > 0
  {
    (n + d - 1) / d
  }

  /** The least multiple of d that covers n. */
  lemma CeilDivIs(n: nat, d: nat)
    requires d > 0
    ensures n <= d * CeilDiv(n, d) < n + d
  {
    var q, r := (n + d - 1) / d, (n + d - 1) % d;
    assert n + d - 1 == d * q + r;
  }

  lemma SpanBound(m: nat, n: nat, level: nat)
    requires n > 0
    ensures (m + n - 1) / Span(level) - m / Span(level) <= CeilDiv(n, Span(level))
  {
  }

  lemma SizeOfUnion(s: set<Path>, x: set<Path>, y: set<Path>, z: set<Path>)
    requires s <= x + y + z
    ensures |s| <= |x| + |y| + |z|
  {
    SubsetSize(s, x + y + z);
    assert |x + y| <= |x| + |y|;
  }

  lemma {:induction false} SubsetSize<T>(s: set<T>, t: set<T>)
    requires s <= t
    ensures |s| <= |t|
  {
    if s != {} {
      var x :| x in s;
      SubsetSize(s - {x}, t - {x});
    }
  }

  /** n consecutive pages need at most this many new tables, however they are aligned. */
  lemma NewTablesBound(a: Flat, m: nat, n: nat)
    requires n > 0
    ensures |NewTables(a, Pages(m, n))| <=
            (CeilDiv(n, 512) + 1) + (CeilDiv(n, 512 * 512) + 1) + (CeilDiv(n, 512 * 512 * 512) + 1)
  {
    var s := NewTables(a, Pages(m, n));
    forall q | q in s ensures q in TablesOver(m, n, 1) + TablesOver(m, n, 2) + TablesOver(m, n, 3) {
      var k :| 0 <= k < n && q in PrefixesOf(Pages(m, n)[k]);
      PagesAt(m, n, k);
      assert q == TableOver(m + k, 1) || q == TableOver(m + k, 2) || q == TableOver(m + k, 3);
    }
    SizeOfUnion(s, TablesOver(m, n, 1), TablesOver(m, n, 2), TablesOver(m, n, 3));
    TablesOverBound(m, n, 1);
    TablesOverBound(m, n, 2);
    TablesOverBound(m, n, 3);
    SpanBound(m, n, 1);
    SpanBound(m, n, 2);
    SpanBound(m, n, 3);
  }
}
