/** `pmm_init` of sys/src/mm/pmm.c: sizing and placing the bitmap, and filling it from the
    boot loader's memory map. */
module PmmInit {
  import opened Words
  import opened Paging
  import opened Forest
  import opened Bitmap
  import opened Machines
  import Pmm

  /** A memory map entry; `kind` 0 is usable memory. */
  datatype Entry = Entry(base: nat, length: nat, kind: nat)

  const USABLE: nat := 0

  /** Frame f lies in the usable entry e. */
  predicate Covers(e: Entry, f: nat) {
    e.kind == USABLE && e.base / 4096 <= f < (e.base + e.length) / 4096
  }

  predicate Usable(es: seq<Entry>, f: nat) {
    es != [] && (Usable(es[..|es| - 1], f) || Covers(es[|es| - 1], f))
  }

  /** What the boot loader promises: usable entries are page-aligned and disjoint. */
  ghost predicate GoodMap(es: seq<Entry>) {
    && (forall i :: 0 <= i < |es| && es[i].kind == USABLE ==> es[i].base % 4096 == 0 && es[i].length % 4096 == 0)
    && (forall i, j, f :: 0 <= i < j < |es| && Covers(es[i], f) ==> !Covers(es[j], f))
  }

  lemma {:induction false} UsableMeans(es: seq<Entry>, f: nat)
    ensures Usable(es, f) <==> exists i :: 0 <= i < |es| && Covers(es[i], f)
  {
    if es != [] {
      var n := |es| - 1;
      UsableMeans(es[..n], f);
      if Usable(es[..n], f) {
        var i :| 0 <= i < n && Covers(es[..n][i], f);
        assert Covers(es[i], f);
      }
      if i :| 0 <= i < |es| && Covers(es[i], f) && i < n {
        assert Covers(es[..n][i], f);
      }
    }
  }

  // ---- the size of the bitmap ----------------------------------------------------------------

  /** `ALIGN_UP((highest_addr/PAGE_SIZE)/8, PAGE_SIZE)` for n frames: the division truncates
      before the rounding up. */
  function SizeFor(n: nat): nat {
    (n / 8 + 4095) / 4096 * 4096
  }

  /** The bitmap has a bit for every frame unless the number of frames is 1 to 7 above a
      multiple of 32768, and then it is short by exactly those. */
  lemma SizeCovers(n: nat)
    ensures SizeFor(n) * 8 >= n <==> !(1 <= n % 32768 <= 7)
    ensures SizeFor(n) * 8 < n ==> n - SizeFor(n) * 8 == n % 32768 <= 7
    ensures SizeFor(n) % 4096 == 0
  {
  }

  /** The size is the one multiple of a page that holds a byte for every eight frames, the last few
      not counted, with less than a page to spare. */
  lemma SizeIsLeast(n: nat, size: nat)
    ensures size == SizeFor(n) <==> size % 4096 == 0 && n / 8 <= size < n / 8 + 4096
    ensures SizeFor(n) * 8 < n + 32768
  {
    var b := n / 8;
    var q := (b + 4095) / 4096;
    assert 4096 * q <= b + 4095 < 4096 * q + 4096;
    if size % 4096 == 0 && b <= size < b + 4096 {
      var p := size / 4096;
      assert size == 4096 * p;
      MulGap(4096, p, q);
      MulGap(4096, q, p);
    }
  }

  function MaxOf(a: nat, b: nat): nat { if a > b then a else b }

  /** Highest end of a usable entry. */
  function Highest(es: seq<Entry>): nat {
    if es == [] then 0
    else
      var e, h := es[|es| - 1], Highest(es[..|es| - 1]);
      if e.kind == USABLE then MaxOf(h, e.base + e.length) else h
  }

  lemma {:induction false} UsableBelowHighest(es: seq<Entry>, f: nat)
    requires Usable(es, f)
    ensures f < Highest(es) / 4096
  {
    var e := es[|es| - 1];
    if Usable(es[..|es| - 1], f) {
      UsableBelowHighest(es[..|es| - 1], f);
    } else {
      assert f < (e.base + e.length) / 4096;
    }
  }

  lemma {:induction false} HighestBounds(es: seq<Entry>, i: nat)
    requires i < |es| && es[i].kind == USABLE
    ensures es[i].base + es[i].length <= Highest(es)
  {
    if i < |es| - 1 {
      HighestBounds(es[..|es| - 1], i);
    }
  }

  /** `Highest` is an upper bound for the ends of usable entries, and one of them unless there is
      no usable entry. */
  ghost predicate IsHighest(es: seq<Entry>, h: nat) {
    && (forall i :: 0 <= i < |es| && es[i].kind == USABLE ==> es[i].base + es[i].length <= h)
    && (h == 0 || exists i :: 0 <= i < |es| && es[i].kind == USABLE && es[i].base + es[i].length == h)
  }

  lemma {:induction false} HighestAttained(es: seq<Entry>)
    ensures Highest(es) == 0
         || exists i :: 0 <= i < |es| && es[i].kind == USABLE && es[i].base + es[i].length == Highest(es)
  {
    if es != [] {
      var init := es[..|es| - 1];
      HighestAttained(init);
      if Highest(init) == Highest(es) && Highest(es) != 0 {
        var i :| 0 <= i < |init| && init[i].kind == USABLE && init[i].base + init[i].length == Highest(init);
        assert es[i] == init[i];
      }
    }
  }

  lemma HighestIsHighest(es: seq<Entry>)
    ensures IsHighest(es, Highest(es))
  {
    HighestAttained(es);
    forall i | 0 <= i < |es| && es[i].kind == USABLE ensures es[i].base + es[i].length <= Highest(es) {
      HighestBounds(es, i);
    }
  }

  // ---- carving the bitmap out of an entry ------------------------------------------------------

  function Carve(e: Entry, size: nat): Entry
    requires size <= e.length
  {
    Entry(e.base + size, e.length - size, e.kind)
  }

  lemma CarveCovers(e: Entry, size: nat, f: nat)
    requires e.kind == USABLE && size <= e.length && e.base % 4096 == 0 && size % 4096 == 0 && e.length % 4096 == 0
    ensures Covers(Carve(e, size), f) <==> Covers(e, f) && f !in BitmapFrames(e.base / 4096, size)
    ensures f in BitmapFrames(e.base / 4096, size) ==> Covers(e, f)
  {
  }

  /** After carving, exactly the frames that do not hold the bitmap remain usable. */
  lemma CarveUsable(es: seq<Entry>, i: nat, size: nat, f: nat)
    requires GoodMap(es) && i < |es| && es[i].kind == USABLE && size <= es[i].length && size % 4096 == 0
    ensures Usable(es[i := Carve(es[i], size)], f)
        <==> Usable(es, f) && f !in BitmapFrames(es[i].base / 4096, size)
  {
    var es' := es[i := Carve(es[i], size)];
    UsableMeans(es, f);
    UsableMeans(es', f);
    CarveCovers(es[i], size, f);
    if Usable(es', f) {
      var k :| 0 <= k < |es'| && Covers(es'[k], f);
      assert Covers(es[k], f);
    }
    if Usable(es, f) && f !in BitmapFrames(es[i].base / 4096, size) {
      var k :| 0 <= k < |es| && Covers(es[k], f);
      assert Covers(es'[k], f);
    }
  }

  // ---- the three loops --------------------------------------------------------------------------

  method FindHighest(entries: array<Entry>) returns (highest: nat)
    ensures highest == Highest(entries[..]) && IsHighest(entries[..], highest)
  {
    highest := 0;
    var i := 0;
    while i < entries.Length
      invariant 0 <= i <= entries.Length && highest == Highest(entries[..i])
    {
      assert entries[..i + 1][..i] == entries[..i];
      if entries[i].kind == USABLE {
        highest := MaxOf(highest, entries[i].base + entries[i].length);
      }
      i := i + 1;
    }
    assert entries[..i] == entries[..];
    HighestIsHighest(entries[..]);
  }

  /** `kmemset(bitmap, 0xFF, size)` */
  method FillBitmap(m: Machine)
    requires m.bitmapSize % 4096 == 0 && m.bitmap + m.bitmapSize / 4096 <= m.ram.Length
    modifies m.ram
    ensures forall k :: 0 <= k < m.bitmapSize ==> ReadByte(m.ram[..], m.bitmap, k) == 255
    ensures forall g :: 0 <= g < m.ram.Length && g !in BitmapFrames(m.bitmap, m.bitmapSize) ==>
              m.ram[g] == old(m.ram[g])
  {
    ghost var before := m.ram[..];
    var k := 0;
    while k < m.bitmapSize
      invariant 0 <= k <= m.bitmapSize
      invariant forall j :: 0 <= j < k ==> ReadByte(m.ram[..], m.bitmap, j) == 255
      invariant forall g :: 0 <= g < m.ram.Length && g !in BitmapFrames(m.bitmap, m.bitmapSize) ==>
                m.ram[g] == before[g]
    {
      PutByteAt(m, k, 255);
      k := k + 1;
    }
  }

  method PutByteAt(m: Machine, k: nat, b: Byte)
    requires m.bitmap + k / 4096 < m.ram.Length
    modifies m.ram
    ensures forall j: nat :: ReadByte(m.ram[..], m.bitmap, j) == if j == k then b else ReadByte(old(m.ram[..]),
              m.bitmap, j)
    ensures forall g :: 0 <= g < m.ram.Length && g != m.bitmap + k / 4096 ==> m.ram[g] == old(m.ram[g])
  {
    ghost var mem := m.ram[..];
    var f, i := m.bitmap + k / 4096, k % 4096 / 8;
    m.ram[f] := m.ram[f][i := PutWordByte(m.ram[f][i], k % 8, b)];
    assert m.ram[..] == WriteByte(mem, m.bitmap, k, b);
    forall j: nat ensures ReadByte(m.ram[..], m.bitmap, j) == if j == k then b else ReadByte(mem, m.bitmap, j) {
      ReadWritten(mem, m.bitmap, k, b, j);
    }
  }

  lemma {:induction false} OnesBit(n: nat, j: nat)
    requires j < n
    ensures Bit(Pow2(n) - 1, j)
  {
    assert (Pow2(n) - 1) / 2 == Pow2(n - 1) - 1 && (Pow2(n) - 1) % 2 == 1;
    if j > 0 { OnesBit(n - 1, j - 1); }
  }

  lemma FullBytesUsed(mem: seq<Frame>, base: nat, size: nat, f: nat)
    requires forall k :: 0 <= k < size ==> ReadByte(mem, base, k) == 255
    requires f < size * 8
    ensures Used(mem, base, f)
  {
    assert Pow2(8) == 256;
    assert ReadByte(mem, base, f / 8) == 255;
    OnesBit(8, f % 8);
  }

  /** The first usable entry that is long enough, which the source takes to exist. */
  method PlaceBitmap(m: Machine, entries: array<Entry>) returns (i: nat)
    requires exists k :: 0 <= k < entries.Length && entries[k].kind == USABLE && entries[k].length >= m.bitmapSize
    requires m.bitmapSize % 4096 == 0
    requires forall k :: 0 <= k < entries.Length && entries[k].kind == USABLE ==>
               entries[k].base % 4096 == 0 && (entries[k].base + entries[k].length) / 4096 <= m.ram.Length
    modifies m`bitmap, m.ram, entries
    ensures i < entries.Length && old(entries[i]).kind == USABLE && m.bitmapSize <= old(entries[i]).length
    ensures forall k :: 0 <= k < i ==> !(old(entries[k]).kind == USABLE && m.bitmapSize <= old(entries[k]).length)
    ensures m.bitmap == old(entries[i]).base / 4096 && m.bitmap + m.bitmapSize / 4096 <= m.ram.Length
    ensures entries[..] == old(entries[..])[i := Carve(old(entries[..])[i], m.bitmapSize)]
    ensures forall f :: 0 <= f < m.bitmapSize * 8 ==> Used(m.ram[..], m.bitmap, f)
    ensures forall g :: 0 <= g < m.ram.Length && g !in BitmapFrames(m.bitmap, m.bitmapSize) ==>
              m.ram[g] == old(m.ram[g])
  {
    i := 0;
    while !(entries[i].kind == USABLE && entries[i].length >= m.bitmapSize)
      invariant 0 <= i < entries.Length
      invariant exists k :: i <= k < entries.Length && entries[k].kind == USABLE && entries[k].length >= m.bitmapSize
      invariant forall k :: 0 <= k < i ==> !(entries[k].kind == USABLE && m.bitmapSize <= entries[k].length)
      decreases entries.Length - i
    {
      i := i + 1;
    }
    ghost var es := entries[..];
    m.bitmap := entries[i].base / 4096;
    assert m.bitmap + m.bitmapSize / 4096 <= (entries[i].base + entries[i].length) / 4096;
    FillBitmap(m);
    forall f | 0 <= f < m.bitmapSize * 8 ensures Used(m.ram[..], m.bitmap, f) {
      FullBytesUsed(m.ram[..], m.bitmap, m.bitmapSize, f);
    }
    entries[i] := Carve(entries[i], m.bitmapSize);
    assert entries[..] == es[i := Carve(es[i], m.bitmapSize)];
  }

  /** Frames of e, as far as the inner loop has come. */
  predicate CoversUpTo(e: Entry, j: nat, f: nat) {
    e.kind == USABLE && e.base / 4096 <= f < (e.base + j) / 4096
  }

  /** Frames that filling the bitmap may store to: its own, and if it is a few bits short also
      the one right after it. */
  predicate Touched(bitmap: nat, size: nat, fits: bool, g: nat) {
    bitmap <= g < bitmap + size / 4096 || (!fits && g == bitmap + size / 4096)
  }

  /** One call of `_bitmap_unset_bit`. */
  method ClearFrame(m: Machine, f: nat, ghost fits: bool)
    requires m.bitmapSize % 4096 == 0 && m.bitmap + m.bitmapSize / 4096 < m.ram.Length
    requires f < m.bitmapSize * 8 + (if fits then 0 else 7)
    modifies m.ram
    ensures forall g: nat :: Used(m.ram[..], m.bitmap, g) <==> Used(old(m.ram[..]), m.bitmap, g) && g != f
    ensures forall g :: 0 <= g < m.ram.Length && !Touched(m.bitmap, m.bitmapSize, fits, g) ==> m.ram[g] == old(m.ram[g])
  {
    ghost var before := m.ram[..];
    BitAtMostOneByteOut(m.bitmapSize, f, fits);
    Pmm.BitmapUnset(m, f);
    WriteByteFrame(before, m.bitmap, f / 8, ClearByte(ReadByte(before, m.bitmap, f / 8), f % 8));
    forall g: nat ensures Used(m.ram[..], m.bitmap, g) <==> Used(before, m.bitmap, g) && g != f {
      UsedAfterClear(before, m.bitmap, f, g);
    }
  }

  /** The inner loop: the bits of one entry's frames are cleared. */
  method ClearEntry(m: Machine, e: Entry, ghost fits: bool)
    requires e.kind == USABLE && e.base % 4096 == 0 && e.length % 4096 == 0
    requires m.bitmapSize % 4096 == 0 && m.bitmap + m.bitmapSize / 4096 < m.ram.Length
    requires (e.base + e.length) / 4096 <= m.bitmapSize * 8 + (if fits then 0 else 7)
    modifies m.ram
    ensures forall f: nat :: Used(m.ram[..], m.bitmap, f) <==> Used(old(m.ram[..]), m.bitmap, f) && !Covers(e, f)
    ensures forall g :: 0 <= g < m.ram.Length && !Touched(m.bitmap, m.bitmapSize, fits, g) ==> m.ram[g] == old(m.ram[g])
  {
    ghost var before := m.ram[..];
    var j := 0;
    while j < e.length
      invariant 0 <= j <= e.length && j % 4096 == 0
      invariant forall f: nat :: Used(m.ram[..], m.bitmap, f) <==> Used(before, m.bitmap, f) && !CoversUpTo(e, j, f)
      invariant forall g :: 0 <= g < m.ram.Length && !Touched(m.bitmap, m.bitmapSize, fits, g) ==> m.ram[g] == before[g]
    {
      ClearFrame(m, (e.base + j) / 4096, fits);
      forall g: nat ensures CoversUpTo(e, j + 4096, g) <==> CoversUpTo(e, j, g) || g == (e.base + j) / 4096 {
        NextFrame(e, j, g);
      }
      j := j + 4096;
    }
  }

  lemma NextFrame(e: Entry, j: nat, g: nat)
    requires e.base % 4096 == 0 && j % 4096 == 0
    ensures CoversUpTo(e, j + 4096, g) <==> CoversUpTo(e, j, g) || (e.kind == USABLE && g == (e.base + j) / 4096)
  {
  }

  /** Bits past the end of the bitmap, seven at most, fall into the one byte after it. */
  lemma BitAtMostOneByteOut(size: nat, f: nat, fits: bool)
    requires size % 4096 == 0 && f < size * 8 + (if fits then 0 else 7)
    ensures f / 8 / 4096 <= size / 4096 && (fits ==> f / 8 / 4096 < size / 4096)
  {
  }

  /** The last loop: the bits of all frames still usable are cleared. */
  method ClearUsable(m: Machine, entries: array<Entry>, ghost fits: bool)
    requires forall k :: 0 <= k < entries.Length && entries[k].kind == USABLE ==>
               && entries[k].base % 4096 == 0 && entries[k].length % 4096 == 0
               && (entries[k].base + entries[k].length) / 4096 <= m.bitmapSize * 8 + (if fits then 0 else 7)
    requires m.bitmapSize % 4096 == 0 && m.bitmap + m.bitmapSize / 4096 < m.ram.Length
    modifies m.ram
    ensures forall f: nat :: Used(m.ram[..], m.bitmap, f) <==>
          Used(old(m.ram[..]), m.bitmap, f) && !Usable(entries[..], f)
    ensures forall g :: 0 <= g < m.ram.Length && !Touched(m.bitmap, m.bitmapSize, fits, g) ==> m.ram[g] == old(m.ram[g])
  {
    ghost var before := m.ram[..];
    var i := 0;
    while i < entries.Length
      invariant 0 <= i <= entries.Length
      invariant forall f: nat :: Used(m.ram[..], m.bitmap, f) <==> Used(before, m.bitmap, f) && !Usable(entries[..i], f)
      invariant forall g :: 0 <= g < m.ram.Length && !Touched(m.bitmap, m.bitmapSize, fits, g) ==> m.ram[g] == before[g]
    {
      assert entries[..i + 1][..i] == entries[..i];
      if entries[i].kind == USABLE {
        ClearEntry(m, entries[i], fits);
      }
      i := i + 1;
    }
    assert entries[..i] == entries[..];
  }

  /** Bit f is clear exactly when frame f is usable and does not hold the bitmap. */
  ghost predicate BitsRight(mem: seq<Frame>, bitmap: nat, size: nat, es: seq<Entry>) {
    forall f :: 0 <= f < size * 8 ==>
      (Used(mem, bitmap, f) <==> !(Usable(es, f) && f !in BitmapFrames(bitmap, size)))
  }

  /** Entry i is the first usable one with room for the bitmap, which lies at its start; the
      entry has been cut by as much. */
  ghost predicate PlacedIn(es: seq<Entry>, es': seq<Entry>, size: nat, bitmap: nat, i: nat) {
    && i < |es| && es[i].kind == USABLE && size <= es[i].length
    && (forall k :: 0 <= k < i ==> !(es[k].kind == USABLE && size <= es[k].length))
    && bitmap == es[i].base / 4096 && es' == es[i := Carve(es[i], size)]
  }

  /** The first usable entry from k on that is long enough. */
  function FirstFit(es: seq<Entry>, size: nat, k: nat): (i: nat)
    requires k <= |es|
    ensures k <= i <= |es|
    decreases |es| - k
  {
    if k == |es| || (es[k].kind == USABLE && size <= es[k].length) then k else FirstFit(es, size, k + 1)
  }

  lemma {:induction false} FitIsFirst(es: seq<Entry>, es': seq<Entry>, size: nat, bitmap: nat, i: nat, k: nat)
    requires PlacedIn(es, es', size, bitmap, i) && k <= i
    ensures FirstFit(es, size, k) == i
    decreases i - k
  {
    if k < i { FitIsFirst(es, es', size, bitmap, i, k + 1); }
  }

  /** Number of frames, and whether the bitmap has a bit for every one. */
  function Frames(es: seq<Entry>): nat { Highest(es) / 4096 }
  predicate Covered(es: seq<Entry>) { SizeFor(Frames(es)) * 8 >= Frames(es) }

  /** The frame right after the bitmap. */
  function BitmapEnd(es: seq<Entry>): nat {
    var size := SizeFor(Frames(es));
    var i := FirstFit(es, size, 0);
    if i < |es| then es[i].base / 4096 + size / 4096 else 0
  }

  /** The page tables found at boot are in order and lie where `pmm_init` stores nothing: in no
      usable frame, and, when the bitmap is a few bits short, not right after it. */
  ghost predicate BootTables(mem: seq<Frame>, tabs: map<nat, Path>, es: seq<Entry>) {
    && Inv(World(mem, {}, tabs, {}))
    && (forall t :: t in tabs ==> !Usable(es, t) && (Covered(es) || t != BitmapEnd(es)))
  }

  /** What `pmm_init` asks of its machine: a good map with an entry large enough for the bitmap,
      frame 0 not usable, memory reaching past the last usable frame, and the boot tables. */
  ghost predicate GoodBoot(mem: seq<Frame>, tabs: map<nat, Path>, es: seq<Entry>) {
    && GoodMap(es) && BootTables(mem, tabs, es)
    && Frames(es) < |mem| && !Usable(es, 0)
    && (exists k :: 0 <= k < |es| && es[k].kind == USABLE && es[k].length >= SizeFor(Frames(es)))
  }

  /** `pmm_init`.  Afterwards bit f of the bitmap is clear exactly when frame f is usable and
      does not hold the bitmap; the memory outside the bitmap is as it was, apart from the
      frame right after it when the bitmap is a few bits short; and the boot tables, untouched,
      are disjoint from the free frames and the bitmap. */
  method Init(m: Machine, entries: array<Entry>)
    requires GoodBoot(m.ram[..], m.tabs, entries[..])
    modifies m`bitmap, m`bitmapSize, m.ram, entries
    ensures m.bitmapSize == SizeFor(Frames(old(entries[..])))
    ensures exists h: nat :: IsHighest(old(entries[..]), h) && m.bitmapSize % 4096 == 0
                        && h / 4096 / 8 <= m.bitmapSize < h / 4096 / 8 + 4096 && 8 * m.bitmapSize < h / 4096 + 32768
    ensures BitsRight(m.ram[..], m.bitmap, m.bitmapSize, old(entries[..]))
    ensures exists i :: PlacedIn(old(entries[..]), entries[..], m.bitmapSize, m.bitmap, i)
    ensures forall f :: f in BitmapFrames(m.bitmap, m.bitmapSize) ==> Usable(old(entries[..]), f)
    ensures m.FramesValid()
    ensures forall t :: t in m.tabs ==> t < m.ram.Length && m.ram[t] == old(m.ram[t])
    ensures var fits := Covered(old(entries[..]));
            forall g :: 0 <= g < m.ram.Length && !Touched(m.bitmap, m.bitmapSize, fits, g) ==> m.ram[g] == old(m.ram[g])
  {
    ghost var es, before := entries[..], m.ram[..];
    SizeBitmap(m, entries);
    HighestIsHighest(es);
    SizeIsLeast(Frames(es), m.bitmapSize);
    PlaceAndClear(m, entries);
    BootTablesStay(before, m.ram[..], m.tabs, es, entries[..], m.bitmap, m.bitmapSize);
    BootInv(before, m.ram[..], m.tabs, es, m.bitmap, m.bitmapSize);
  }

  /** The two loops after the first. */
  method PlaceAndClear(m: Machine, entries: array<Entry>)
    requires GoodMap(entries[..])
    requires exists k :: 0 <= k < entries.Length && entries[k].kind == USABLE && entries[k].length >= m.bitmapSize
    requires Frames(entries[..]) < m.ram.Length && m.bitmapSize == SizeFor(Frames(entries[..]))
    modifies m`bitmap, m.ram, entries
    ensures BitsRight(m.ram[..], m.bitmap, m.bitmapSize, old(entries[..]))
    ensures exists i :: PlacedIn(old(entries[..]), entries[..], m.bitmapSize, m.bitmap, i)
    ensures forall f :: f in BitmapFrames(m.bitmap, m.bitmapSize) ==> Usable(old(entries[..]), f)
    ensures m.bitmap + m.bitmapSize / 4096 <= m.ram.Length && m.bitmapSize % 4096 == 0
    ensures var fits := Covered(old(entries[..]));
            forall g :: 0 <= g < m.ram.Length && !Touched(m.bitmap, m.bitmapSize, fits, g) ==> m.ram[g] == old(m.ram[g])
  {
    ghost var es := entries[..];
    SizeCovers(Frames(es));
    CarveBitmap(m, entries);
    ghost var filled := m.ram[..];
    ClearUsable(m, entries, Covered(es));
    BitsFilled(filled, m.ram[..], m.bitmap, m.bitmapSize, es, entries[..]);
  }

  method SizeBitmap(m: Machine, entries: array<Entry>)
    modifies m`bitmapSize
    ensures m.bitmapSize == SizeFor(Highest(entries[..]) / 4096)
  {
    var highest := FindHighest(entries);
    m.bitmapSize := (highest / 4096 / 8 + 4095) / 4096 * 4096;
  }

  /** The bitmap placed and filled, in terms of usable frames. */
  method CarveBitmap(m: Machine, entries: array<Entry>)
    requires GoodMap(entries[..])
    requires exists k :: 0 <= k < entries.Length && entries[k].kind == USABLE && entries[k].length >= m.bitmapSize
    requires m.bitmapSize % 4096 == 0 && Highest(entries[..]) / 4096 <= m.ram.Length
    modifies m`bitmap, m.ram, entries
    ensures m.bitmap + m.bitmapSize / 4096 <= Highest(old(entries[..])) / 4096
    ensures exists i :: PlacedIn(old(entries[..]), entries[..], m.bitmapSize, m.bitmap, i)
    ensures forall k :: 0 <= k < entries.Length && entries[k].kind == USABLE ==>
              && entries[k].base % 4096 == 0 && entries[k].length % 4096 == 0
              && (entries[k].base + entries[k].length) / 4096 <= Highest(old(entries[..])) / 4096
    ensures forall f: nat :: Usable(entries[..], f) <==>
          Usable(old(entries[..]), f) && f !in BitmapFrames(m.bitmap, m.bitmapSize)
    ensures forall f :: f in BitmapFrames(m.bitmap, m.bitmapSize) ==> Usable(old(entries[..]), f)
    ensures forall f :: 0 <= f < m.bitmapSize * 8 ==> Used(m.ram[..], m.bitmap, f)
    ensures forall g :: 0 <= g < m.ram.Length && g !in BitmapFrames(m.bitmap, m.bitmapSize) ==>
              m.ram[g] == old(m.ram[g])
  {
    ghost var es := entries[..];
    EntriesFit(es);
    var i := PlaceBitmap(m, entries);
    assert m.bitmap + m.bitmapSize / 4096 <= (es[i].base + es[i].length) / 4096;
    assert PlacedIn(es, entries[..], m.bitmapSize, m.bitmap, i);
    CarvedFit(es, entries[..], i, m.bitmapSize);
    CarvedUsable(es, entries[..], i, m.bitmapSize);
  }

  lemma BitsFilled(mem: seq<Frame>, mem': seq<Frame>, bitmap: nat, size: nat, es: seq<Entry>, es': seq<Entry>)
    requires forall f :: 0 <= f < size * 8 ==> Used(mem, bitmap, f)
    requires forall f: nat :: Used(mem', bitmap, f) <==> Used(mem, bitmap, f) && !Usable(es', f)
    requires forall f: nat :: Usable(es', f) <==> Usable(es, f) && f !in BitmapFrames(bitmap, size)
    ensures BitsRight(mem', bitmap, size, es)
  {
  }

  lemma {:induction false} EntriesFit(es: seq<Entry>)
    requires GoodMap(es)
    ensures forall k :: 0 <= k < |es| && es[k].kind == USABLE ==>
              && es[k].base % 4096 == 0 && es[k].length % 4096 == 0
              && (es[k].base + es[k].length) / 4096 <= Highest(es) / 4096
  {
    forall k | 0 <= k < |es| && es[k].kind == USABLE
      ensures (es[k].base + es[k].length) / 4096 <= Highest(es) / 4096
    {
      HighestBounds(es, k);
    }
  }

  lemma {:induction false} CarvedFit(es: seq<Entry>, es': seq<Entry>, i: nat, size: nat)
    requires GoodMap(es) && i < |es| && es[i].kind == USABLE && size <= es[i].length && size % 4096 == 0
    requires es' == es[i := Carve(es[i], size)]
    ensures forall k :: 0 <= k < |es'| && es'[k].kind == USABLE ==>
              && es'[k].base % 4096 == 0 && es'[k].length % 4096 == 0
              && (es'[k].base + es'[k].length) / 4096 <= Highest(es) / 4096
  {
    EntriesFit(es);
    forall k | 0 <= k < |es'| && es'[k].kind == USABLE
      ensures es'[k].base % 4096 == 0 && es'[k].length % 4096 == 0
      ensures (es'[k].base + es'[k].length) / 4096 <= Highest(es) / 4096
    {
      AlignedCarve(es[k], size);
      assert es'[k].base + es'[k].length == es[k].base + es[k].length;
    }
  }

  lemma AlignedCarve(e: Entry, size: nat)
    requires e.base % 4096 == 0 && e.length % 4096 == 0 && size % 4096 == 0
    ensures (e.base + size) % 4096 == 0
    ensures size <= e.length ==> (e.length - size) % 4096 == 0
  {
  }

  lemma CarvedUsable(es: seq<Entry>, es': seq<Entry>, i: nat, size: nat)
    requires GoodMap(es) && i < |es| && es[i].kind == USABLE && size <= es[i].length && size % 4096 == 0
    requires es' == es[i := Carve(es[i], size)]
    ensures forall f: nat :: Usable(es', f) <==> Usable(es, f) && f !in BitmapFrames(es[i].base / 4096, size)
    ensures forall f :: f in BitmapFrames(es[i].base / 4096, size) ==> Usable(es, f)
  {
    forall f: nat ensures Usable(es', f) <==> Usable(es, f) && f !in BitmapFrames(es[i].base / 4096, size) {
      CarveUsable(es, i, size, f);
    }
    forall f | f in BitmapFrames(es[i].base / 4096, size) ensures Usable(es, f) {
      CarveCovers(es[i], size, f);
      UsableMeans(es, f);
    }
  }

  /** `pmm_init` stores to no boot table. */
  lemma BootTablesStay(mem: seq<Frame>, mem': seq<Frame>, tabs: map<nat, Path>,
                       es: seq<Entry>, es': seq<Entry>, bitmap: nat, size: nat)
    requires BootTables(mem, tabs, es) && |mem'| == |mem| && size == SizeFor(Frames(es))
    requires exists i :: PlacedIn(es, es', size, bitmap, i)
    requires forall f :: f in BitmapFrames(bitmap, size) ==> Usable(es, f)
    requires forall g :: 0 <= g < |mem| && !Touched(bitmap, size, Covered(es), g) ==> mem'[g] == mem[g]
    ensures forall t :: t in tabs ==> t < |mem| && mem'[t] == mem[t]
  {
    var i :| PlacedIn(es, es', size, bitmap, i);
    FitIsFirst(es, es', size, bitmap, i, 0);
    forall t | t in tabs ensures t < |mem| && !Touched(bitmap, size, Covered(es), t) {
      assert t !in BitmapFrames(bitmap, size);
    }
  }

  lemma BootInv(mem: seq<Frame>, mem': seq<Frame>, tabs: map<nat, Path>, es: seq<Entry>, bitmap: nat, size: nat)
    requires BootTables(mem, tabs, es) && |mem'| == |mem| && forall t :: t in tabs ==> t < |mem| && mem'[t] == mem[t]
    requires Frames(es) < |mem| && !Usable(es, 0) && BitsRight(mem', bitmap, size, es)
    requires forall f :: f in BitmapFrames(bitmap, size) ==> Usable(es, f)
    ensures Inv(World(mem', Clear(mem', bitmap, size), tabs, BitmapFrames(bitmap, size)))
  {
    var w := World(mem', Clear(mem', bitmap, size), tabs, BitmapFrames(bitmap, size));
    forall f | f in w.free ensures 0 < f < |mem| && f !in w.meta && f !in tabs {
      UsableBelowHighest(es, f);
    }
    SameTablesInv(World(mem, {}, tabs, {}), w);
  }

  // ---- usable memory in the boot loader's terms ----------------------------------------------------

  /** In a good map, a frame is usable exactly if it lies in an entry of kind 0. */
  lemma UsableFrames(es: seq<Entry>, f: nat)
    requires GoodMap(es)
    ensures Usable(es, f) <==>
            exists i :: 0 <= i < |es| && es[i].kind == 0
                        && es[i].base <= 4096 * f && 4096 * f + 4096 <= es[i].base + es[i].length
  {
    UsableMeans(es, f);
    forall i | 0 <= i < |es|
      ensures Covers(es[i], f) <==> es[i].kind == 0 && es[i].base <= 4096 * f
                                    && 4096 * f + 4096 <= es[i].base + es[i].length
    {
      if es[i].kind == 0 { AlignedCovers(es[i].base, es[i].base + es[i].length, f); }
    }
  }

  lemma AlignedCovers(a: nat, b: nat, f: nat)
    requires a % 4096 == 0 && b % 4096 == 0
    ensures a / 4096 <= f < b / 4096 <==> a <= 4096 * f && 4096 * f + 4096 <= b
  {
    var p, q := a / 4096, b / 4096;
    assert a == 4096 * p && b == 4096 * q;
  }

  /** A map with 127 MiB of usable memory from 1 MiB on, below it memory of another kind. */
  function SmallMap(): seq<Entry> { [Entry(0x1000, 0x9F000, 1), Entry(0x10_0000, 0x7F0_0000, 0)] }

  /** There the bitmap takes one page, frame 0x100, and the frames from 0x101 to 0x7FFF are free. */
  lemma SmallMapBits(mem: seq<Frame>, es': seq<Entry>, bitmap: nat, size: nat, i: nat)
    requires size == SizeFor(Frames(SmallMap())) && PlacedIn(SmallMap(), es', size, bitmap, i)
    requires BitsRight(mem, bitmap, size, SmallMap())
    ensures size == 4096 && bitmap == 0x100
    ensures forall f :: 0 <= f < 32768 ==> (!Used(mem, bitmap, f) <==> 0x101 <= f)
  {
    var es := SmallMap();
    assert es[..1] == [Entry(0x1000, 0x9F000, 1)] && es[..1][..0] == [];
    assert Highest(es[..1]) == 0 && Highest(es) == 0x800_0000;
    assert i == 1;
    forall f: nat | f < 32768 ensures Usable(es, f) <==> 0x100 <= f {
      assert !Usable(es[..1], f);
    }
  }
}
