/** The x86-64 page-table format as sys/include/mm/vmm.h uses it: the bits of an entry and
    the four 9-bit indexes of a virtual address. */
module Paging {
  import opened Words

  const PTE_ADDR_MASK: Word := 0x000F_FFFF_FFFF_F000
  const PTE_PRESENT: Word := 1
  const PTE_WRITABLE: Word := 2
  const PTE_USER: Word := 4
  const PTE_NX: Word := 0x8000_0000_0000_0000
  const PAGE_SIZE: Word := 0x1000
  const MAX_FRAMES: nat := 0x100_0000_0000
  const NR_PAGES: nat := 0x10_0000_0000

  datatype Option<+T> = None | Some(value: T)

  type Index = i: nat | i < 512

  /** A virtual page: bits 47..12 of an address, cut into the four table indexes. */
  datatype Page = Page(i4: Index, i3: Index, i2: Index, i1: Index)

  // ---- entries ---------------------------------------------------------------------------

  predicate Present(e: Word) { e % 2 == 1 }

  /** Number of the frame an entry points at. */
  function FrameOf(e: Word): (f: nat)
    ensures f < MAX_FRAMES
  {
    e / 4096 % 0x100_0000_0000
  }

  /** The entry `_get_next_level` stores for a new table. */
  function TableEntry(f: nat): (e: Word)
    requires f < MAX_FRAMES
    ensures Present(e) && FrameOf(e) == f
  {
    4096 * f + 3
  }

  /** `value & PTE_PRESENT` */
  lemma PresentIsMask(e: Word)
    ensures And(e, PTE_PRESENT) != 0 <==> Present(e)
  {
    AndZero(e / 2);
  }

  // The shift and field widths of the next lemmas are parameters, so that the recursive
  // operators are not unrolled forty levels deep.

  lemma AddrMaskIsShl(s: nat, n: nat)
    requires s == 12 && n == 40
    ensures PTE_ADDR_MASK == Shl(Pow2(n) - 1, s)
  {
    Pow2Values();
    ShlIsMul(Pow2(n) - 1, s);
  }

  lemma FrameOfIsLowShr(e: Word, s: nat, n: nat)
    requires s == 12 && n == 40
    ensures FrameOf(e) == Low(Shr(e, s), n)
  {
    Pow2Values();
    ShrIsDiv(e, s);
    LowIsMod(Shr(e, s), n);
  }

  lemma ShlByPage(f: nat, s: nat)
    requires s == 12
    ensures Shl(f, s) == 4096 * f
  {
    Pow2Values();
    ShlIsMul(f, s);
  }

  /** `PTE_GET_ADDR(value)` is the base address of the entry's frame. */
  lemma AddrIsMask(e: Word)
    ensures And(e, PTE_ADDR_MASK) == 4096 * FrameOf(e)
  {
    AddrIsField(e, 12, 40);
  }

  lemma AddrIsField(e: Word, s: nat, n: nat)
    requires s == 12 && n == 40
    ensures And(e, PTE_ADDR_MASK) == 4096 * FrameOf(e)
  {
    AddrMaskIsShl(s, n);
    AndField(e, s, n);
    FrameOfIsLowShr(e, s, n);
    ShlByPage(FrameOf(e), s);
  }

  /** `next_level | PTE_PRESENT | PTE_WRITABLE` */
  lemma TableEntryIsOr(f: nat)
    requires f < MAX_FRAMES
    ensures Or(Or(4096 * f, PTE_PRESENT), PTE_WRITABLE) == TableEntry(f)
  {
    assert Or(1, 2) == 3 by { OrStep(1, 2); OrStep(0, 1); }
    OrAssoc(4096 * f, 1, 2);
    TableBitsFit(f, 12);
  }

  lemma TableBitsFit(f: nat, s: nat)
    requires s == 12
    ensures Or(4096 * f, 3) == 4096 * f + 3
  {
    ShlByPage(f, s);
    Pow2Values();
    OrDisjoint(f, 3, s);
  }

  lemma OrStep(a: nat, b: nat)
    ensures Or(a, b) == 2 * Or(a / 2, b / 2) + (if a % 2 == 1 || b % 2 == 1 then 1 else 0)
  {
  }

  /** No flag bit lies in the address field, bits 51..12. */
  predicate FlagsOnly(flags: Word) { FrameOf(flags) == 0 }

  lemma OrIsWord(a: Word, b: Word)
    ensures Or(a, b) < WORD_LIMIT
  {
    Pow2Values();
    OrBound(a, b, 64);
  }

  /** `phys | flags` points at phys's frame and is present when flags says so. */
  lemma LeafEntry(f: nat, flags: Word)
    requires f < MAX_FRAMES && FlagsOnly(flags)
    ensures Or(4096 * f, flags) < WORD_LIMIT
    ensures FrameOf(Or(4096 * f, flags)) == f
    ensures Present(Or(4096 * f, flags)) <==> Present(flags)
  {
    var a: Word := 4096 * f;
    assert FrameOf(a) == f;
    assert Or(a, flags) < WORD_LIMIT by { OrIsWord(a, flags); }
    assert FrameOf(Or(a, flags)) == Or(f, 0) by { FrameOfOr(a, flags); }
    assert Or(f, 0) == f by { OrZero(f); }
    assert Present(Or(a, flags)) <==> Present(flags) by { OrHalf(a, flags); }
  }

  lemma FrameOfOr(a: Word, b: Word)
    requires Or(a, b) < WORD_LIMIT
    ensures FrameOf(Or(a, b)) == Or(FrameOf(a), FrameOf(b))
  {
    FieldOr(a, b, 12, 40);
  }

  lemma FieldOr(a: Word, b: Word, s: nat, n: nat)
    requires Or(a, b) < WORD_LIMIT
    requires s == 12 && n == 40
    ensures FrameOf(Or(a, b)) == Or(FrameOf(a), FrameOf(b))
  {
    OrShr(a, b, s);
    OrLow(Shr(a, s), Shr(b, s), n);
    FrameOfIsLowShr(Or(a, b), s, n);
    FrameOfIsLowShr(a, s, n);
    FrameOfIsLowShr(b, s, n);
  }

  // ---- indexes ---------------------------------------------------------------------------

  /** The page an address lies in. */
  function PageOf(virt: Word): Page {
    Page(virt / 0x80_0000_0000 % 512, virt / 0x4000_0000 % 512, virt / 0x20_0000 % 512, virt / 4096 % 512)
  }

  /** Bits 63..47 are all equal.  The processor accesses and flushes no other address, while the
      index expressions ignore bits 63..48. */
  predicate Canonical(virt: Word) {
    virt < 0x8000_0000_0000 || virt >= 0xFFFF_8000_0000_0000
  }

  /** The number of a canonical page. */
  predicate CanonicalNumber(n: nat) {
    n < 0x8_0000_0000 || 0xF_FFF8_0000_0000 <= n < 0x10_0000_0000_0000
  }

  /** n consecutive canonical pages, in one half of the address space. */
  predicate CanonicalRange(first: nat, n: nat) {
    first + n <= 0x8_0000_0000 || (0xF_FFF8_0000_0000 <= first && first + n <= 0x10_0000_0000_0000)
  }

  lemma CanonicalIsNumber(virt: Word)
    ensures Canonical(virt) <==> CanonicalNumber(virt / 4096)
  {
  }

  /** Canonical addresses are those whose top 17 bits are all 0 or all 1. */
  lemma CanonicalTop(virt: Word)
    ensures Canonical(virt) <==> virt / 0x8000_0000_0000 == 0 || virt / 0x8000_0000_0000 == 0x1_FFFF
  {
  }

  /** `(virt & ((size_t)0x1FF << s)) >> s` */
  function IndexAt(virt: Word, s: nat): nat {
    Shr(And(virt, Shl(0x1FF, s)), s)
  }

  lemma IndexIsField(virt: Word, s: nat)
    ensures IndexAt(virt, s) == virt / Pow2(s) % 512
  {
    Pow2Values();
    AndField(virt, s, 9);
    ShrIsDiv(virt, s);
    LowIsMod(Shr(virt, s), 9);
  }

  /** The four index expressions at the head of every vmm.c function. */
  lemma PageOfIsMasks(virt: Word)
    ensures PageOf(virt).i4 == IndexAt(virt, 39) && PageOf(virt).i3 == IndexAt(virt, 30)
    ensures PageOf(virt).i2 == IndexAt(virt, 21) && PageOf(virt).i1 == IndexAt(virt, 12)
  {
    Pow2Values();
    IndexIsField(virt, 39);
    IndexIsField(virt, 30);
    IndexIsField(virt, 21);
    IndexIsField(virt, 12);
  }

  /** `PAGE_ALIGN(address)` clears the low twelve bits. */
  function PageAlign(virt: Word): Word { virt / 4096 * 4096 }

  lemma {:induction false} AndNotOnes(v: nat, n: nat)
    ensures AndNot(v, Pow2(n) - 1) == Shl(Shr(v, n), n)
  {
    if n > 0 {
      AndNotOnes(v / 2, n - 1);
      assert (Pow2(n) - 1) / 2 == Pow2(n - 1) - 1;
      if v == 0 { ShrShlZero(n); }
    } else {
      AndNotZero(v);
    }
  }

  lemma {:induction false} ShrShlZero(n: nat)
    ensures Shl(Shr(0, n), n) == 0
  {
    if n > 0 { ShrShlZero(n - 1); }
  }

  lemma AlignIsMask(virt: Word, s: nat)
    requires s == 12
    ensures AndNot(virt, PAGE_SIZE - 1) == PageAlign(virt)
  {
    Pow2Values();
    AndNotOnes(virt, s);
    ShrIsDiv(virt, s);
    ShlByPage(virt / 4096, s);
  }

  /** `PAGE_ALIGN(virt)`, i.e. `virt & ~(PAGE_SIZE - 1)`, stays in virt's page. */
  lemma AlignKeepsPage(virt: Word)
    ensures AndNot(virt, PAGE_SIZE - 1) == PageAlign(virt)
    ensures PageOf(PageAlign(virt)) == PageOf(virt) && (Canonical(PageAlign(virt)) <==> Canonical(virt))
  {
    AlignIsMask(virt, 12);
    PageOfIsPageAt(virt);
    PageOfIsPageAt(PageAlign(virt));
    AlignCanonical(virt);
  }

  lemma AlignCanonical(virt: Word)
    ensures Canonical(PageAlign(virt)) <==> Canonical(virt)
  {
    CanonicalIsNumber(virt);
    CanonicalIsNumber(PageAlign(virt));
  }

  /** Page number n, counted through the 2^36 pages of the 48-bit address space. */
  function PageAt(n: nat): Page {
    Page(n / 0x800_0000 % 512, n / 0x4_0000 % 512, n / 512 % 512, n % 512)
  }

  lemma Bits39(virt: Word)
    ensures virt / 4096 / 0x800_0000 == virt / 0x80_0000_0000
  {
    var n := virt / 4096;
    DivUnique(virt, 0x80_0000_0000, n / 0x800_0000, n % 0x800_0000 * 4096 + virt % 4096);
  }

  lemma Bits30(virt: Word)
    ensures virt / 4096 / 0x4_0000 == virt / 0x4000_0000
  {
    var n := virt / 4096;
    DivUnique(virt, 0x4000_0000, n / 0x4_0000, n % 0x4_0000 * 4096 + virt % 4096);
  }

  lemma Bits21(virt: Word)
    ensures virt / 4096 / 512 == virt / 0x20_0000
  {
    var n := virt / 4096;
    DivUnique(virt, 0x20_0000, n / 512, n % 512 * 4096 + virt % 4096);
  }

  lemma PageOfIsPageAt(virt: Word)
    ensures PageOf(virt) == PageAt(virt / 4096)
  {
    Bits39(virt);
    Bits30(virt);
    Bits21(virt);
  }

  /** The four indexes together are exactly bits 47..12: two addresses have the same page
      iff they agree there. */
  lemma PageOfInjective(v: Word, v': Word)
    ensures PageOf(v) == PageOf(v') <==> v / 4096 % NR_PAGES == v' / 4096 % NR_PAGES
  {
    PageOfIsPageAt(v);
    PageOfIsPageAt(v');
    PageAtInjective(v / 4096, v' / 4096);
  }

  lemma PageAtInjective(m: nat, n: nat)
    ensures PageAt(m) == PageAt(n) <==> m % NR_PAGES == n % NR_PAGES
  {
    Digits(m);
    Digits(n);
    if m % NR_PAGES == n % NR_PAGES { SumsDiffer(PageAt(m), PageAt(n)); }
  }

  lemma SumsDiffer(p: Page, q: Page)
    requires ((p.i4 * 512 + p.i3) * 512 + p.i2) * 512 + p.i1 == ((q.i4 * 512 + q.i3) * 512 + q.i2) * 512 + q.i1
    ensures p == q
  {
    Digit((p.i4 * 512 + p.i3) * 512 + p.i2, p.i1, (q.i4 * 512 + q.i3) * 512 + q.i2, q.i1);
    Digit(p.i4 * 512 + p.i3, p.i2, q.i4 * 512 + q.i3, q.i2);
    Digit(p.i4, p.i3, q.i4, q.i3);
  }

  lemma Digit(a: nat, d: Index, b: nat, e: Index)
    requires a * 512 + d == b * 512 + e
    ensures a == b && d == e
  {
  }

  lemma Digits(n: nat)
    ensures var p := PageAt(n);
            n % NR_PAGES == ((p.i4 * 512 + p.i3) * 512 + p.i2) * 512 + p.i1
  {
    var q1, q2, q3 := n / 512, n / 512 / 512, n / 512 / 512 / 512;
    var q4 := q3 / 512;
    assert q2 == n / 0x4_0000 && q3 == n / 0x800_0000;
    var low := ((q3 % 512 * 512 + q2 % 512) * 512 + q1 % 512) * 512 + n % 512;
    assert n == NR_PAGES * q4 + low;
    assert low < NR_PAGES;
  }
}
