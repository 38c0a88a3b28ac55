/** sys/src/mm/mmap.c on the machine: frames from the bitmap joined to pages of the tree. */
module Mmap {
  import opened Words
  import opened Paging
  import opened Forest
  import opened Flat
  import opened Calls
  import opened FlatMmap
  import opened Machines
  import Bitmap
  import Pmm
  import Vmm

  const PROT_EXEC: Word := 1
  const PROT_READ: Word := 2
  const PROT_WRITE: Word := 4
  const PROT_USER: Word := 8

  // ---- the loop as a relation on worlds --------------------------------------------------------

  /** One iteration: frame f taken, then mapped at page p (or not, if the walk failed). */
  ghost predicate TurnDoes(w: World, w1: World, w': World, r: nat, p: Page, f: nat, flags: Word) {
    && AllocStep(w, w1, f) && f < MAX_FRAMES
    && StoreDoes(w1, w', r, p, EntryFor(4096 * f, flags))
  }

  /** The iterations for all the given pages, in order. */
  ghost predicate TurnsDo(w: World, w': World, r: nat, pages: seq<Page>, flags: Word)
    decreases |pages|
  {
    if pages == [] then w' == w
    else
      var init, last := pages[..|pages| - 1], pages[|pages| - 1];
      exists mid: World, w1: World, f: nat ::
        TurnsDo(w, mid, r, init, flags) && TurnDoes(mid, w1, w', r, last, f, flags)
  }

  /** The whole call: all pages and 0, or -ENOMEM when an iteration finds no frame. */
  ghost predicate MmapDoes(w: World, w': World, r: nat, pages: seq<Page>, flags: Word, ret: int) {
    || (ret == 0 && TurnsDo(w, w', r, pages, flags))
    || (ret == -ENOMEM && w'.free == {} && exists k :: 0 <= k < |pages| && TurnsDo(w, w', r, pages[..k], flags))
  }

  // ---- what the loop does to frames --------------------------------------------------------------

  /** Frames leave the free set to become tables or zeroed data frames; everything that was
      in use before stays as it was, tables excepted. */
  ghost predicate Consumed(w: World, w': World) {
    && |w'.mem| == |w.mem| && w'.meta == w.meta
    && w'.free <= w.free
    && w'.tabs.Keys <= w.tabs.Keys + (w.free - w'.free)
    && Settled(w, w')
    && (forall r :: IsRoot(w', r) ==> IsRoot(w, r))
    && (forall g :: 0 <= g < |w.mem| && g !in w.free && g !in w.tabs && g !in w.meta ==> w'.mem[g] == w.mem[g])
    && (forall g :: g in w.free && g !in w'.free && g !in w'.tabs && g < |w.mem| ==> w'.mem[g] == ZeroFrame())
  }

  lemma ConsumedTransitive(w: World, w1: World, w2: World)
    requires Inv(w) && Inv(w1) && Consumed(w, w1) && Consumed(w1, w2)
    ensures Consumed(w, w2)
  {
  }

  lemma AllocConsumes(w: World, w1: World, f: nat)
    requires Inv(w) && AllocStep(w, w1, f)
    ensures Inv(w1) && Consumed(w, w1)
  {
    AllocKeeps(w, w1, f);
  }

  lemma GrewConsumes(w: World, w': World)
    requires Inv(w) && Grew(w, w')
    ensures Consumed(w, w')
  {
  }

  lemma TurnKeeps(w: World, w1: World, w': World, r: nat, p: Page, f: nat, flags: Word)
    requires Inv(w) && IsRoot(w, r) && TurnDoes(w, w1, w', r, p, f, flags)
    ensures Inv(w') && IsRoot(w', r) && Consumed(w, w')
    ensures forall r', q :: IsRoot(w, r') && q != p ==> Leaf(w'.mem, r', q) == Leaf(w.mem, r', q)
  {
    AllocConsumes(w, w1, f);
    AllocKeeps(w, w1, f);
    StoreIsExact(w1, w', r, p, EntryFor(4096 * f, flags));
    GrewConsumes(w1, w');
    ConsumedTransitive(w, w1, w');
  }

  lemma TurnRefines(w: World, w1: World, w': World, r: nat, p: Page, f: nat, flags: Word)
    requires Inv(w) && IsRoot(w, r) && TurnDoes(w, w1, w', r, p, f, flags)
    ensures Bounded(FlatOf(w, r)) && w.free != {}
    ensures FlatOf(w', r) == MapNext(FlatOf(w, r), p, flags)
  {
    InvBounded(w, r);
    TakeRefines(w, w1, r, f);
    StoreRefines(w1, w', r, p, EntryFor(4096 * f, flags));
  }

  lemma InvBounded(w: World, r: nat)
    requires Inv(w)
    ensures Bounded(FlatOf(w, r))
  {
  }

  lemma {:induction false} TurnsKeep(w: World, w': World, r: nat, pages: seq<Page>, flags: Word)
    requires Inv(w) && IsRoot(w, r) && TurnsDo(w, w', r, pages, flags)
    ensures Inv(w') && IsRoot(w', r) && Consumed(w, w')
    ensures forall r', q :: IsRoot(w, r') && q !in pages ==> Leaf(w'.mem, r', q) == Leaf(w.mem, r', q)
    ensures |w'.free| + |pages| <= |w.free|
    decreases |pages|
  {
    if pages != [] {
      var init, last := pages[..|pages| - 1], pages[|pages| - 1];
      var mid: World, w1: World, f: nat :| TurnsDo(w, mid, r, init, flags) && TurnDoes(mid, w1, w', r, last, f, flags);
      TurnsKeep(w, mid, r, init, flags);
      TurnKeeps(mid, w1, w', r, last, f, flags);
      ConsumedTransitive(w, mid, w');
      TurnTakes(mid, w1, w', r, last, f, flags);
    }
  }

  lemma TurnTakes(w: World, w1: World, w': World, r: nat, p: Page, f: nat, flags: Word)
    requires Inv(w) && IsRoot(w, r) && TurnDoes(w, w1, w', r, p, f, flags)
    ensures |w'.free| < |w.free|
  {
  }

  /** The iterations for all the given pages, on the flat machine. */
  ghost function FlatTurns(a: Flat, pages: seq<Page>, flags: Word): Option<Flat>
    decreases |pages|
  {
    if pages == [] then Some(a)
    else
      match FlatTurns(a, pages[..|pages| - 1], flags)
      case None => None
      case Some(b) => if b.free != {} && Bounded(b) then Some(MapNext(b, pages[|pages| - 1], flags)) else None
  }

  lemma MmapFirst(a: Flat, p: Page, rest: seq<Page>, flags: Word)
    requires Bounded(a) && a.free != {}
    ensures Bounded(MapNext(a, p, flags))
    ensures FlatMmap.Mmap(a, [p] + rest, flags) == FlatMmap.Mmap(MapNext(a, p, flags), rest, flags)
  {
  }

  lemma {:induction false} FlatTurnsAreMmap(a: Flat, pages: seq<Page>, rest: seq<Page>, flags: Word)
    requires Bounded(a) && FlatTurns(a, pages, flags).Some?
    ensures var c := FlatTurns(a, pages, flags).value;
            Bounded(c) && FlatMmap.Mmap(a, pages + rest, flags) == FlatMmap.Mmap(c, rest, flags)
    decreases |pages|
  {
    if pages == [] {
      assert pages + rest == rest;
    } else {
      var init, last := pages[..|pages| - 1], pages[|pages| - 1];
      var b := FlatTurns(a, init, flags).value;
      FlatTurnsAreMmap(a, init, [last] + rest, flags);
      MmapFirst(b, last, rest, flags);
      assert init + ([last] + rest) == pages + rest;
    }
  }

  /** The loop on the machine is the loop on the flat machine. */
  lemma {:induction false} TurnsRefine(w: World, w': World, r: nat, pages: seq<Page>, flags: Word)
    requires Inv(w) && IsRoot(w, r) && TurnsDo(w, w', r, pages, flags)
    ensures FlatTurns(FlatOf(w, r), pages, flags) == Some(FlatOf(w', r))
    decreases |pages|
  {
    if pages != [] {
      var init, last := pages[..|pages| - 1], pages[|pages| - 1];
      var mid: World, w1: World, f: nat :| TurnsDo(w, mid, r, init, flags) && TurnDoes(mid, w1, w', r, last, f, flags);
      TurnsRefine(w, mid, r, init, flags);
      TurnsKeepRoot(w, mid, r, init, flags);
      TurnRefines(mid, w1, w', r, last, f, flags);
    }
  }

  lemma TurnsKeepRoot(w: World, w': World, r: nat, pages: seq<Page>, flags: Word)
    requires Inv(w) && IsRoot(w, r) && TurnsDo(w, w', r, pages, flags)
    ensures Inv(w') && IsRoot(w', r)
  {
    TurnsKeep(w, w', r, pages, flags);
  }

  lemma TurnsRefineUpTo(w: World, w': World, r: nat, pages: seq<Page>, k: nat, flags: Word)
    requires Inv(w) && IsRoot(w, r) && k <= |pages| && TurnsDo(w, w', r, pages[..k], flags)
    ensures Bounded(FlatOf(w, r)) && Bounded(FlatOf(w', r))
    ensures FlatMmap.Mmap(FlatOf(w, r), pages, flags) == FlatMmap.Mmap(FlatOf(w', r), pages[k..], flags)
  {
    TurnsRefineInit(w, w', r, pages[..k], pages[k..], flags);
    assert pages[..k] + pages[k..] == pages;
  }

  lemma TurnsRefineInit(w: World, w': World, r: nat, init: seq<Page>, rest: seq<Page>, flags: Word)
    requires Inv(w) && IsRoot(w, r) && TurnsDo(w, w', r, init, flags)
    ensures Bounded(FlatOf(w, r)) && Bounded(FlatOf(w', r))
    ensures FlatMmap.Mmap(FlatOf(w, r), init + rest, flags) == FlatMmap.Mmap(FlatOf(w', r), rest, flags)
  {
    InvBounded(w, r);
    TurnsRefine(w, w', r, init, flags);
    FlatTurnsAreMmap(FlatOf(w, r), init, rest, flags);
  }

  /** `mmap` on the machine is `Mmap` on the flat machine, partial failure included. */
  lemma MmapRefines(w: World, w': World, r: nat, pages: seq<Page>, flags: Word, ret: int)
    requires Inv(w) && IsRoot(w, r) && MmapDoes(w, w', r, pages, flags, ret)
    ensures Inv(w') && IsRoot(w', r) && Bounded(FlatOf(w, r))
    ensures (FlatOf(w', r), ret) == FlatMmap.Mmap(FlatOf(w, r), pages, flags)
  {
    var k := if ret == 0 then |pages| else var k :| 0 <= k < |pages| && TurnsDo(w, w', r, pages[..k], flags); k;
    assert pages[..|pages|] == pages;
    TurnsKeepRoot(w, w', r, pages[..k], flags);
    TurnsRefineUpTo(w, w', r, pages, k, flags);
  }

  // ---- what a result of 0 means on the machine -----------------------------------------------------

  /** p was mapped with the given flags to a frame that was free on entry. */
  ghost predicate GotFrame(w: World, w': World, r: nat, p: Page, flags: Word) {
    var e := Leaf(w'.mem, r, p);
    FrameOf(e) in w.free && FrameOf(e) !in w'.free && e == EntryFor(4096 * FrameOf(e), flags)
  }

  /** The pages got frames, no two the same. */
  ghost predicate GotFrames(w: World, w': World, r: nat, pages: seq<Page>, flags: Word) {
    && (forall k :: 0 <= k < |pages| ==> GotFrame(w, w', r, pages[k], flags))
    && (forall j, k :: 0 <= j < k < |pages| ==>
          FrameOf(Leaf(w'.mem, r, pages[j])) != FrameOf(Leaf(w'.mem, r, pages[k])))
  }

  lemma AllMappedGetFrames(w: World, w': World, r: nat, pages: seq<Page>, flags: Word)
    requires Bounded(FlatOf(w, r)) && FlagsOnly(flags) && Distinct(pages)
    requires AllMapped(FlatOf(w, r), pages, flags) && FlatOf(w', r) == FlatMmap.Mmap(FlatOf(w, r), pages, flags).0
    ensures GotFrames(w, w', r, pages, flags)
  {
    FlatOfWellFormed(w, r);
    AllMappedFresh(FlatOf(w, r), pages, flags);
    forall k | 0 <= k < |pages| ensures GotFrame(w, w', r, pages[k], flags) {
      assert MappedFresh(FlatOf(w, r), FlatOf(w', r), pages[k], flags);
    }
    forall j, k | 0 <= j < k < |pages|
      ensures FrameOf(Leaf(w'.mem, r, pages[j])) != FrameOf(Leaf(w'.mem, r, pages[k]))
    {
      assert FrameOf(FlatOf(w', r).pte[pages[j]]) != FrameOf(FlatOf(w', r).pte[pages[k]]);
    }
  }

  /** `mmap` of different pages returned 0.  Either they all got a frame, and exactly these and
      the new tables were consumed; or all but the last got one, the last is as it was, and no
      frame is left. */
  lemma MmapGives(w: World, w': World, r: nat, pages: seq<Page>, flags: Word)
    requires Inv(w) && IsRoot(w, r) && FlagsOnly(flags) && Distinct(pages) && pages != []
    requires MmapDoes(w, w', r, pages, flags, 0)
    ensures var last := pages[|pages| - 1];
            || (GotFrames(w, w', r, pages, flags)
                && |w.free| == |w'.free| + |pages| + |NewTables(FlatOf(w, r), pages)|)
            || (GotFrames(w, w', r, pages[..|pages| - 1], flags)
                && Leaf(w'.mem, r, last) == Leaf(w.mem, r, last) && w'.free == {})
  {
    var a, init, last := FlatOf(w, r), pages[..|pages| - 1], pages[|pages| - 1];
    MmapRefines(w, w', r, pages, flags, 0);
    FlatOfWellFormed(w, r);
    MmapZero(a, pages, flags);
    if AllMapped(a, pages, flags) {
      MmapCost(a, pages, flags);
      AllMappedGetFrames(w, w', r, pages, flags);
    } else {
      AllButLastGetFrames(w, w', r, pages, init, flags);
      MmapElsewhere(a, init, flags, last);
      assert FlatOf(w', r).pte[last] == a.pte[last];
    }
  }

  /** On the machine: the result is 0 if and only if there is a frame for every page but the last,
      one for every table those need, and one more. */
  lemma MmapReturnsZero(w: World, w': World, r: nat, init: seq<Page>, last: Page, flags: Word, ret: int)
    requires Inv(w) && IsRoot(w, r) && MmapDoes(w, w', r, init + [last], flags, ret)
    ensures ret == 0 <==> |init| + |NewTables(FlatOf(w, r), init)| < |w.free|
  {
    MmapRefines(w, w', r, init + [last], flags, ret);
    FlatOfWellFormed(w, r);
    MmapZeroWhen(FlatOf(w, r), init, last, flags);
  }

  lemma AllButLastGetFrames(w: World, w': World, r: nat, pages: seq<Page>, init: seq<Page>, flags: Word)
    requires Bounded(FlatOf(w, r)) && FlagsOnly(flags) && Distinct(init) && AllMapped(FlatOf(w, r), init, flags)
    requires FlatOf(w', r).pte == FlatMmap.Mmap(FlatOf(w, r), init, flags).0.pte
    requires FlatOf(w', r).free == {}
    ensures GotFrames(w, w', r, init, flags)
  {
    var a, b := FlatOf(w, r), FlatMmap.Mmap(FlatOf(w, r), init, flags).0;
    FlatOfWellFormed(w, r);
    AllMappedFresh(a, init, flags);
    forall k | 0 <= k < |init| ensures GotFrame(w, w', r, init[k], flags) {
      assert MappedFresh(a, b, init[k], flags);
      assert FlatOf(w', r).pte[init[k]] == b.pte[init[k]];
    }
    forall j, k | 0 <= j < k < |init|
      ensures FrameOf(Leaf(w'.mem, r, init[j])) != FrameOf(Leaf(w'.mem, r, init[k]))
    {
      assert FlatOf(w', r).pte[init[j]] == b.pte[init[j]] && FlatOf(w', r).pte[init[k]] == b.pte[init[k]];
      assert FrameOf(b.pte[init[j]]) != FrameOf(b.pte[init[k]]);
    }
  }

  // ---- the methods -------------------------------------------------------------------------------

  function FlagsOf(prot: Word): Word {
    (if prot % 2 == 1 then 0 else PTE_NX)
    + (if prot / 4 % 2 == 1 then PTE_WRITABLE else 0)
    + (if prot / 2 % 2 == 1 then PTE_PRESENT else 0)
    + (if prot / 8 % 2 == 1 then PTE_USER else 0)
  }

  lemma FlagsOfFlagsOnly(prot: Word)
    ensures FlagsOnly(FlagsOf(prot))
    ensures Present(FlagsOf(prot)) <==> prot / 2 % 2 == 1
  {
    FlagSum(if prot % 2 == 1 then 0 else PTE_NX, if prot / 4 % 2 == 1 then 2 else 0,
            if prot / 2 % 2 == 1 then 1 else 0, if prot / 8 % 2 == 1 then 4 else 0);
  }

  lemma FlagSum(x: Word, w: nat, p: nat, u: nat)
    requires (x == 0 || x == PTE_NX) && (w == 0 || w == 2) && (p == 0 || p == 1) && (u == 0 || u == 4)
    ensures FlagsOnly(x + w + p + u) && (Present(x + w + p + u) <==> p == 1)
  {
    var y := w + p + u;
    assert x % 4096 == 0 && x / 4096 % 0x100_0000_0000 == 0;
    assert (x + y) / 4096 == x / 4096;
  }

  lemma TestBit(prot: Word)
    ensures And(prot, PROT_EXEC) != 0 <==> prot % 2 == 1
    ensures And(prot, PROT_READ) != 0 <==> prot / 2 % 2 == 1
    ensures And(prot, PROT_WRITE) != 0 <==> prot / 4 % 2 == 1
    ensures And(prot, PROT_USER) != 0 <==> prot / 8 % 2 == 1
  {
    assert Pow2(0) == 1 && Pow2(1) == 2 && Pow2(2) == 4 && Pow2(3) == 8;
    AndBit(prot, 0);
    AndBit(prot, 1);
    AndBit(prot, 2);
    AndBit(prot, 3);
    assert prot / 2 / 2 == prot / 4 && prot / 2 / 2 / 2 == prot / 8;
  }

  lemma SmallOrs(w: nat, p: nat, u: nat)
    requires (w == 0 || w == 2) && (p == 0 || p == 1) && (u == 0 || u == 4)
    ensures Or(w, Or(p, u)) == w + p + u
  {
  }

  lemma TopBitOr(y: nat, s: nat)
    requires s == 63 && y < 8
    ensures Or(PTE_NX, y) == PTE_NX + y
  {
    Pow2Values();
    assert Pow2(s + 1) == 2 * Pow2(s);
    ShlIsMul(1, s);
    assert Pow2(3) == 8;
    Bitmap.Pow2Mono(3, s);
    OrDisjoint(1, y, s);
  }

  lemma FlagOrs(x: nat, w: nat, p: nat, u: nat)
    requires x == 0 || x == PTE_NX
    requires (w == 0 || w == 2) && (p == 0 || p == 1) && (u == 0 || u == 4)
    ensures Or(Or(Or(x, w), p), u) == x + w + p + u
  {
    assert Or(Or(Or(x, w), p), u) == Or(x, Or(w, Or(p, u))) by {
      OrAssoc(Or(x, w), p, u);
      OrAssoc(x, w, Or(p, u));
    }
    SmallOrs(w, p, u);
    var y := w + p + u;
    OrZero(y);
    TopBitOr(y, 63);
  }

  /** `if (c) bits |= flag;` */
  function OrIf(bits: Word, c: bool, flag: Word): Word {
    OrIsWord(bits, flag);
    if c then Or(bits, flag) else bits
  }

  lemma OrIfIsOr(bits: Word, c: bool, flag: Word)
    ensures OrIf(bits, c, flag) == Or(bits, if c then flag else 0)
  {
    OrZero(bits);
  }

  lemma FourOrs(exec: bool, write: bool, read: bool, user: bool)
    ensures OrIf(OrIf(OrIf(OrIf(0, !exec, PTE_NX), write, PTE_WRITABLE), read, PTE_PRESENT), user, PTE_USER)
            == (if exec then 0 else PTE_NX) + (if write then PTE_WRITABLE else 0)
               + (if read then PTE_PRESENT else 0) + (if user then PTE_USER else 0)
  {
    OrZero(PTE_NX);
    var x := OrIf(0, !exec, PTE_NX);
    var xw := OrIf(x, write, PTE_WRITABLE);
    var xwp := OrIf(xw, read, PTE_PRESENT);
    OrIfIsOr(x, write, PTE_WRITABLE);
    OrIfIsOr(xw, read, PTE_PRESENT);
    OrIfIsOr(xwp, user, PTE_USER);
    FlagOrs(x, if write then PTE_WRITABLE else 0, if read then PTE_PRESENT else 0, if user then PTE_USER else 0);
  }

  /** The four conditional stores add up the flags. */
  lemma FlagsByOr(prot: Word)
    ensures OrIf(OrIf(OrIf(OrIf(0, And(prot, PROT_EXEC) == 0, PTE_NX), And(prot, PROT_WRITE) != 0, PTE_WRITABLE),
                      And(prot, PROT_READ) != 0, PTE_PRESENT), And(prot, PROT_USER) != 0, PTE_USER) == FlagsOf(prot)
  {
    TestBit(prot);
    FourOrs(And(prot, PROT_EXEC) != 0, And(prot, PROT_WRITE) != 0, And(prot, PROT_READ) != 0, And(prot,
          PROT_USER) != 0);
  }

  method GetFlagsFromProt(prot: Word) returns (flags: Word)
    ensures flags == FlagsOf(prot)
  {
    var bits: Word := 0;
    bits := OrIf(bits, And(prot, PROT_EXEC) == 0, PTE_NX);
    bits := OrIf(bits, And(prot, PROT_WRITE) != 0, PTE_WRITABLE);
    bits := OrIf(bits, And(prot, PROT_READ) != 0, PTE_PRESENT);
    flags := OrIf(bits, And(prot, PROT_USER) != 0, PTE_USER);
    FlagsByOr(prot);
  }

  /** The number of iterations the loop is prepared to make.  Its counter has 32 bits: for
      2^32 pages or more it never reaches the bound, and only running out of frames ends it. */
  function Turns(nPages: Word, frames: nat): nat {
    if nPages < 0x1_0000_0000 then nPages else frames + 1
  }

  /** `++i` on a uint32_t. */
  function Increment32(i: nat): nat
    requires i < 0x1_0000_0000
  {
    if i == 0xFFFF_FFFF then 0 else i + 1
  }

  /** `virt += PAGE_SIZE` */
  function NextVirt(v: Word): Word {
    if v + 4096 < WORD_LIMIT then v + 4096 else v + 4096 - WORD_LIMIT
  }

  lemma NextNumber(v: Word)
    ensures NextVirt(v) / 4096 == if v / 4096 == 0xF_FFFF_FFFF_FFFF then 0 else v / 4096 + 1
  {
  }

  lemma NextMods(q: nat, q': nat, j: nat)
    requires q < 0x10_0000_0000_0000 && q % NR_PAGES == j % NR_PAGES
    requires q' == if q == 0xF_FFFF_FFFF_FFFF then 0 else q + 1
    ensures q' % NR_PAGES == (j + 1) % NR_PAGES
  {
  }

  /** v lies in the page numbered j, counting round the address space. */
  ghost predicate InPage(v: Word, j: nat) {
    v / 4096 % NR_PAGES == j % NR_PAGES
  }

  lemma InPageMeans(v: Word, j: nat)
    requires InPage(v, j)
    ensures PageOf(v) == PageAt(j)
  {
    PageOfIsPageAt(v);
    PageAtInjective(v / 4096, j);
  }

  /** virt after k times `virt += PAGE_SIZE`, wrapping at the top of the address space. */
  function VirtAt(virt: Word, k: nat): Word {
    if k == 0 then virt else NextVirt(VirtAt(virt, k - 1))
  }

  lemma {:induction false} VirtInPage(virt: Word, k: nat)
    ensures InPage(VirtAt(virt, k), virt / 4096 + k)
  {
    if k > 0 {
      VirtInPage(virt, k - 1);
      var v := VirtAt(virt, k - 1);
      NextNumber(v);
      NextMods(v / 4096, VirtAt(virt, k) / 4096, virt / 4096 + k - 1);
    }
  }

  /** The pages that k iterations leave unflushed: those at addresses that are not canonical. */
  function UnflushedUpTo(virt: Word, k: nat): set<Page> {
    if k == 0 then {} else UnflushedUpTo(virt, k - 1) + Unflushed(VirtAt(virt, k - 1))
  }

  lemma {:induction false} UnflushedGrows(virt: Word, j: nat, k: nat)
    requires j <= k
    ensures UnflushedUpTo(virt, j) <= UnflushedUpTo(virt, k)
    decreases k
  {
    if j < k { UnflushedGrows(virt, j, k - 1); }
  }

  lemma {:induction false} VirtNumber(virt: Word, k: nat)
    requires virt / 4096 + k < 0x10_0000_0000_0000
    ensures VirtAt(virt, k) / 4096 == virt / 4096 + k
  {
    if k > 0 {
      VirtNumber(virt, k - 1);
      NextNumber(VirtAt(virt, k - 1));
    }
  }

  /** A range of canonical pages leaves nothing unflushed. */
  lemma {:induction false} CanonicalFlushed(virt: Word, n: nat, k: nat)
    requires CanonicalRange(virt / 4096, n) && k <= n
    ensures UnflushedUpTo(virt, k) == {}
    decreases k
  {
    if k > 0 {
      CanonicalFlushed(virt, n, k - 1);
      VirtNumber(virt, k - 1);
      CanonicalIsNumber(VirtAt(virt, k - 1));
    }
  }

  /** virt after k iterations is virt + 4096 k, in 64 bits. */
  lemma {:induction false} VirtAtIs(virt: Word, k: nat)
    ensures VirtAt(virt, k) == (virt + 4096 * k) % 0x1_0000_0000_0000_0000
  {
    if k > 0 {
      VirtAtIs(virt, k - 1);
      WrapNext(virt + 4096 * (k - 1));
    }
  }

  lemma WrapNext(x: nat)
    ensures (x + 4096) % WORD_LIMIT == NextVirt(x % WORD_LIMIT)
  {
  }

  /** The loop visits the consecutive pages from virt's on. */
  lemma VisitsPages(virt: Word, n: nat, k: nat)
    requires k < n
    ensures PageOf(VirtAt(virt, k)) == Pages(virt / 4096, n)[k]
  {
    VirtInPage(virt, k);
    InPageMeans(VirtAt(virt, k), virt / 4096 + k);
    PagesAt(virt / 4096, n, k);
  }

  /** `pmm_alloc_frame` leaves every translation, and so the TLB, as it was. */
  method AllocForMap(m: Machine, pml4: Word) returns (phys: Word)
    requires m.Valid() && m.IsPml4(pml4) && m.Coherent()
    modifies m.ram
    ensures m.Valid() && m.IsPml4(pml4) && m.Coherent()
    ensures phys == 0 ==> m.State() == old(m.State()) && m.State().free == {}
    ensures phys != 0 ==> phys % 4096 == 0 && AllocStep(old(m.State()), m.State(), phys / 4096)
  {
    ghost var w := m.State();
    phys := Pmm.AllocFrame(m);
    if phys != 0 {
      AllocKeeps(w, m.State(), phys / 4096);
    }
  }

  ghost predicate SomeTurn(w: World, w': World, r: nat, p: Page, flags: Word) {
    exists w1: World, f: nat :: TurnDoes(w, w1, w', r, p, f, flags)
  }

  lemma IsSomeTurn(w: World, w1: World, w': World, r: nat, p: Page, phys: Word, flags: Word)
    requires Inv(w) && phys % 4096 == 0 && AllocStep(w, w1, phys / 4096)
    requires StoreDoes(w1, w', r, p, EntryFor(phys, flags))
    ensures SomeTurn(w, w', r, p, flags)
  {
    assert phys == 4096 * (phys / 4096);
    assert TurnDoes(w, w1, w', r, p, phys / 4096, flags);
  }

  /** One iteration of the loop. */
  method Turn(m: Machine, pml4: Word, v: Word, flags: Word) returns (ok: bool)
    requires m.Valid() && m.IsPml4(pml4) && m.Coherent()
    modifies m.ram, m`tabs, m`tlb, m`stale
    ensures m.Valid() && m.IsPml4(pml4) && m.Coherent()
    ensures m.stale <= old(m.stale) + (if ok then Unflushed(v) else {})
    ensures !ok ==> m.State() == old(m.State()) && m.State().free == {}
    ensures ok ==> SomeTurn(old(m.State()), m.State(), pml4 / 4096, PageOf(v), flags)
  {
    ghost var w := m.State();
    var phys := AllocForMap(m, pml4);
    if phys == 0 {
      return false;
    }
    ghost var w1 := m.State();
    var aligned := Vmm.PageAligned(v);
    OrIsWord(phys, flags);
    Vmm.WalkAndStore(m, pml4, aligned, Or(phys, flags));
    IsSomeTurn(w, w1, m.State(), pml4 / 4096, PageOf(v), phys, flags);
    return true;
  }

  /** k iterations lie between w and w'. */
  ghost predicate Mapped(w: World, w': World, r: nat, pages: seq<Page>, k: nat, flags: Word) {
    k <= |pages| && TurnsDo(w, w', r, pages[..k], flags) && |w'.free| + k <= |w.free|
  }

  lemma OneMoreTurn(w: World, mid: World, w': World, r: nat, pages: seq<Page>, k: nat, flags: Word)
    requires Inv(mid) && IsRoot(mid, r)
    requires k < |pages| && Mapped(w, mid, r, pages, k, flags) && SomeTurn(mid, w', r, pages[k], flags)
    ensures Mapped(w, w', r, pages, k + 1, flags) && |w'.free| < |mid.free|
  {
    var init, p, longer := pages[..k], pages[k], pages[..k + 1];
    SliceSnoc(pages, k);
    SomeTurnSnoc(w, mid, w', r, init, p, longer, flags);
  }

  lemma SliceSnoc(pages: seq<Page>, k: nat)
    requires k < |pages|
    ensures pages[..k + 1] == pages[..k] + [pages[k]]
  {
  }

  lemma SomeTurnSnoc(w: World, mid: World, w': World, r: nat, init: seq<Page>, p: Page, longer: seq<Page>, flags: Word)
    requires Inv(mid) && IsRoot(mid, r) && TurnsDo(w, mid, r, init, flags) && SomeTurn(mid, w', r, p, flags)
    requires longer == init + [p]
    ensures TurnsDo(w, w', r, longer, flags) && |w'.free| < |mid.free|
  {
    var w1: World, f: nat :| TurnDoes(mid, w1, w', r, p, f, flags);
    TurnTakes(mid, w1, w', r, p, f, flags);
    TurnsSnoc(w, mid, w1, w', r, init, p, f, flags);
  }

  lemma TurnsSnoc(w: World, mid: World, w1: World, w': World, r: nat, init: seq<Page>, last: Page, f: nat, flags: Word)
    requires TurnsDo(w, mid, r, init, flags) && TurnDoes(mid, w1, w', r, last, f, flags)
    ensures TurnsDo(w, w', r, init + [last], flags)
  {
    var pages := init + [last];
    assert pages[..|pages| - 1] == init && pages[|pages| - 1] == last;
  }

  lemma MmapStops(w: World, w': World, r: nat, pages: seq<Page>, k: nat, flags: Word)
    requires Mapped(w, w', r, pages, k, flags)
    requires k < |pages| ==> w'.free == {}
    ensures MmapDoes(w, w', r, pages, flags, if k < |pages| then -ENOMEM else 0)
  {
    if k == |pages| { assert pages[..k] == pages; }
  }

  /** The machine after k iterations of a call that began in world w with the pages `stale`
      unflushed. */
  ghost predicate Midway(m: Machine, pml4: Word, w: World, stale: set<Page>, virt: Word, pages: seq<Page>,
                         flags: Word, k: nat)
    reads m, m.ram
  {
    && m.Valid() && m.IsPml4(pml4) && m.Coherent()
    && Mapped(w, m.State(), pml4 / 4096, pages, k, flags)
    && m.stale <= stale + UnflushedUpTo(virt, k)
  }

  /** The call ends after k iterations. */
  lemma MmapEnds(m: Machine, pml4: Word, w: World, stale: set<Page>, virt: Word, pages: seq<Page>,
                 flags: Word, k: nat)
    requires Midway(m, pml4, w, stale, virt, pages, flags, k) && (k < |pages| ==> m.State().free == {})
    ensures m.Valid() && m.IsPml4(pml4) && m.Coherent() && k <= |pages|
    ensures m.stale <= stale + UnflushedUpTo(virt, |pages|)
    ensures MmapDoes(w, m.State(), pml4 / 4096, pages, flags, if k < |pages| then -ENOMEM else 0)
  {
    UnflushedGrows(virt, k, |pages|);
    MmapStops(w, m.State(), pml4 / 4096, pages, k, flags);
  }

  /** The k-th iteration: one more page mapped, or the end of the call with -ENOMEM. */
  method NextTurn(m: Machine, pml4: Word, v: Word, flags: Word, ghost virt: Word, ghost w: World,
                  ghost stale: set<Page>, ghost pages: seq<Page>, ghost k: nat)
    returns (ok: bool)
    requires Midway(m, pml4, w, stale, virt, pages, flags, k)
    requires k < |pages| && pages == Pages(virt / 4096, |pages|) && v == VirtAt(virt, k)
    modifies m.ram, m`tabs, m`tlb, m`stale
    ensures !ok ==> Midway(m, pml4, w, stale, virt, pages, flags, k) && m.State().free == {}
    ensures ok ==> Midway(m, pml4, w, stale, virt, pages, flags, k + 1)
    ensures ok ==> |m.State().free| < |old(m.State().free)|
  {
    ghost var mid := m.State();
    VisitsPages(virt, |pages|, k);
    ok := Turn(m, pml4, v, flags);
    if ok {
      OneMoreTurn(w, mid, m.State(), pml4 / 4096, pages, k, flags);
    }
  }

  lemma MappedNone(w: World, r: nat, pages: seq<Page>, flags: Word)
    ensures Mapped(w, w, r, pages, 0, flags)
  {
    assert pages[..0] == [];
  }

  /** `mmap_at`, and `mmap` when pml4 is the current CR3. */
  method MmapAt(m: Machine, pml4: Word, virt: Word, nPages: Word, prot: Word) returns (ret: int)
    requires m.Valid() && m.IsPml4(pml4) && m.Coherent()
    modifies m.ram, m`tabs, m`tlb, m`stale
    ensures m.Valid() && m.IsPml4(pml4) && m.Coherent()
    ensures m.stale <= old(m.stale) + UnflushedUpTo(virt, Turns(nPages, |old(m.State().free)|))
    ensures MmapDoes(old(m.State()), m.State(), pml4 / 4096,
                     Pages(virt / 4096, Turns(nPages, |old(m.State().free)|)), FlagsOf(prot), ret)
  {
    var flags := GetFlagsFromProt(prot);
    ret := MapRange(m, pml4, virt, nPages, flags, Pages(virt / 4096, Turns(nPages, |m.State().free|)));
  }

  /** The loop. */
  method MapRange(m: Machine, pml4: Word, virt: Word, nPages: Word, flags: Word, ghost pages: seq<Page>)
    returns (ret: int)
    requires m.Valid() && m.IsPml4(pml4) && m.Coherent()
    requires pages == Pages(virt / 4096, |pages|) && |pages| == Turns(nPages, |m.State().free|)
    modifies m.ram, m`tabs, m`tlb, m`stale
    ensures m.Valid() && m.IsPml4(pml4) && m.Coherent()
    ensures m.stale <= old(m.stale) + UnflushedUpTo(virt, |pages|)
    ensures MmapDoes(old(m.State()), m.State(), pml4 / 4096, pages, flags, ret)
  {
    ghost var w, stale, done: nat := m.State(), m.stale, 0;
    var i: nat, v: Word := 0, virt;
    MappedNone(w, pml4 / 4096, pages, flags);
    while i < nPages
      invariant Midway(m, pml4, w, stale, virt, pages, flags, done)
      invariant i < 0x1_0000_0000 && (nPages < 0x1_0000_0000 ==> i == done)
      invariant v == VirtAt(virt, done)
      decreases |m.State().free|
    {
      var ok := NextTurn(m, pml4, v, flags, virt, w, stale, pages, done);
      if !ok {
        MmapEnds(m, pml4, w, stale, virt, pages, flags, done);
        return -ENOMEM;
      }
      i, v, done := Increment32(i), NextVirt(v), done + 1;
    }
    MmapEnds(m, pml4, w, stale, virt, pages, flags, done);
    return 0;
  }

  // ---- what the caller asked for -----------------------------------------------------------------

  /** Or-ing the asked flags into a frame address adds them: nothing else is in the entry. */
  lemma EntryIsSum(f: nat, x: Word, y: nat, s: nat, n: nat)
    requires f < MAX_FRAMES && (x == 0 || x == PTE_NX) && y < 8 && x + y < WORD_LIMIT && s == 63 && n == 12
    ensures EntryFor(4096 * f, x + y) == 4096 * f + x + y
  {
    LowFlags(f, y, n);
    if x == PTE_NX { TopFlag(4096 * f, y, s); }
  }

  lemma LowFlags(f: nat, y: nat, n: nat)
    requires y < 8 && n == 12
    ensures Or(4096 * f, y) == 4096 * f + y
  {
    ShlByPage(f, n);
    Pow2Values();
    OrDisjoint(f, y, n);
  }

  lemma TopFlag(a: nat, y: nat, s: nat)
    requires s == 63 && y < 8 && a + y < 0x8000_0000_0000_0000 && Or(a, y) == a + y
    ensures Or(a, PTE_NX + y) == a + PTE_NX + y
  {
    NxIsShl(s);
    OrDisjoint(1, y, s);
    OrDisjoint(1, a + y, s);
    OrAssoc(a, y, PTE_NX);
  }

  lemma NxIsShl(s: nat)
    requires s == 63
    ensures Pow2(s) == 0x8000_0000_0000_0000 && Shl(1, s) == PTE_NX
  {
    Pow2Values();
    assert Pow2(s + 1) == 2 * Pow2(s);
    ShlIsMul(1, s);
  }

  /** The entry of a page that `mmap` mapped to frame f: the frame's address, PRESENT for PROT_READ,
      WRITABLE for PROT_WRITE, USER for PROT_USER, NX without PROT_EXEC, and no other bit. */
  lemma EntryAsAsked(f: nat, prot: Word)
    requires f < MAX_FRAMES
    ensures EntryFor(4096 * f, FlagsOf(prot)) ==
            4096 * f + (if prot / 2 % 2 == 1 then 1 else 0) + (if prot / 4 % 2 == 1 then 2 else 0)
            + (if prot / 8 % 2 == 1 then 4 else 0) + (if prot % 2 == 1 then 0 else 0x8000_0000_0000_0000)
  {
    var y := (if prot / 2 % 2 == 1 then 1 else 0) + (if prot / 4 % 2 == 1 then 2 else 0)
             + (if prot / 8 % 2 == 1 then 4 else 0);
    EntryIsSum(f, if prot % 2 == 1 then 0 else PTE_NX, y, 63, 12);
  }

  /** The same bit by bit: the rights are those asked for, each by its own bit. */
  lemma RightsAsAsked(e: Word, f: nat, prot: Word)
    requires f < MAX_FRAMES && e == EntryFor(4096 * f, FlagsOf(prot))
    ensures Bit(e, 0) <==> Bit(prot, 1)
    ensures Bit(e, 1) <==> Bit(prot, 2)
    ensures Bit(e, 2) <==> Bit(prot, 3)
    ensures Bit(e, 63) <==> !Bit(prot, 0)
  {
    EntryAsAsked(f, prot);
    FourBits(prot);
    FourBits(e);
    TopBit(e, 63);
    SumDigits(f, prot / 2 % 2, prot / 4 % 2, prot / 8 % 2, if prot % 2 == 1 then 0 else 0x8000_0000_0000_0000);
  }

  lemma SumDigits(f: nat, b0: nat, b1: nat, b2: nat, x: nat)
    requires f < MAX_FRAMES && b0 < 2 && b1 < 2 && b2 < 2 && (x == 0 || x == 0x8000_0000_0000_0000)
    ensures var e := 4096 * f + b0 + 2 * b1 + 4 * b2 + x;
            e % 2 == b0 && e / 2 % 2 == b1 && e / 4 % 2 == b2 && (e >= 0x8000_0000_0000_0000 <==> x != 0)
  {
    var e := 4096 * f + b0 + 2 * b1 + 4 * b2 + x;
    var q := 512 * f + x / 8;
    DivUnique(e, 8, q, b0 + 2 * b1 + 4 * b2);
    LowThree(e, q, b0, b1, b2);
  }

  lemma LowThree(e: nat, q: nat, b0: nat, b1: nat, b2: nat)
    requires e == 8 * q + b0 + 2 * b1 + 4 * b2 && b0 < 2 && b1 < 2 && b2 < 2
    ensures e % 2 == b0 && e / 2 % 2 == b1 && e / 4 % 2 == b2
  {
    assert e / 2 == 4 * q + b1 + 2 * b2 && e / 4 == 2 * q + b2;
  }

  lemma FourBits(e: nat)
    ensures (Bit(e, 0) <==> e % 2 == 1) && (Bit(e, 1) <==> e / 2 % 2 == 1)
    ensures (Bit(e, 2) <==> e / 4 % 2 == 1) && (Bit(e, 3) <==> e / 8 % 2 == 1)
  {
    assert Pow2(0) == 1 && Pow2(1) == 2 && Pow2(2) == 4 && Pow2(3) == 8;
    BitIsDiv(e, 0);
    BitIsDiv(e, 1);
    BitIsDiv(e, 2);
    BitIsDiv(e, 3);
  }

  lemma TopBit(e: Word, s: nat)
    requires s == 63
    ensures Bit(e, s) <==> e >= 0x8000_0000_0000_0000
  {
    BitIsDiv(e, s);
    NxIsShl(s);
  }

  /** In the address space r, the page of address v leads to a frame that was free in w and is not
      in w', and has exactly the rights that prot asks for. */
  ghost predicate MappedAsAsked(w: World, w': World, r: nat, v: Word, prot: Word) {
    var e := Leaf(w'.mem, r, PageOf(v));
    var f := e / 4096 % 0x100_0000_0000;
    && f in w.free && f !in w'.free
    && e == 4096 * f + (if prot / 2 % 2 == 1 then 1 else 0) + (if prot / 4 % 2 == 1 then 2 else 0)
            + (if prot / 8 % 2 == 1 then 4 else 0) + (if prot % 2 == 1 then 0 else 0x8000_0000_0000_0000)
  }

  lemma GotAsAsked(w: World, w': World, r: nat, virt: Word, n: nat, k: nat, prot: Word)
    requires k < n && GotFrame(w, w', r, Pages(virt / 4096, n)[k], FlagsOf(prot))
    ensures MappedAsAsked(w, w', r, (virt + 4096 * k) % 0x1_0000_0000_0000_0000, prot)
  {
    VisitsPages(virt, n, k);
    VirtAtIs(virt, k);
    EntryAsAsked(FrameOf(Leaf(w'.mem, r, Pages(virt / 4096, n)[k])), prot);
  }

  /** `mmap` of n pages from address virt returned 0: each of the n addresses virt + 4096 k, except
      perhaps the last, has a frame of its own with the rights asked for.  The last has too, or is
      as it was and no frame is left. */
  lemma MmapEntries(w: World, w': World, r: nat, virt: Word, n: nat, prot: Word)
    requires Inv(w) && IsRoot(w, r) && 0 < n <= NR_PAGES
    requires MmapDoes(w, w', r, Pages(virt / 4096, n), FlagsOf(prot), 0)
    ensures forall k: nat :: k + 1 < n ==> MappedAsAsked(w, w', r, (virt + 4096 * k) % 0x1_0000_0000_0000_0000, prot)
    ensures var v := (virt + 4096 * (n - 1)) % 0x1_0000_0000_0000_0000;
            || MappedAsAsked(w, w', r, v, prot)
            || (w'.free == {} && Leaf(w'.mem, r, PageOf(v)) == Leaf(w.mem, r, PageOf(v)))
  {
    forall k: nat | k + 1 < n ensures MappedAsAsked(w, w', r, (virt + 4096 * k) % 0x1_0000_0000_0000_0000, prot) {
      MmapEntry(w, w', r, virt, n, k, prot);
    }
    MmapEntry(w, w', r, virt, n, n - 1, prot);
  }

  lemma MmapEntry(w: World, w': World, r: nat, virt: Word, n: nat, k: nat, prot: Word)
    requires Inv(w) && IsRoot(w, r) && k < n <= NR_PAGES
    requires MmapDoes(w, w', r, Pages(virt / 4096, n), FlagsOf(prot), 0)
    ensures var v := (virt + 4096 * k) % 0x1_0000_0000_0000_0000;
            || MappedAsAsked(w, w', r, v, prot)
            || (k == n - 1 && w'.free == {} && Leaf(w'.mem, r, PageOf(v)) == Leaf(w.mem, r, PageOf(v)))
  {
    VisitsPages(virt, n, k);
    VirtAtIs(virt, k);
    PagesDistinct(virt / 4096, n);
    var got := KthGot(w, w', r, Pages(virt / 4096, n), k, prot);
    if got { GotAsAsked(w, w', r, virt, n, k, prot); }
  }

  lemma KthGot(w: World, w': World, r: nat, pages: seq<Page>, k: nat, prot: Word) returns (got: bool)
    requires Inv(w) && IsRoot(w, r) && k < |pages| && Distinct(pages)
    requires MmapDoes(w, w', r, pages, FlagsOf(prot), 0)
    ensures if got then GotFrame(w, w', r, pages[k], FlagsOf(prot))
            else k == |pages| - 1 && w'.free == {} && Leaf(w'.mem, r, pages[k]) == Leaf(w.mem, r, pages[k])
  {
    FlagsOfFlagsOnly(prot);
    MmapGives(w, w', r, pages, FlagsOf(prot));
    got := GotFrames(w, w', r, pages, FlagsOf(prot)) || k < |pages| - 1;
    if k < |pages| - 1 { assert pages[..|pages| - 1][k] == pages[k]; }
  }

  /** `mmap`: the call on the current address space, read as a call on the flat machine. */
  method MmapHere(m: Machine, virt: Word, nPages: Word, prot: Word) returns (ret: int)
    requires m.Valid() && m.Coherent()
    modifies m.ram, m`tabs, m`tlb, m`stale
    ensures m.Valid() && m.Coherent()
    ensures m.stale <= old(m.stale) + UnflushedUpTo(virt, Turns(nPages, |old(m.State().free)|))
    ensures Bounded(old(FlatOf(m.State(), m.cr3 / 4096)))
    ensures (FlatOf(m.State(), m.cr3 / 4096), ret) ==
            FlatMmap.Mmap(old(FlatOf(m.State(), m.cr3 / 4096)),
                          Pages(virt / 4096, Turns(nPages, |old(m.State().free)|)), FlagsOf(prot))
    ensures MmapDoes(old(m.State()), m.State(), m.cr3 / 4096,
                     Pages(virt / 4096, Turns(nPages, |old(m.State().free)|)), FlagsOf(prot), ret)
    ensures ret == 0 || (ret == -2 && m.State().free == {})
    ensures ret == 0 && nPages < 0x1_0000_0000 ==>
              forall k: nat :: k + 1 < nPages ==>
                MappedAsAsked(old(m.State()), m.State(), m.cr3 / 4096,
                              (virt + 4096 * k) % 0x1_0000_0000_0000_0000, prot)
  {
    ghost var w := m.State();
    ret := MmapAt(m, m.cr3, virt, nPages, prot);
    MmapRefines(w, m.State(), m.cr3 / 4096, Pages(virt / 4096, Turns(nPages, |w.free|)), FlagsOf(prot), ret);
    if ret == 0 && 0 < nPages < 0x1_0000_0000 {
      MmapEntries(w, m.State(), m.cr3 / 4096, virt, nPages, prot);
    }
  }

  // ---- munmap ------------------------------------------------------------------------------------

  /** When the page table exists, a store creates nothing. */
  lemma StoreFinds(w: World, w': World, r: nat, p: Page, e: Word)
    requires TableFor(w.mem, r, p).Some? && StoreDoes(w, w', r, p, e)
    ensures WriteStep(w, w', TableFor(w.mem, r, p).value, p.i1, e)
  {
  }

  /** The entry of p is cleared and then the bit of the frame f it pointed at. */
  ghost predicate MunmapVia(w: World, w1: World, w': World, r: nat, p: Page, f: nat) {
    StoreDoes(w, w1, r, p, 0) && Unmarked(w1, w', f)
  }

  ghost predicate MunmapDoes(w: World, w': World, r: nat, p: Page) {
    exists w1: World :: MunmapVia(w, w1, w', r, p, FrameOf(Leaf(w.mem, r, p)))
  }

  lemma MappedHasTable(w: World, r: nat, p: Page)
    requires FrameOf(Leaf(w.mem, r, p)) != 0
    ensures TableFor(w.mem, r, p).Some?
  {
  }

  /** A walk that failed fails again, and creates nothing more. */
  lemma WalkFailsAgain(w: World, w': World, r: nat, p: Page, c: Option<nat>)
    requires TableFor(w.mem, r, p) == None && w.free == {} && WalkDoes(w, w', r, p, c)
    ensures w' == w && c == None
  {
    var w1: World, w2: World, c3: Option<nat>, c2: Option<nat> :| Chain(w, w1, w2, w', r, p, c3, c2, c);
  }

  /** A walk and then a store, with its own walk, are a store. */
  lemma WalkThenStore(w: World, wa: World, w1: World, r: nat, p: Page, c: Option<nat>, e: Word)
    requires Inv(w) && IsRoot(w, r) && WalkDoes(w, wa, r, p, c) && StoreDoes(wa, w1, r, p, e)
    ensures StoreDoes(w, w1, r, p, e)
  {
    WalkRefines(w, wa, r, p, c);
    if c.Some? {
      StoreFinds(wa, w1, r, p, e);
      assert StoreAfter(wa, w1, p, c, e);
    } else {
      WalkCost(FlatOf(w, r), p);
      var wb: World, d: Option<nat> :| WalkDoes(wa, wb, r, p, d) && StoreAfter(wb, w1, p, d, e);
      WalkFailsAgain(wa, wb, r, p, d);
      assert StoreAfter(wa, w1, p, c, e);
    }
  }

  /** What `vmm_get_phys` followed by `vmm_unmap_page` come to. */
  lemma ReadThenClear(w: World, wa: World, w1: World, r: nat, p: Page, phys: Word)
    requires Inv(w) && IsRoot(w, r) && GetPhysDoes(w, wa, r, p, phys) && StoreDoes(wa, w1, r, p, 0)
    ensures Inv(w1) && StoreDoes(w, w1, r, p, 0) && phys == 4096 * FrameOf(Leaf(w.mem, r, p))
    ensures Releasable(w1, phys / 4096) <==> Releasable(w, phys / 4096)
  {
    var c: Option<nat> :| WalkDoes(w, wa, r, p, c) && phys == PhysIn(wa, p, c);
    PhysRefines(w, wa, r, p, c);
    WalkThenStore(w, wa, w1, r, p, c, 0);
    StoreIsExact(w, w1, r, p, 0);
    if phys != 0 {
      MappedHasTable(w, r, p);
      StoreFinds(w, w1, r, p, 0);
    }
  }

  lemma UnmarkedLeaves(w: World, w': World, f: nat, r: nat, p: Page)
    requires Inv(w) && IsRoot(w, r) && Unmarked(w, w', f)
    ensures Leaf(w'.mem, r, p) == Leaf(w.mem, r, p)
  {
    SameTables(w, w'.mem, r, p);
  }

  /** `vmm_get_phys` and then `vmm_unmap_page`, both of the aligned address. */
  method ReadAndUnmap(m: Machine, virt: Word) returns (phys: Word)
    requires m.Valid() && m.Coherent()
    modifies m.ram, m`tabs, m`tlb, m`stale
    ensures m.Valid() && m.Coherent()
    ensures m.stale <= old(m.stale) + Unflushed(virt)
    ensures StoreDoes(old(m.State()), m.State(), m.cr3 / 4096, PageOf(virt), 0)
    ensures phys / 4096 == FrameOf(Leaf(old(m.ram[..]), m.cr3 / 4096, PageOf(virt)))
    ensures Releasable(m.State(), phys / 4096) <==> Releasable(old(m.State()), phys / 4096)
  {
    ghost var w := m.State();
    var aligned := Vmm.PageAligned(virt);
    phys := Vmm.WalkAndLoad(m, m.cr3, aligned);
    ghost var wa := m.State();
    Vmm.WalkAndStore(m, m.cr3, aligned, 0);
    ReadThenClear(w, wa, m.State(), m.cr3 / 4096, PageOf(virt), phys);
  }

  /** `pmm_free_frame` leaves every translation as it was. */
  method ReleaseFrame(m: Machine, phys: Word)
    requires m.Valid() && m.Coherent() && phys / 4096 < m.bitmapSize * 8
    modifies m.ram
    ensures m.Coherent() && Unmarked(old(m.State()), m.State(), phys / 4096)
    ensures m.Valid() <==> Releasable(old(m.State()), phys / 4096)
  {
    ghost var w := m.State();
    Pmm.FreeFrame(m, phys);
    forall q | q in m.tlb && q !in m.stale ensures Leaf(m.ram[..], m.cr3 / 4096, q) == Leaf(w.mem, m.cr3 / 4096, q) {
      UnmarkedLeaves(w, m.State(), phys / 4096, m.cr3 / 4096, q);
    }
  }

  /** `munmap`: the page's entry is cleared and the bit of its frame too.  The machine stays
      valid if and only if the frame was the caller's to give back, as that of a page made by
      `mmap` is; for a page that is not mapped the frame is 0, and it does not. */
  method Munmap(m: Machine, virt: Word)
    requires m.Valid() && m.Coherent()
    requires FrameOf(Leaf(m.ram[..], m.cr3 / 4096, PageOf(virt))) < m.bitmapSize * 8
    modifies m.ram, m`tabs, m`tlb, m`stale
    ensures MunmapDoes(old(m.State()), m.State(), m.cr3 / 4096, PageOf(virt))
    ensures m.Coherent() && m.stale <= old(m.stale) + Unflushed(virt)
    ensures m.Valid() <==> Releasable(old(m.State()), FrameOf(Leaf(old(m.ram[..]), m.cr3 / 4096, PageOf(virt))))
  {
    ghost var w := m.State();
    var phys := ReadAndUnmap(m, virt);
    ghost var w1 := m.State();
    ReleaseFrame(m, phys);
    MunmapWitness(w, w1, m.State(), m.cr3 / 4096, PageOf(virt), phys / 4096);
  }

  lemma MunmapWitness(w: World, w1: World, w': World, r: nat, p: Page, f: nat)
    requires f == FrameOf(Leaf(w.mem, r, p)) && StoreDoes(w, w1, r, p, 0) && Unmarked(w1, w', f)
    ensures MunmapDoes(w, w', r, p)
  {
    assert MunmapVia(w, w1, w', r, p, FrameOf(Leaf(w.mem, r, p)));
  }

  /** `munmap` of a page that is not mapped frees frame 0, which no allocation may hand out. */
  lemma MunmapUnmapped(w: World, w': World, r: nat, p: Page)
    requires Inv(w) && Leaf(w.mem, r, p) == 0 && MunmapDoes(w, w', r, p)
    ensures 0 in w'.free && !Inv(w')
  {
    var w1: World :| MunmapVia(w, w1, w', r, p, FrameOf(Leaf(w.mem, r, p)));
  }

  // ---- mmap, then munmap -------------------------------------------------------------------------

  /** Entries of a table keep their value, except that absent entries above level 1 may have
      received a new table. */
  ghost predicate OnlyNewLinks(w: World, w': World) {
    |w'.mem| == |w.mem| &&
    forall t, i :: t in w.tabs && t < |w.mem| && 0 <= i < 512 ==>
      || w'.mem[t][i] == w.mem[t][i]
      || (Depth(w.tabs[t]) < 3 && Child(w.mem, t, i) == None && Child(w'.mem, t, i).Some?)
  }

  lemma LevelLinks(w: World, w': World, t: nat, i: nat, c: Option<nat>)
    requires Inv(w) && LevelStep(w, w', t, i, c)
    ensures Inv(w') && OnlyNewLinks(w, w') && Settled(w, w')
  {
    if w' != w {
      LinkInv(w, w', t, i, c.value);
      LinkChildren(w, w', t, i, c.value);
    }
  }

  lemma LinksTransitive(w: World, w1: World, w2: World)
    requires OnlyNewLinks(w, w1) && OnlyNewLinks(w1, w2) && Settled(w, w1) && Settled(w1, w2) && Inv(w)
    ensures OnlyNewLinks(w, w2) && Settled(w, w2)
  {
  }

  lemma WalkLinks(w: World, w': World, r: nat, p: Page, c: Option<nat>)
    requires Inv(w) && IsRoot(w, r) && WalkDoes(w, w', r, p, c)
    ensures OnlyNewLinks(w, w') && Settled(w, w')
  {
    var w1: World, w2: World, c3: Option<nat>, c2: Option<nat> :| Chain(w, w1, w2, w', r, p, c3, c2, c);
    LevelLinks(w, w1, r, p.i4, c3);
    if c3.Some? {
      LevelLinks(w1, w2, c3.value, p.i3, c2);
      LinksTransitive(w, w1, w2);
    }
    if c2.Some? {
      LevelLinks(w2, w', c2.value, p.i2, c);
      LinksTransitive(w, w2, w');
    }
  }

  lemma StoreUndone(w: World, w1: World, w2: World, t: nat, i: nat, e: Word)
    requires WriteStep(w, w1, t, i, e) && WriteStep(w1, w2, t, i, w.mem[t][i])
    ensures w2 == w
  {
    assert w1.mem[t][i := w.mem[t][i]] == w.mem[t];
    assert w2.mem == w.mem;
  }

  /** Taking a frame, walking, and giving the frame back. */
  lemma WalkRoundTrip(w: World, w1: World, wa: World, w': World, r: nat, p: Page, c: Option<nat>, f: nat)
    requires Inv(w) && IsRoot(w, r)
    requires AllocStep(w, w1, f) && WalkDoes(w1, wa, r, p, c) && FreeStep(wa, w', f)
    ensures Inv(w') && SameLeaves(w, w') && OnlyNewLinks(w, w')
    ensures w'.free == w.free - (w'.tabs.Keys - w.tabs.Keys)
    ensures forall g :: 0 <= g < |w.mem| && g !in w.free && g !in w.tabs && g !in w.meta ==> w'.mem[g] == w.mem[g]
  {
    AllocKeeps(w, w1, f);
    WalkGrows(w1, wa, r, p, c);
    FreeKeeps(wa, w', f);
    RoundTripFrames(w, w1, wa, w', f);
    assert OnlyNewLinks(w, w') by {
      WalkLinks(w1, wa, r, p, c);
      RoundTripLinks(w, w1, wa, w', f);
    }
    assert SameLeaves(w, w') by { RoundTripLeaves(w, w1, wa, w', f); }
  }

  lemma RoundTripLeaves(w: World, w1: World, wa: World, w': World, f: nat)
    requires Inv(w) && AllocStep(w, w1, f) && Grew(w1, wa) && SameLeaves(w1, wa) && Inv(wa) && FreeStep(wa, w', f)
    ensures SameLeaves(w, w')
  {
    AllocKeeps(w, w1, f);
    FreeKeeps(wa, w', f);
    forall r, p | IsRoot(w, r) ensures Leaf(w'.mem, r, p) == Leaf(w.mem, r, p) {
      assert IsRoot(w1, r) && IsRoot(wa, r);
      assert Leaf(wa.mem, r, p) == Leaf(w1.mem, r, p);
    }
  }

  lemma RoundTripFrames(w: World, w1: World, wa: World, w': World, f: nat)
    requires Inv(w) && AllocStep(w, w1, f) && Grew(w1, wa) && FreeStep(wa, w', f)
    ensures w'.free == w.free - (w'.tabs.Keys - w.tabs.Keys)
    ensures forall g :: 0 <= g < |w.mem| && g !in w.free && g !in w.tabs && g !in w.meta ==> w'.mem[g] == w.mem[g]
  {
  }

  lemma RoundTripLinks(w: World, w1: World, wa: World, w': World, f: nat)
    requires Inv(w) && AllocStep(w, w1, f) && OnlyNewLinks(w1, wa) && Inv(wa) && Settled(w1, wa) && FreeStep(wa, w', f)
    ensures OnlyNewLinks(w, w')
  {
  }

  /** One page, and a frame for it and for each table it needs: the call is one successful turn. */
  lemma OnePageMapped(w: World, w2: World, r: nat, p: Page, flags: Word, ret: int)
    requires Inv(w) && IsRoot(w, r) && FlagsOnly(flags) && 1 + Missing(FlatOf(w, r), p) <= |w.free|
    requires MmapDoes(w, w2, r, [p], flags, ret)
    ensures ret == 0 && Inv(w2) && IsRoot(w2, r) && GotFrame(w, w2, r, p, flags)
    ensures TableFor(w2.mem, r, p).Some? && SomeTurn(w, w2, r, p, flags)
  {
    var a := FlatOf(w, r);
    MmapRefines(w, w2, r, [p], flags, ret);
    FlatOfWellFormed(w, r);
    OnePageCost(a, p, flags);
    AllMappedFresh(a, [p], flags);
    AllMappedGetFrames(w, w2, r, [p], flags);
    assert GotFrame(w, w2, r, [p][0], flags);
    MappedHasTable(w2, r, p);
    OneTurnOnly(w, w2, r, p, flags);
  }

  lemma OnePageCost(a: Flat, p: Page, flags: Word)
    requires Bounded(a) && 1 + Missing(a, p) <= |a.free|
    ensures AllMapped(a, [p], flags)
  {
    var b := Flat(a.pte, a.tables + ToIset(PrefixesOf(p)), a.free);
    NewTablesSplit(a, b, [p]);
    assert [p][1..] == [] && NewTables(b, []) == {};
    MmapCost(a, [p], flags);
  }

  lemma OneTurnOnly(w: World, w': World, r: nat, p: Page, flags: Word)
    requires TurnsDo(w, w', r, [p], flags)
    ensures SomeTurn(w, w', r, p, flags)
  {
    var mid: World, w1: World, f: nat :|
      TurnsDo(w, mid, r, [p][..0], flags) && TurnDoes(mid, w1, w', r, [p][0], f, flags);
    assert [p][..0] == [];
  }

  /** Restoration: `mmap` of one unmapped page, with frames enough, and then `munmap` restores
      every translation of every address space, and the free set except for the tables the walk
      created; all other frames keep their contents, tables only gain links to new tables. */
  lemma MmapThenMunmap(w: World, w2: World, w': World, r: nat, p: Page, flags: Word, ret: int)
    requires Inv(w) && IsRoot(w, r) && FlagsOnly(flags) && Leaf(w.mem, r, p) == 0
    requires 1 + Missing(FlatOf(w, r), p) <= |w.free|
    requires MmapDoes(w, w2, r, [p], flags, ret) && MunmapDoes(w2, w', r, p)
    ensures ret == 0 && Releasable(w2, FrameOf(Leaf(w2.mem, r, p)))
    ensures Restored(w, w')
  {
    OnePageMapped(w, w2, r, p, flags, ret);
    var w1: World, f: nat :| TurnDoes(w, w1, w2, r, p, f, flags);
    TurnThenMunmap(w, w1, w2, w', r, p, f, flags);
  }

  /** The same world, but for new tables and links to them. */
  ghost predicate Restored(w: World, w': World) {
    && Inv(w') && SameLeaves(w, w') && OnlyNewLinks(w, w')
    && w'.free == w.free - (w'.tabs.Keys - w.tabs.Keys)
    && (forall g :: 0 <= g < |w.mem| && g !in w.free && g !in w.tabs && g !in w.meta ==> w'.mem[g] == w.mem[g])
  }

  lemma TurnThenMunmap(w: World, w1: World, w2: World, w': World, r: nat, p: Page, f: nat, flags: Word)
    requires Inv(w) && IsRoot(w, r) && FlagsOnly(flags) && Leaf(w.mem, r, p) == 0
    requires TurnDoes(w, w1, w2, r, p, f, flags) && TableFor(w2.mem, r, p).Some?
    requires MunmapDoes(w2, w', r, p)
    ensures FrameOf(Leaf(w2.mem, r, p)) == f && Releasable(w2, f) && Restored(w, w')
  {
    var e := EntryFor(4096 * f, flags);
    AllocKeeps(w, w1, f);
    var wa: World, c: Option<nat> :| WalkDoes(w1, wa, r, p, c) && StoreAfter(wa, w2, p, c, e);
    var w3: World :| MunmapVia(w2, w3, w', r, p, FrameOf(Leaf(w2.mem, r, p)));
    StoredThenCleared(w1, wa, w2, w3, r, p, c, f, flags);
    StoreIsExact(w1, w2, r, p, e);
    assert Releasable(w2, f);
    WalkGrows(w1, wa, r, p, c);
    assert FreeStep(wa, w', f);
    WalkRoundTrip(w, w1, wa, w', r, p, c, f);
  }

  lemma StoredThenCleared(w1: World, wa: World, w2: World, w3: World, r: nat, p: Page, c: Option<nat>, f: nat,
                          flags: Word)
    requires Inv(w1) && IsRoot(w1, r) && FlagsOnly(flags) && f < MAX_FRAMES && Leaf(w1.mem, r, p) == 0
    requires WalkDoes(w1, wa, r, p, c) && StoreAfter(wa, w2, p, c, EntryFor(4096 * f, flags))
    requires TableFor(w2.mem, r, p).Some? && StoreDoes(w2, w3, r, p, 0)
    ensures w3 == wa && FrameOf(Leaf(w2.mem, r, p)) == f
  {
    WalkGrows(w1, wa, r, p, c);
    WalkRefines(w1, wa, r, p, c);
    if c.Some? {
      Vmm.LeafAfterWalk(w1, wa, r, p, c.value);
      WriteIsExact(wa, w2, r, p, EntryFor(4096 * f, flags));
      WriteKeeps(wa, w2, c.value, p.i1, EntryFor(4096 * f, flags));
      LeafEntry(f, flags);
      StoreFinds(w2, w3, r, p, 0);
      StoreUndone(wa, w2, w3, c.value, p.i1, EntryFor(4096 * f, flags));
    }
  }

  lemma OnePage(virt: Word, frames: nat)
    ensures Pages(virt / 4096, Turns(1, frames)) == [PageOf(virt)]
  {
    PageOfIsPageAt(virt);
    assert Pages(virt / 4096 + 1, 0) == [];
  }

  /** A client that maps one page and unmaps it: `mmap` leaves what `munmap` asks for, and the
      pair leaves everything as it was. */
  method MapAndUnmap(m: Machine, virt: Word, prot: Word) returns (ret: int)
    requires m.Valid() && m.Coherent() && Leaf(m.ram[..], m.cr3 / 4096, PageOf(virt)) == 0
    requires 1 + Missing(FlatOf(m.State(), m.cr3 / 4096), PageOf(virt)) <= |m.State().free|
    modifies m.ram, m`tabs, m`tlb, m`stale
    ensures ret == 0 && m.Valid() && m.Coherent() && Restored(old(m.State()), m.State())
    ensures m.stale <= old(m.stale) + Unflushed(virt)
  {
    ghost var w, r, p := m.State(), m.cr3 / 4096, PageOf(virt);
    OnePage(virt, |w.free|);
    FlagsOfFlagsOnly(prot);
    ret := MmapHere(m, virt, 1, prot);
    ghost var w2 := m.State();
    OnePageMapped(w, w2, r, p, FlagsOf(prot), ret);
    Munmap(m, virt);
    MmapThenMunmap(w, w2, m.State(), r, p, FlagsOf(prot), ret);
  }
}
