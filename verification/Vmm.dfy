/** sys/src/mm/vmm.c: page-table walks that create what they miss, and the operations on
    level-1 entries, with the TLB running alongside. */
module Vmm {
  import opened Words
  import opened Paging
  import opened Forest
  import opened Flat
  import opened Calls
  import opened Bitmap
  import opened Machines
  import opened Spaces
  import Flags
  import Pmm

  /** A table pointer, NULL meaning none. */
  function AsTable(addr: Word): Option<nat> {
    if addr == 0 then None else Some(addr / 4096)
  }

  lemma LinkIsStep(w: World, w1: World, w2: World, t: nat, i: nat, f: nat)
    requires Inv(w) && AllocStep(w, w1, f) && t in w.tabs && Depth(w.tabs[t]) < 3 && i < 512
    requires Child(w.mem, t, i) == None
    requires w2.mem == w1.mem[t := w1.mem[t][i := TableEntry(f)]] && w2.free == w1.free
    requires w2.tabs == w.tabs[f := Sub(w.tabs[t], i)] && w2.meta == w.meta
    ensures LinkStep(w, w2, t, i, f) && Inv(w2)
  {
    LinkInv(w, w2, t, i, f);
  }

  /** A store into a frame that holds no part of the bitmap. */
  method StoreEntry(m: Machine, t: nat, i: nat, e: Word)
    requires m.bitmapSize % 4096 == 0 && t < m.ram.Length && i < 512
    requires t !in BitmapFrames(m.bitmap, m.bitmapSize)
    modifies m.ram
    ensures m.ram[..] == old(m.ram[..])[t := old(m.ram[..])[t][i := e]]
    ensures m.State().free == old(m.State().free)
  {
    ghost var mem := m.ram[..];
    m.ram[t] := m.ram[t][i := e];
    assert m.ram[..] == mem[t := mem[t][i := e]];
    ClearElsewhere(mem, m.ram[..], m.bitmap, m.bitmapSize);
  }

  /** The new table `next` is entered in the entry `index` of its parent. */
  method LinkTable(m: Machine, top: Word, index: nat, next: Word, ghost w: World)
    requires m.FramesValid() && index < 512
    requires top % 4096 == 0 && top / 4096 in m.tabs && Depth(m.tabs[top / 4096]) < 3
    requires Inv(w) && next % 4096 == 0 && AllocStep(w, m.State(), next / 4096)
    requires Child(w.mem, top / 4096, index) == None
    modifies m.ram, m`tabs
    ensures m.FramesValid() && LinkStep(w, m.State(), top / 4096, index, next / 4096)
  {
    ghost var w1 := m.State();
    TableEntryIsOr(next / 4096);
    StoreEntry(m, top / 4096, index, Or(Or(next, PTE_PRESENT), PTE_WRITABLE));
    m.tabs := m.tabs[next / 4096 := Sub(m.tabs[top / 4096], index)];
    LinkIsStep(w, w1, m.State(), top / 4096, index, next / 4096);
  }

  method IsPresent(entry: Word) returns (present: bool)
    ensures present <==> Present(entry)
  {
    PresentIsMask(entry);
    present := And(entry, PTE_PRESENT) != 0;
  }

  method TargetOf(entry: Word) returns (addr: Word)
    ensures addr % 4096 == 0 && addr / 4096 == FrameOf(entry)
  {
    AddrIsMask(entry);
    addr := And(entry, PTE_ADDR_MASK);
  }

  /** `_get_next_level`: follow entry `index` of a table, creating the next table if absent. */
  method GetNextLevel(m: Machine, top: Word, index: nat) returns (next: Word)
    requires m.FramesValid() && index < 512
    requires top % 4096 == 0 && top / 4096 in m.tabs && Depth(m.tabs[top / 4096]) < 3
    modifies m.ram, m`tabs
    ensures m.FramesValid() && next % 4096 == 0
    ensures LevelStep(old(m.State()), m.State(), top / 4096, index, AsTable(next))
  {
    var t := top / 4096;
    ghost var w := m.State();
    var entry := m.ram[t][index];
    var present := IsPresent(entry);
    if present {
      assert Child(w.mem, t, index) == Some(FrameOf(entry));
      next := TargetOf(entry);
      return;
    }
    next := Pmm.AllocFrame(m);
    if next == 0 {
      return;
    }
    LinkTable(m, top, index, next, w);
  }

  /** The indexes every vmm.c function fetches first. */
  method Indexes(virt: Word) returns (index4: nat, index3: nat, index2: nat, index1: nat)
    ensures index4 == PageOf(virt).i4 && index3 == PageOf(virt).i3
    ensures index2 == PageOf(virt).i2 && index1 == PageOf(virt).i1
  {
    PageOfIsMasks(virt);
    index4 := IndexAt(virt, 39);
    index3 := IndexAt(virt, 30);
    index2 := IndexAt(virt, 21);
    index1 := IndexAt(virt, 12);
  }

  /** The three calls at the head of every vmm.c function; returns the page table or 0. */
  method WalkTo(m: Machine, pml4: Word, virt: Word) returns (pt: Word)
    requires m.FramesValid() && m.IsPml4(pml4)
    modifies m.ram, m`tabs
    ensures m.FramesValid() && pt % 4096 == 0
    ensures WalkDoes(old(m.State()), m.State(), pml4 / 4096, PageOf(virt), AsTable(pt))
  {
    ghost var w, r, p := m.State(), pml4 / 4096, PageOf(virt);
    var index4, index3, index2, _ := Indexes(virt);
    var pml3 := GetNextLevel(m, pml4, index4);
    ghost var w1 := m.State();
    if pml3 == 0 {
      assert Chain(w, w1, w1, w1, r, p, None, None, None);
      return 0;
    }
    LevelStepLabels(w, w1, r, p.i4, AsTable(pml3));
    var pml2 := GetNextLevel(m, pml3, index3);
    ghost var w2 := m.State();
    if pml2 == 0 {
      assert Chain(w, w1, w2, w2, r, p, AsTable(pml3), None, None);
      return 0;
    }
    LevelStepLabels(w1, w2, pml3 / 4096, p.i3, AsTable(pml2));
    pt := GetNextLevel(m, pml2, index2);
    assert Chain(w, w1, w2, m.State(), r, p, AsTable(pml3), AsTable(pml2), AsTable(pt));
  }

  lemma LevelStepLabels(w: World, w': World, t: nat, i: nat, c: Option<nat>)
    requires Inv(w) && t in w.tabs && Depth(w.tabs[t]) < 3 && i < 512 && LevelStep(w, w', t, i, c) && c.Some?
    ensures c.value in w'.tabs && w'.tabs[c.value] == Sub(w.tabs[t], i)
  {
  }

  /** What a walk and the store after it do, seen from the root `cur` in CR3. */
  lemma StoreFacts(w: World, w1: World, w2: World, r: nat, cur: nat, p: Page, t: nat, e: Word)
    requires Inv(w) && IsRoot(w, r) && IsRoot(w, cur)
    requires WalkDoes(w, w1, r, p, Some(t))
    requires w2.mem == w1.mem[t := w1.mem[t][p.i1 := e]]
    requires w2.free == w1.free && w2.tabs == w1.tabs && w2.meta == w1.meta
    ensures Inv(w2) && StoreDoes(w, w2, r, p, e) && WriteStep(w1, w2, t, p.i1, e)
    ensures forall q :: q != p ==> Leaf(w2.mem, cur, q) == Leaf(w.mem, cur, q)
  {
    WalkGrows(w, w1, r, p, Some(t));
    WalkRefines(w, w1, r, p, Some(t));
    TableForLabelled(w1, r, p);
    DepthOfPage(p);
    assert StoreAfter(w1, w2, p, Some(t), e);
    WriteIsExact(w1, w2, r, p, e);
  }

  lemma WalkTarget(w: World, w1: World, r: nat, p: Page, t: nat)
    requires Inv(w) && IsRoot(w, r) && WalkDoes(w, w1, r, p, Some(t))
    ensures t < |w1.mem| && t !in w1.meta
  {
    WalkGrows(w, w1, r, p, Some(t));
    WalkRefines(w, w1, r, p, Some(t));
    TableForLabelled(w1, r, p);
  }

  /** After the walk from world w, store `e` in the page table at virt's index. */
  method StorePage(m: Machine, pt: Word, virt: Word, e: Word, ghost w: World, ghost r: nat)
    requires m.Valid() && Inv(w) && IsRoot(w, r) && IsRoot(w, m.cr3 / 4096)
    requires pt != 0 && WalkDoes(w, m.State(), r, PageOf(virt), AsTable(pt))
    modifies m.ram, m`stale
    ensures m.Valid() && StoreDoes(w, m.State(), r, PageOf(virt), e)
    ensures m.stale == old(m.stale) + {PageOf(virt)}
    ensures WriteStep(old(m.State()), m.State(), pt / 4096, PageOf(virt).i1, e)
    ensures forall q :: q != PageOf(virt) ==> Leaf(m.ram[..], m.cr3 / 4096, q) == Leaf(w.mem, m.cr3 / 4096, q)
  {
    ghost var w1, p := m.State(), PageOf(virt);
    var _, _, _, index1 := Indexes(virt);
    WalkTarget(w, w1, r, p, pt / 4096);
    m.stale := m.stale + {p};
    StoreEntry(m, pt / 4096, index1, e);
    StoreFacts(w, w1, m.State(), r, m.cr3 / 4096, p, pt / 4096, e);
  }

  /** A walk below r, seen from another root. */
  lemma WalkSeen(w: World, w': World, r: nat, p: Page, c: Option<nat>, cur: nat)
    requires Inv(w) && IsRoot(w, r) && IsRoot(w, cur) && WalkDoes(w, w', r, p, c)
    ensures Inv(w') && IsRoot(w', r) && IsRoot(w', cur) && forall q :: Leaf(w'.mem, cur, q) == Leaf(w.mem, cur, q)
  {
    WalkGrows(w, w', r, p, c);
  }

  /** A walk keeps the machine valid and every translation of the current address space. */
  method WalkValid(m: Machine, pml4: Word, virt: Word) returns (pt: Word)
    requires m.Valid() && m.IsPml4(pml4)
    modifies m.ram, m`tabs
    ensures m.Valid() && m.IsPml4(pml4)
    ensures WalkDoes(old(m.State()), m.State(), pml4 / 4096, PageOf(virt), AsTable(pt))
    ensures forall q :: Leaf(m.ram[..], m.cr3 / 4096, q) == Leaf(old(m.ram[..]), m.cr3 / 4096, q)
  {
    ghost var w := m.State();
    pt := WalkTo(m, pml4, virt);
    WalkSeen(w, m.State(), pml4 / 4096, PageOf(virt), AsTable(pt), m.rootPagemap / 4096);
    WalkSeen(w, m.State(), pml4 / 4096, PageOf(virt), AsTable(pt), m.cr3 / 4096);
  }

  /** And the TLB stays coherent, whatever it does meanwhile. */
  method WalkCoherent(m: Machine, pml4: Word, virt: Word) returns (pt: Word)
    requires m.Valid() && m.IsPml4(pml4) && m.Coherent()
    modifies m.ram, m`tabs, m`tlb
    ensures m.Valid() && m.IsPml4(pml4) && m.Coherent()
    ensures IsRoot(old(m.State()), m.cr3 / 4096)
    ensures WalkDoes(old(m.State()), m.State(), pml4 / 4096, PageOf(virt), AsTable(pt))
  {
    pt := WalkValid(m, pml4, virt);
    m.Speculate();
  }

  /** `__tlb_flush_single`: until it is done, virt's page may be cached with its old entry, or
      already with the new one.  At an address that is not canonical it never is done. */
  method FlushPage(m: Machine, virt: Word)
    requires m.Coherent()
    modifies m`tlb, m`stale
    ensures m.Coherent()
    ensures m.stale == if Canonical(virt) then old(m.stale) - {PageOf(virt)} else old(m.stale)
  {
    m.Speculate();
    assert m.Coherent();
    m.Invlpg(virt);
    m.Speculate();
  }

  /** The tail of the storing functions: the store, then `__tlb_flush_single`. */
  method StoreAndFlush(m: Machine, pt: Word, virt: Word, e: Word, ghost w: World, ghost r: nat)
    requires m.Valid() && Inv(w) && IsRoot(w, r) && IsRoot(w, m.cr3 / 4096)
    requires pt != 0 && WalkDoes(w, m.State(), r, PageOf(virt), AsTable(pt))
    requires forall q :: q in m.tlb && q !in m.stale ==> m.tlb[q] == Leaf(w.mem, m.cr3 / 4096, q)
    modifies m.ram, m`tlb, m`stale
    ensures m.Valid() && m.Coherent() && m.stale <= old(m.stale) + Unflushed(virt)
    ensures StoreDoes(w, m.State(), r, PageOf(virt), e)
  {
    StorePage(m, pt, virt, e, w, r);
    FlushPage(m, virt);
  }

  lemma CoherentSince(m: Machine, w: World, r: nat, p: Page, c: Option<nat>)
    requires Inv(w) && IsRoot(w, r) && IsRoot(w, m.cr3 / 4096) && WalkDoes(w, m.State(), r, p, c)
    requires m.Coherent()
    ensures forall q :: q in m.tlb && q !in m.stale ==> m.tlb[q] == Leaf(w.mem, m.cr3 / 4096, q)
  {
    WalkGrows(w, m.State(), r, p, c);
  }

  lemma FailedWalkStores(w: World, w': World, r: nat, p: Page, e: Word)
    requires WalkDoes(w, w', r, p, None)
    ensures StoreDoes(w, w', r, p, e)
  {
  }

  /** The common body of `vmm_map_page` and `vmm_unmap_page`, by its effect on the world. */
  method WalkAndStore(m: Machine, pml4: Word, virt: Word, e: Word)
    requires m.Valid() && m.IsPml4(pml4) && m.Coherent()
    modifies m.ram, m`tabs, m`tlb, m`stale
    ensures m.Valid() && m.IsPml4(pml4) && m.Coherent()
    ensures m.stale <= old(m.stale) + Unflushed(virt)
    ensures StoreDoes(old(m.State()), m.State(), pml4 / 4096, PageOf(virt), e)
  {
    ghost var w, r, p := m.State(), pml4 / 4096, PageOf(virt);
    var pt := WalkCoherent(m, pml4, virt);
    CoherentSince(m, w, r, p, AsTable(pt));
    if pt == 0 {
      FailedWalkStores(w, m.State(), r, p, e);
    } else {
      StoreAndFlush(m, pt, virt, e, w, r);
    }
    StoreIsExact(w, m.State(), r, p, e);
  }

  /** `vmm_map_page` is `Map` on the flat machine, and exact in every other address space. */
  method MapPage(m: Machine, pml4: Word, phys: Word, virt: Word, flags: Word)
    requires m.Valid() && m.IsPml4(pml4) && m.Coherent()
    modifies m.ram, m`tabs, m`tlb, m`stale
    ensures m.Valid() && m.IsPml4(pml4) && m.Coherent()
    ensures m.stale <= old(m.stale) + Unflushed(virt)
    ensures FlatOf(m.State(), pml4 / 4096) == Map(old(FlatOf(m.State(), pml4 / 4096)), PageOf(virt), EntryFor(phys,
              flags))
    ensures Stored(old(m.State()), m.State(), pml4 / 4096, PageOf(virt), EntryFor(phys, flags))
    ensures CallDoes(old(m.State()), Call.MapPage(phys, virt, flags), m.State(), pml4 / 4096, 0)
    ensures TableFor(m.ram[..], pml4 / 4096, PageOf(virt)).Some? ==>
              forall k: nat :: Bit(Leaf(m.ram[..], pml4 / 4096, PageOf(virt)), k) <==> Bit(phys, k) || Bit(flags, k)
  {
    ghost var w, r, p := m.State(), pml4 / 4096, PageOf(virt);
    OrIsWord(phys, flags);
    WalkAndStore(m, pml4, virt, Or(phys, flags));
    StoreRefines(w, m.State(), r, p, EntryFor(phys, flags));
    StoreIsExact(w, m.State(), r, p, EntryFor(phys, flags));
    forall k: nat ensures Bit(EntryFor(phys, flags), k) <==> Bit(phys, k) || Bit(flags, k) {
      EntryBits(phys, flags, k);
    }
  }

  /** `vmm_unmap_page` */
  method UnmapPage(m: Machine, pml4: Word, virt: Word)
    requires m.Valid() && m.IsPml4(pml4) && m.Coherent()
    modifies m.ram, m`tabs, m`tlb, m`stale
    ensures m.Valid() && m.IsPml4(pml4) && m.Coherent()
    ensures m.stale <= old(m.stale) + Unflushed(virt)
    ensures FlatOf(m.State(), pml4 / 4096) == Unmap(old(FlatOf(m.State(), pml4 / 4096)), PageOf(virt))
    ensures Stored(old(m.State()), m.State(), pml4 / 4096, PageOf(virt), 0)
    ensures CallDoes(old(m.State()), Call.UnmapPage(virt), m.State(), pml4 / 4096, 0)
  {
    ghost var w, r, p := m.State(), pml4 / 4096, PageOf(virt);
    WalkAndStore(m, pml4, virt, 0);
    StoreRefines(w, m.State(), r, p, 0);
    StoreIsExact(w, m.State(), r, p, 0);
  }

  method PageAligned(virt: Word) returns (aligned: Word)
    ensures aligned == PageAlign(virt) && PageOf(aligned) == PageOf(virt)
    ensures Unflushed(aligned) == Unflushed(virt)
  {
    AlignKeepsPage(virt);
    aligned := AndNot(virt, PAGE_SIZE - 1);
  }

  /** The entry of virt's page in the page table pt. */
  method LoadEntry(m: Machine, pt: Word, virt: Word) returns (entry: Word)
    requires pt / 4096 < m.ram.Length
    ensures entry == m.ram[..][pt / 4096][PageOf(virt).i1]
  {
    var _, _, _, index1 := Indexes(virt);
    entry := m.ram[pt / 4096][index1];
  }

  /** The body of `vmm_get_phys`, by its effect on the world. */
  method WalkAndLoad(m: Machine, pml4: Word, virt: Word) returns (phys: Word)
    requires m.Valid() && m.IsPml4(pml4) && m.Coherent()
    modifies m.ram, m`tabs, m`tlb
    ensures m.Valid() && m.IsPml4(pml4) && m.Coherent()
    ensures GetPhysDoes(old(m.State()), m.State(), pml4 / 4096, PageOf(virt), phys)
  {
    var aligned := PageAligned(virt);
    ghost var w, r, p := m.State(), pml4 / 4096, PageOf(virt);
    var pt := WalkCoherent(m, pml4, aligned);
    if pt == 0 {
      phys := 0;
    } else {
      WalkTarget(w, m.State(), r, p, pt / 4096);
      var entry := LoadEntry(m, pt, aligned);
      phys := TargetOf(entry);
    }
    assert phys == PhysIn(m.State(), p, AsTable(pt));
  }

  /** `vmm_get_phys` returns the masked leaf and changes no leaf of any root, although its
      walk may create tables. */
  method GetPhysAddr(m: Machine, pml4: Word, virt: Word) returns (phys: Word)
    requires m.Valid() && m.IsPml4(pml4) && m.Coherent()
    modifies m.ram, m`tabs, m`tlb
    ensures m.Valid() && m.IsPml4(pml4) && m.Coherent()
    ensures phys == And(Leaf(old(m.ram[..]), pml4 / 4096, PageOf(virt)), PTE_ADDR_MASK)
    ensures (FlatOf(m.State(), pml4 / 4096), phys) == GetPhys(old(FlatOf(m.State(), pml4 / 4096)), PageOf(virt))
    ensures Grew(old(m.State()), m.State()) && SameLeaves(old(m.State()), m.State())
    ensures CallDoes(old(m.State()), GetPhysOf(virt), m.State(), pml4 / 4096, phys)
  {
    ghost var w, r, p := m.State(), pml4 / 4096, PageOf(virt);
    phys := WalkAndLoad(m, pml4, virt);
    ghost var c: Option<nat> :| WalkDoes(w, m.State(), r, p, c) && phys == PhysIn(m.State(), p, c);
    WalkGrows(w, m.State(), r, p, c);
    GetPhysRefines(w, m.State(), r, p, phys);
    AddrIsMask(Leaf(w.mem, r, p));
  }

  /** `entry & ~(0b111 | PTE_NX)` */
  method ClearFlags(entry: Word) returns (e: Word)
    ensures e == AndNotWord(entry)
  {
    assert Or(7, PTE_NX) == FlagBits() by { Flags.FlagBitsIsOr(63); }
    e := AndNotWord(entry);
  }

  lemma StoreTwice(w: World, w1: World, w2: World, t: nat, i: nat, e1: Word, e2: Word)
    requires WriteStep(w, w1, t, i, e1) && WriteStep(w1, w2, t, i, e2)
    ensures WriteStep(w, w2, t, i, e2)
  {
    assert w1.mem[t][i := e2] == w.mem[t][i := e2];
  }

  /** `page_table[index1] &= ~(0b111 | PTE_NX)`: from here on the page is stale. */
  method StoreCleared(m: Machine, pt: Word, virt: Word, ghost w: World, ghost r: nat)
    requires m.Valid() && Inv(w) && IsRoot(w, r) && IsRoot(w, m.cr3 / 4096)
    requires pt != 0 && WalkDoes(w, m.State(), r, PageOf(virt), AsTable(pt))
    requires forall q :: q in m.tlb && q !in m.stale ==> m.tlb[q] == Leaf(w.mem, m.cr3 / 4096, q)
    modifies m.ram, m`tlb, m`stale
    ensures m.Valid() && m.Coherent() && m.stale == old(m.stale) + {PageOf(virt)} && pt / 4096 < m.ram.Length
    ensures forall q :: q != PageOf(virt) ==> Leaf(m.ram[..], m.cr3 / 4096, q) == Leaf(w.mem, m.cr3 / 4096, q)
    ensures WriteStep(old(m.State()), m.State(), pt / 4096, PageOf(virt).i1, AndNotWord(Leaf(w.mem, r, PageOf(virt))))
  {
    LeafAfterWalk(w, m.State(), r, PageOf(virt), pt / 4096);
    var entry := LoadEntry(m, pt, virt);
    var cleared := ClearFlags(entry);
    StorePage(m, pt, virt, cleared, w, r);
    m.Speculate();
  }

  /** `page_table[index1] |= flags`: with the first store, one store of the new entry. */
  method StoreSet(m: Machine, pt: Word, virt: Word, flags: Word, ghost w: World, ghost w1: World, ghost r: nat)
    requires m.FramesValid() && Inv(w) && IsRoot(w, r) && IsRoot(w, m.cr3 / 4096)
    requires WalkDoes(w, w1, r, PageOf(virt), Some(pt / 4096)) && pt / 4096 < m.ram.Length
    requires WriteStep(w1, m.State(), pt / 4096, PageOf(virt).i1, AndNotWord(Leaf(w.mem, r, PageOf(virt))))
    modifies m.ram
    ensures m.FramesValid()
    ensures StoreDoes(w, m.State(), r, PageOf(virt), WithFlags(Leaf(w.mem, r, PageOf(virt)), flags))
    ensures forall q :: q != PageOf(virt) ==> Leaf(m.ram[..], m.cr3 / 4096, q) == Leaf(w.mem, m.cr3 / 4096, q)
  {
    ghost var w2, p := m.State(), PageOf(virt);
    var entry := LoadEntry(m, pt, virt);
    OrIsWord(entry, flags);
    var _, _, _, index1 := Indexes(virt);
    StoreEntry(m, pt / 4096, index1, Or(entry, flags));
    StoreTwice(w1, w2, m.State(), pt / 4096, p.i1, AndNotWord(Leaf(w.mem, r, p)), Or(entry, flags));
    StoreFacts(w, w1, m.State(), r, m.cr3 / 4096, p, pt / 4096, Or(entry, flags));
  }

  /** The two stores of `vmm_update_flags` and the flush. */
  method StoreFlags(m: Machine, pt: Word, virt: Word, flags: Word, ghost w: World, ghost r: nat)
    requires m.Valid() && Inv(w) && IsRoot(w, r) && IsRoot(w, m.cr3 / 4096)
    requires pt != 0 && WalkDoes(w, m.State(), r, PageOf(virt), AsTable(pt))
    requires forall q :: q in m.tlb && q !in m.stale ==> m.tlb[q] == Leaf(w.mem, m.cr3 / 4096, q)
    modifies m.ram, m`tlb, m`stale
    ensures m.Valid() && m.Coherent() && m.stale <= old(m.stale) + Unflushed(virt)
    ensures StoreDoes(w, m.State(), r, PageOf(virt), WithFlags(Leaf(w.mem, r, PageOf(virt)), flags))
  {
    ghost var w1 := m.State();
    StoreCleared(m, pt, virt, w, r);
    StoreSet(m, pt, virt, flags, w, w1, r);
    FlushPage(m, virt);
  }

  lemma LeafAfterWalk(w: World, w1: World, r: nat, p: Page, t: nat)
    requires Inv(w) && IsRoot(w, r) && WalkDoes(w, w1, r, p, Some(t))
    ensures t < |w1.mem| && w1.mem[t][p.i1] == Leaf(w.mem, r, p)
  {
    WalkGrows(w, w1, r, p, Some(t));
    WalkRefines(w, w1, r, p, Some(t));
    TableForLabelled(w1, r, p);
    assert Leaf(w1.mem, r, p) == Leaf(w.mem, r, p);
  }

  /** `vmm_update_flags` */
  method SetPageFlags(m: Machine, pml4: Word, virt: Word, flags: Word)
    requires m.Valid() && m.IsPml4(pml4) && m.Coherent()
    modifies m.ram, m`tabs, m`tlb, m`stale
    ensures m.Valid() && m.IsPml4(pml4) && m.Coherent()
    ensures m.stale <= old(m.stale) + Unflushed(virt)
    ensures FlatOf(m.State(), pml4 / 4096) == UpdateFlags(old(FlatOf(m.State(), pml4 / 4096)), PageOf(virt), flags)
    ensures Stored(old(m.State()), m.State(), pml4 / 4096, PageOf(virt),
                   WithFlags(Leaf(old(m.ram[..]), pml4 / 4096, PageOf(virt)), flags))
    ensures CallDoes(old(m.State()), SetFlags(virt, flags), m.State(), pml4 / 4096, 0)
    ensures FlagsOnly(flags) ==>
              forall q :: FrameOf(Leaf(m.ram[..], pml4 / 4096, q)) == FrameOf(Leaf(old(m.ram[..]), pml4 / 4096, q))
  {
    ghost var w, r, p := m.State(), pml4 / 4096, PageOf(virt);
    ghost var e := WithFlags(Leaf(w.mem, r, p), flags);
    var pt := WalkCoherent(m, pml4, virt);
    CoherentSince(m, w, r, p, AsTable(pt));
    if pt == 0 {
      FailedWalkStores(w, m.State(), r, p, e);
    } else {
      StoreFlags(m, pt, virt, flags, w, r);
    }
    StoreRefines(w, m.State(), r, p, e);
    StoreIsExact(w, m.State(), r, p, e);
    FramesStay(w, m.State(), r, p, flags);
  }

  lemma FramesStay(w: World, w': World, r: nat, p: Page, flags: Word)
    requires FlatOf(w', r) == UpdateFlags(FlatOf(w, r), p, flags)
    ensures FlagsOnly(flags) ==> forall q :: FrameOf(Leaf(w'.mem, r, q)) == FrameOf(Leaf(w.mem, r, q))
  {
    if FlagsOnly(flags) {
      forall q: Page ensures FrameOf(Leaf(w'.mem, r, q)) == FrameOf(Leaf(w.mem, r, q)) {
        Flags.UpdateFlagsKeepsPhys(FlatOf(w, r), p, flags, q);
        assert FlatOf(w', r).pte[q] == Leaf(w'.mem, r, q);
      }
    }
  }

  // ---- address spaces ------------------------------------------------------------------------

  /** `vmm_init` */
  method Init(m: Machine)
    requires m.FramesValid() && m.IsPml4(m.cr3)
    modifies m`rootPagemap
    ensures m.Valid() && m.rootPagemap == m.cr3
  {
    m.rootPagemap := m.cr3;
  }

  lemma CopyIsFork(w: World, w1: World, w2: World, r: nat, f: nat)
    requires Inv(w) && IsRoot(w, r) && AllocStep(w, w1, f)
    requires w2.mem == w1.mem[f := w1.mem[r]] && w2.free == w1.free
    requires w2.tabs == w.tabs[f := Root] && w2.meta == w.meta
    ensures ForkStep(w, w2, r, f) && Inv(w2)
  {
    ForkKeeps(w, w2, r, f);
  }

  method CopyTable(m: Machine, f: nat, r: nat)
    requires m.bitmapSize % 4096 == 0 && f < m.ram.Length && r < m.ram.Length && f != r
    requires f !in BitmapFrames(m.bitmap, m.bitmapSize)
    modifies m.ram
    ensures m.ram[..] == old(m.ram[..])[f := old(m.ram[..])[r]] && m.State().free == old(m.State().free)
  {
    ghost var w1 := m.State();
    var i := 0;
    while i < 512
      invariant 0 <= i <= 512
      invariant m.ram[..] == w1.mem[f := m.ram[f]] && m.State().free == w1.free
      invariant forall j :: 0 <= j < i ==> m.ram[f][j] == w1.mem[r][j]
    {
      StoreEntry(m, f, i, m.ram[r][i]);
      i := i + 1;
    }
    assert m.ram[f] == w1.mem[r];
  }

  lemma CopyIsLost(w: World, w': World, r: nat)
    requires Inv(w) && IsRoot(w, r) && w.free == {}
    requires w' == World(w.mem[0 := w.mem[r]], w.free, w.tabs, w.meta)
    ensures Inv(w') && ForkDoes(w, w', r, 0) && SameLeaves(w, w')
  {
    DataKeeps(w, w', 0, w.mem[r]);
  }

  /** `vmm_make_pml4`.  The source stores through the new pointer without testing it: without a
      frame the copy goes to frame 0, and no address space changes. */
  method MakePml4(m: Machine) returns (pml4: Word)
    requires m.Valid() && m.Coherent()
    modifies m.ram, m`tabs
    ensures m.Valid() && m.Coherent()
    ensures if old(m.State().free) == {} then pml4 == 0 else m.IsPml4(pml4)
    ensures pml4 != 0 ==> ForkStep(old(m.State()), m.State(), m.rootPagemap / 4096, pml4 / 4096)
    ensures ForkDoes(old(m.State()), m.State(), m.rootPagemap / 4096, pml4)
  {
    ghost var w := m.State();
    pml4 := Pmm.AllocFrame(m);
    if pml4 == 0 {
      CopyToNull(m, w);
    } else {
      AllocKeeps(w, m.State(), pml4 / 4096);
      CopyToFrame(m, pml4, w);
    }
  }

  /** The copying loop with a null pointer. */
  method CopyToNull(m: Machine, ghost w: World)
    requires m.Valid() && m.Coherent() && w == m.State() && w.free == {}
    modifies m.ram
    ensures m.Valid() && m.Coherent() && ForkDoes(w, m.State(), m.rootPagemap / 4096, 0)
  {
    CopyTable(m, 0, m.rootPagemap / 4096);
    CopyIsLost(w, m.State(), m.rootPagemap / 4096);
  }

  /** The copying loop with a frame allocated in world w. */
  method CopyToFrame(m: Machine, pml4: Word, ghost w: World)
    requires m.Valid() && m.Coherent() && Inv(w) && IsRoot(w, m.rootPagemap / 4096)
    requires pml4 % 4096 == 0 && AllocStep(w, m.State(), pml4 / 4096)
    modifies m.ram, m`tabs
    ensures m.Valid() && m.Coherent() && m.IsPml4(pml4)
    ensures ForkStep(w, m.State(), m.rootPagemap / 4096, pml4 / 4096)
    ensures ForkDoes(w, m.State(), m.rootPagemap / 4096, pml4)
  {
    ghost var w1 := m.State();
    var r, f := m.rootPagemap / 4096, pml4 / 4096;
    AllocKeeps(w, w1, f);
    CopyTable(m, f, r);
    m.tabs := m.tabs[f := Root];
    CopyIsFork(w, w1, m.State(), r, f);
    ForkKeeps(w, m.State(), r, f);
  }
}
