/** The machine the kernel runs on: physical memory as an array of frames, the control
    register CR3, the TLB, and the kernel's own global variables. */
module Machines {
  import opened Words
  import opened Paging
  import opened Forest
  import opened Bitmap

  /** What a store for the page of virt leaves unflushed. */
  function Unflushed(virt: Word): set<Page> {
    if Canonical(virt) then {} else {PageOf(virt)}
  }

  class Machine {
    const ram: array<Frame>

    /** pmm.c: first frame of the bitmap, and its size in bytes. */
    var bitmap: nat
    var bitmapSize: nat

    /** The address of the current PML4, and the one `vmm_init` recorded. */
    var cr3: Word
    var rootPagemap: Word

    /** Where each page table hangs, and what the TLB has cached. */
    ghost var tabs: map<nat, Path>
    ghost var tlb: map<Page, Word>

    /** Pages whose entry has been stored but not flushed. */
    ghost var stale: set<Page>

    constructor (ram: array<Frame>)
      ensures this.ram == ram && bitmap == 0 && bitmapSize == 0 && tabs == map[]
      ensures tlb == map[] && stale == {}
    {
      this.ram := ram;
      bitmap, bitmapSize, cr3, rootPagemap := 0, 0, 0, 0;
      tabs, tlb, stale := map[], map[], {};
    }

    ghost function State(): World
      reads this`bitmap, this`bitmapSize, this`tabs, ram
    {
      World(ram[..], Clear(ram[..], bitmap, bitmapSize), tabs, BitmapFrames(bitmap, bitmapSize))
    }

    /** The bitmap lies in memory, and frames are placed as the forest invariant asks. */
    ghost predicate FramesValid()
      reads this`bitmap, this`bitmapSize, this`tabs, ram
    {
      && bitmapSize % 4096 == 0
      && bitmap + bitmapSize / 4096 <= ram.Length
      && Inv(State())
    }

    ghost predicate IsPml4(addr: Word)
      reads this`tabs
    {
      addr % 4096 == 0 && addr / 4096 in tabs && tabs[addr / 4096] == Root
    }

    ghost predicate Valid()
      reads this`bitmap, this`bitmapSize, this`tabs, this`cr3, this`rootPagemap, ram
    {
      FramesValid() && IsPml4(cr3) && IsPml4(rootPagemap)
    }

    // ---- the TLB ---------------------------------------------------------------------------

    /** Every cached entry that is not awaiting its flush is the current root's leaf. */
    ghost predicate Coherent()
      reads this`tlb, this`stale, this`cr3, ram
    {
      forall q :: q in tlb && q !in stale ==> tlb[q] == Leaf(ram[..], cr3 / 4096, q)
    }

    /** No entry is awaiting its flush, so every cached one is the current root's leaf. */
    ghost predicate Synced()
      reads this`tlb, this`stale, this`cr3, ram
    {
      Coherent() && stale == {}
    }

    /** Anything the processor may do to the TLB by itself: drop entries, and cache pages
        that are present under the current root. */
    ghost method Speculate()
      modifies this`tlb
      ensures old(Coherent()) ==> Coherent()
    {
      var t: map<Page, Word> :|
        forall q :: q in t ==>
                || (q in tlb && t[q] == tlb[q])
                || (Present(Leaf(ram[..], cr3 / 4096, q)) && t[q] == Leaf(ram[..], cr3 / 4096, q));
      tlb := t;
    }

    /** `invlpg` drops the page of virt; at an address that is not canonical it does nothing. */
    ghost method Invlpg(virt: Word)
      modifies this`tlb, this`stale
      ensures tlb == if Canonical(virt) then old(tlb) - {PageOf(virt)} else old(tlb)
      ensures stale == if Canonical(virt) then old(stale) - {PageOf(virt)} else old(stale)
    {
      if Canonical(virt) {
        tlb, stale := tlb - {PageOf(virt)}, stale - {PageOf(virt)};
      }
    }

    /** Loading CR3 drops every entry. */
    method LoadCr3(value: Word)
      requires FramesValid() && IsPml4(value) && IsPml4(rootPagemap)
      modifies this`cr3, this`tlb, this`stale
      ensures Valid() && cr3 == value && State() == old(State())
      ensures Synced()
    {
      cr3 := value;
      tlb, stale := map[], {};
      Speculate();
    }
  }
}
