/** sys/src/kmain.c: `pmm_init` and then `vmm_init`, from which every run of the memory manager
    starts. */
module Boot {
  import opened Words
  import opened Paging
  import opened Forest
  import opened Flat
  import opened Machines
  import PmmInit
  import Vmm

  /** The boot loader's page tables keep their contents, so every address translates as before. */
  lemma BootLeaves(mem: seq<Frame>, mem': seq<Frame>, tabs: map<nat, Path>, r: nat, p: Page)
    requires Inv(World(mem, {}, tabs, {})) && r in tabs && tabs[r] == Root
    requires |mem'| == |mem| && forall t :: t in tabs ==> mem'[t] == mem[t]
    ensures Leaf(mem', r, p) == Leaf(mem, r, p)
  {
    SameTables(World(mem, {}, tabs, {}), mem', r, p);
  }

  lemma AllBootLeaves(mem: seq<Frame>, mem': seq<Frame>, tabs: map<nat, Path>)
    requires Inv(World(mem, {}, tabs, {}))
    requires |mem'| == |mem| && forall t :: t in tabs ==> mem'[t] == mem[t]
    ensures forall r, p :: r in tabs && tabs[r] == Root ==> Leaf(mem', r, p) == Leaf(mem, r, p)
  {
    forall r, p | r in tabs && tabs[r] == Root ensures Leaf(mem', r, p) == Leaf(mem, r, p) {
      BootLeaves(mem, mem', tabs, r, p);
    }
  }

  /** The boot theorem: if the tables that CR3 leads to at boot form a forest outside usable
      memory, the machine is valid afterwards, with these tables, the same translations, and
      exactly the usable frames free that do not hold the bitmap. */
  method Start(m: Machine, entries: array<PmmInit.Entry>)
    requires PmmInit.GoodBoot(m.ram[..], m.tabs, entries[..]) && m.IsPml4(m.cr3) && m.Synced()
    modifies m`bitmap, m`bitmapSize, m`rootPagemap, m.ram, entries
    ensures m.Valid() && m.Synced() && m.rootPagemap == m.cr3
    ensures forall r, p :: r in m.tabs && m.tabs[r] == Root ==> Leaf(m.ram[..], r, p) == Leaf(old(m.ram[..]), r, p)
    ensures PmmInit.BitsRight(m.ram[..], m.bitmap, m.bitmapSize, old(entries[..]))
  {
    ghost var before := m.ram[..];
    PmmInit.Init(m, entries);
    AllBootLeaves(before, m.ram[..], m.tabs);
    Vmm.Init(m);
  }
}
