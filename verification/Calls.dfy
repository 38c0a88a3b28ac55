/** The calls of vmm.c, and what other users of the frame allocator and of data frames do in
    between, each seen as a call on the flat machine of the root it is made for. */
module Calls {
  import opened Words
  import opened Paging
  import opened Forest
  import opened Flat

  datatype Call =
    | MapPage(phys: Word, virt: Word, flags: Word)
    | UnmapPage(virt: Word)
    | GetPhysOf(virt: Word)
    | SetFlags(virt: Word, flags: Word)
    | TakeFrame
    | GiveFrame(f: nat)
    | UseFrame(f: nat, content: Frame)

  function EntryFor(phys: Word, flags: Word): Word {
    OrIsWord(phys, flags);
    Or(phys, flags)
  }

  /** `phys | flags`: every bit of the entry is one of phys or one of flags. */
  lemma EntryBits(phys: Word, flags: Word, k: nat)
    ensures Bit(EntryFor(phys, flags), k) <==> Bit(phys, k) || Bit(flags, k)
  {
    OrBits(phys, flags, k);
  }

  /** What `vmm_get_phys` returns after a walk that ended at page table c. */
  function PhysIn(w: World, p: Page, c: Option<nat>): Word {
    if c.Some? && c.value < |w.mem| then 4096 * FrameOf(w.mem[c.value][p.i1]) else 0
  }

  ghost predicate GetPhysDoes(w: World, w': World, r: nat, p: Page, result: Word) {
    exists c: Option<nat> :: WalkDoes(w, w', r, p, c) && result == PhysIn(w', p, c)
  }

  /** The effect of one call on the machine, root r being the address space it is made for. */
  ghost predicate CallDoes(w: World, call: Call, w': World, r: nat, result: Word) {
    match call
    case MapPage(phys, virt, flags) =>
      StoreDoes(w, w', r, PageOf(virt), EntryFor(phys, flags)) && result == 0
    case UnmapPage(virt) =>
      StoreDoes(w, w', r, PageOf(virt), 0) && result == 0
    case GetPhysOf(virt) =>
      GetPhysDoes(w, w', r, PageOf(virt), result)
    case SetFlags(virt, flags) =>
      StoreDoes(w, w', r, PageOf(virt), WithFlags(Leaf(w.mem, r, PageOf(virt)), flags)) && result == 0
    case TakeFrame =>
      (if w.free == {} then w' == w && result == 0
       else exists f: nat :: AllocStep(w, w', f) && result == 4096 * f)
    case GiveFrame(f) => FreeStep(w, w', f) && result == 0
    case UseFrame(f, content) => DataStep(w, w', f, content) && result == 0
  }

  /** The same call on the flat machine. */
  ghost function FlatCall(a: Flat, call: Call): (Flat, Word)
    requires Total(a)
  {
    match call
    case MapPage(phys, virt, flags) => (Map(a, PageOf(virt), EntryFor(phys, flags)), 0)
    case UnmapPage(virt) => (Unmap(a, PageOf(virt)), 0)
    case GetPhysOf(virt) => GetPhys(a, PageOf(virt))
    case SetFlags(virt, flags) => (UpdateFlags(a, PageOf(virt), flags), 0)
    case TakeFrame =>
      if a.free == {} || Min(a.free) >= MAX_FRAMES then (a, 0)
      else (Flat(a.pte, a.tables, a.free - {Min(a.free)}), 4096 * Min(a.free))
    case GiveFrame(f) => (Flat(a.pte, a.tables, a.free + {f}), 0)
    case UseFrame(_, _) => (a, 0)
  }

  lemma PhysRefines(w: World, w': World, r: nat, p: Page, c: Option<nat>)
    requires Inv(w) && IsRoot(w, r) && WalkDoes(w, w', r, p, c)
    ensures Inv(w') && IsRoot(w', r)
    ensures PhysIn(w', p, c) == 4096 * FrameOf(Leaf(w.mem, r, p))
  {
    WalkGrows(w, w', r, p, c);
    assert TableFor(w'.mem, r, p) == c by { WalkRefines(w, w', r, p, c); }
    assert Leaf(w'.mem, r, p) == Leaf(w.mem, r, p);
  }

  lemma GetPhysRefines(w: World, w': World, r: nat, p: Page, result: Word)
    requires Inv(w) && IsRoot(w, r) && GetPhysDoes(w, w', r, p, result)
    ensures Inv(w') && IsRoot(w', r)
    ensures (FlatOf(w', r), result) == GetPhys(FlatOf(w, r), p)
  {
    var c: Option<nat> :| WalkDoes(w, w', r, p, c) && result == PhysIn(w', p, c);
    PhysRefines(w, w', r, p, c);
    WalkRefines(w, w', r, p, c);
    assert FlatOf(w, r).pte[p] == Leaf(w.mem, r, p);
  }

  lemma SameTablesAt(w: World, mem': seq<Frame>, r: nat)
    requires Inv(w) && IsRoot(w, r) && |mem'| == |w.mem|
    requires forall t :: t in w.tabs ==> mem'[t] == w.mem[t]
    ensures forall q :: Depth(q) <= 3 ==> TableAt(mem', r, q) == TableAt(w.mem, r, q)
  {
    forall q | Depth(q) <= 3 ensures TableAt(mem', r, q) == TableAt(w.mem, r, q) {
      SameTableAt(w, mem', r, q);
    }
  }

  lemma {:induction false} SameTableAt(w: World, mem': seq<Frame>, r: nat, q: Path)
    requires Inv(w) && IsRoot(w, r) && |mem'| == |w.mem| && Depth(q) <= 3
    requires forall t :: t in w.tabs ==> mem'[t] == w.mem[t]
    ensures TableAt(mem', r, q) == TableAt(w.mem, r, q)
  {
    if q.Sub? {
      SameTableAt(w, mem', r, q.up);
      TableAtLabelled(w, r, q.up);
    }
  }

  /** Steps that touch no table leave the flat machine's entries and tables alone. */
  lemma QuietRefines(w: World, w': World, r: nat)
    requires Inv(w) && IsRoot(w, r) && |w'.mem| == |w.mem|
    requires forall t :: t in w.tabs ==> w'.mem[t] == w.mem[t]
    ensures FlatOf(w', r).pte == FlatOf(w, r).pte && FlatOf(w', r).tables == FlatOf(w, r).tables
  {
    forall p: Page ensures Leaf(w'.mem, r, p) == Leaf(w.mem, r, p) {
      SameTables(w, w'.mem, r, p);
    }
    SameTablesAt(w, w'.mem, r);
    assert FlatOf(w', r).tables == FlatOf(w, r).tables;
  }

  lemma TakeRefines(w: World, w': World, r: nat, f: nat)
    requires Inv(w) && IsRoot(w, r) && AllocStep(w, w', f)
    ensures Inv(w') && IsRoot(w', r) && f < MAX_FRAMES && w.free != {} && Min(w.free) == f
    ensures FlatOf(w', r) == Flat(FlatOf(w, r).pte, FlatOf(w, r).tables, w.free - {f})
  {
    AllocKeeps(w, w', f);
    QuietRefines(w, w', r);
  }

  /** Every call commutes with reading the root as a flat machine. */
  lemma CallRefines(w: World, call: Call, w': World, r: nat, result: Word)
    requires Inv(w) && IsRoot(w, r) && CallDoes(w, call, w', r, result)
    ensures Inv(w') && IsRoot(w', r)
    ensures (FlatOf(w', r), result) == FlatCall(FlatOf(w, r), call)
  {
    match call
    case MapPage(phys, virt, flags) => StoreRefines(w, w', r, PageOf(virt), EntryFor(phys, flags));
    case UnmapPage(virt) => StoreRefines(w, w', r, PageOf(virt), 0);
    case GetPhysOf(virt) => GetPhysRefines(w, w', r, PageOf(virt), result);
    case SetFlags(virt, flags) =>
      StoreRefines(w, w', r, PageOf(virt), WithFlags(Leaf(w.mem, r, PageOf(virt)), flags));
    case TakeFrame =>
      if w.free != {} {
        var f: nat :| AllocStep(w, w', f) && result == 4096 * f;
        TakeRefines(w, w', r, f);
      }
    case GiveFrame(f) => FreeKeeps(w, w', f); QuietRefines(w, w', r);
    case UseFrame(f, content) => DataKeeps(w, w', f, content); QuietRefines(w, w', r);
  }

  lemma FlatCallTotal(a: Flat, call: Call)
    requires Total(a)
    ensures Total(FlatCall(a, call).0)
  {
  }
}
