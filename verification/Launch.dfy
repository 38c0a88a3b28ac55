/** The address space that `make_process` of sys/src/proc/proc.c builds: a fork of the recorded
    root with the user stack mapped in it, and what that does to the processes already there. */
module Launch {
  import opened Words
  import opened Paging
  import opened Forest
  import opened Flat
  import opened Calls
  import opened Spaces
  import opened Machines
  import opened FlatMmap
  import opened Elf
  import Bitmap
  import Mmap
  import Vmm

  /** PROC_U_STACK_START, and PTE_PRESENT | PTE_WRITABLE | PTE_USER */
  const STACK: Word := 0x1000
  const STACK_FLAGS: Word := 7

  function StackPage(): (p: Page)
    ensures p == PageOf(STACK) && p.i4 == 0
  {
    Page(0, 0, 0, 1)
  }

  function StackEntry(u: nat): Word
    requires u < MAX_FRAMES
  {
    EntryFor(4096 * u, STACK_FLAGS)
  }

  ghost predicate MadeVia(w: World, w1: World, w2: World, w': World, k: nat, b: nat, u: nat) {
    && ForkStep(w, w1, k, b) && AllocStep(w1, w2, u) && u < MAX_FRAMES
    && StoreDoes(w2, w', b, StackPage(), StackEntry(u))
  }

  /** A new root b is copied from k, and a new frame u mapped as its stack. */
  ghost predicate SpaceMade(w: World, w': World, k: nat, b: nat, u: nat) {
    exists w1: World, w2: World :: MadeVia(w, w1, w2, w', k, b, u)
  }

  /** The stack's frame and its mapping in the new root. */
  ghost predicate StackMade(w: World, w': World, b: nat, u: nat) {
    exists w2: World :: AllocStep(w, w2, u) && u < MAX_FRAMES && StoreDoes(w2, w', b, StackPage(), StackEntry(u))
  }

  /** The address-space part of `make_process`, with frames for the root and the stack. */
  method MakeSpace(m: Machine) returns (pml4: Word, stack: Word)
    requires m.Valid() && m.Synced() && |m.State().free| >= 2
    modifies m.ram, m`tabs, m`tlb, m`stale
    ensures m.Valid() && m.IsPml4(pml4) && m.Synced()
    ensures SpaceMade(old(m.State()), m.State(), m.rootPagemap / 4096, pml4 / 4096, stack / 4096)
    ensures TableFor(m.ram[..], pml4 / 4096, PageOf(0x1000)).Some? ==>
              Leaf(m.ram[..], pml4 / 4096, PageOf(0x1000)) == 4096 * (stack / 4096) + 7
  {
    ghost var w := m.State();
    pml4 := MakeRoot(m);
    ghost var w1 := m.State();
    stack := MakeStack(m, pml4);
    MadeInSteps(w, w1, m.State(), m.rootPagemap / 4096, pml4 / 4096, stack / 4096);
    NewStack(w, m.State(), m.rootPagemap / 4096, pml4 / 4096, stack / 4096);
  }

  method MakeRoot(m: Machine) returns (pml4: Word)
    requires m.Valid() && m.Synced() && |m.State().free| >= 2
    modifies m.ram, m`tabs
    ensures m.Valid() && m.IsPml4(pml4) && m.Synced() && m.State().free != {}
    ensures ForkStep(old(m.State()), m.State(), m.rootPagemap / 4096, pml4 / 4096)
  {
    ghost var w := m.State();
    assert w.free != {};
    pml4 := Vmm.MakePml4(m);
    OneLeft(w, m.State(), m.rootPagemap / 4096, pml4 / 4096);
  }

  lemma OneLeft(w: World, w1: World, k: nat, b: nat)
    requires ForkStep(w, w1, k, b) && |w.free| >= 2
    ensures w1.free != {}
  {
    assert |w1.free| == |w.free| - 1;
  }

  method MakeStack(m: Machine, pml4: Word) returns (stack: Word)
    requires m.Valid() && m.IsPml4(pml4) && m.Synced() && m.State().free != {}
    modifies m.ram, m`tabs, m`tlb, m`stale
    ensures m.Valid() && m.IsPml4(pml4) && m.Synced()
    ensures StackMade(old(m.State()), m.State(), pml4 / 4096, stack / 4096)
  {
    ghost var w := m.State();
    stack := Mmap.AllocForMap(m, pml4);
    ghost var w2 := m.State();
    OrIsWord(stack, STACK_FLAGS);
    Vmm.WalkAndStore(m, pml4, STACK, Or(stack, STACK_FLAGS));
    IsStackMade(w, w2, m.State(), pml4 / 4096, stack);
  }

  lemma IsStackMade(w: World, w2: World, w': World, b: nat, stack: Word)
    requires Inv(w) && stack % 4096 == 0 && AllocStep(w, w2, stack / 4096)
    requires StoreDoes(w2, w', b, PageOf(STACK), EntryFor(stack, STACK_FLAGS))
    ensures StackMade(w, w', b, stack / 4096)
  {
    assert stack == 4096 * (stack / 4096);
  }

  lemma MadeInSteps(w: World, w1: World, w': World, k: nat, b: nat, u: nat)
    requires ForkStep(w, w1, k, b) && StackMade(w1, w', b, u)
    ensures SpaceMade(w, w', k, b, u)
  {
    var w2: World :| AllocStep(w1, w2, u) && StoreDoes(w2, w', b, StackPage(), StackEntry(u));
    assert MadeVia(w, w1, w2, w', k, b, u);
  }

  /** When its table exists, the page of address 0x1000 of the new root leads to the stack's frame,
      which was free, and is present, writable and open to the user. */
  lemma NewStack(w: World, w': World, k: nat, b: nat, u: nat)
    requires Inv(w) && SpaceMade(w, w', k, b, u)
    ensures b in w.free && u in w.free && u != b
    ensures TableFor(w'.mem, b, PageOf(0x1000)).Some? ==> Leaf(w'.mem, b, PageOf(0x1000)) == 4096 * u + 7
  {
    var w1: World, w2: World :| MadeVia(w, w1, w2, w', k, b, u);
    ForkKeeps(w, w1, k, b);
    AllocKeeps(w1, w2, u);
    StoredEntry(w2, w', b, StackPage(), StackEntry(u));
    StackEntryIs(u);
  }

  lemma StoredEntry(w: World, w': World, r: nat, p: Page, e: Word)
    requires Inv(w) && IsRoot(w, r) && StoreDoes(w, w', r, p, e)
    ensures TableFor(w'.mem, r, p).Some? ==> Leaf(w'.mem, r, p) == e
  {
    StoreIsExact(w, w', r, p, e);
  }

  lemma StackEntryIs(u: nat)
    requires u < MAX_FRAMES
    ensures StackEntry(u) == 4096 * u + 7
  {
    Mmap.EntryIsSum(u, 0, 7, 63, 12);
  }

  // ---- an earlier process ------------------------------------------------------------------------

  /** The new root shares a slot with an earlier one exactly if the recorded root does, and with
      the recorded root itself exactly the slots that are present. */
  ghost predicate SharesLike(w: World, k: nat, a: nat, i: nat) {
    if a == k then Child(w.mem, k, i).Some? else Shares(w, a, k, i)
  }

  lemma ForkSharesLike(w: World, w1: World, k: nat, b: nat, a: nat, p: Page)
    requires Inv(w) && ForkStep(w, w1, k, b) && IsRoot(w, a)
    ensures IsRoot(w1, a) && IsRoot(w1, b) && a != b && Inv(w1)
    ensures Shares(w1, b, a, p.i4) <==> SharesLike(w, k, a, p.i4)
    ensures Leaf(w1.mem, a, p) == Leaf(w.mem, a, p)
  {
    ForkKeeps(w, w1, k, b);
    assert Child(w1.mem, a, p.i4) == Child(w.mem, a, p.i4);
  }

  lemma StackEntryFrame(u: nat)
    requires u < MAX_FRAMES
    ensures FrameOf(StackEntry(u)) == u
  {
    LeafEntry(u, STACK_FLAGS);
  }

  /** Storing an entry for b's page p moves process a's exactly if they share the slot. */
  lemma StoreMoves(w: World, w': World, a: nat, b: nat, p: Page, e: Word)
    requires Inv(w) && IsRoot(w, a) && IsRoot(w, b) && a != b
    requires StoreDoes(w, w', b, p, e) && TableFor(w'.mem, b, p).Some? && Leaf(w.mem, a, p) != e
    ensures Leaf(w'.mem, a, p) == Leaf(w.mem, a, p) <==> !Shares(w, b, a, p.i4)
  {
    StoreIsExact(w, w', b, p, e);
    StoreSameSharing(w, w', b, p, e);
    assert Child(w'.mem, b, p.i4).Some?;
    assert Shares(w', b, a, p.i4) <==> Shares(w, b, a, p.i4);
  }

  lemma LaunchAgain(w: World, w': World, k: nat, b: nat, u: nat, a: nat)
    requires Inv(w) && IsRoot(w, a) && a != k && SpaceMade(w, w', k, b, u)
    requires TableFor(w'.mem, b, StackPage()).Some? && FrameOf(Leaf(w.mem, a, StackPage())) !in w.free
    ensures Leaf(w'.mem, a, StackPage()) == Leaf(w.mem, a, StackPage()) <==> !Shares(w, a, k, 0)
  {
    var w1: World, w2: World :| MadeVia(w, w1, w2, w', k, b, u);
    ForkSharesLike(w, w1, k, b, a, StackPage());
    AllocKeeps(w1, w2, u);
    StepSameSharing(w1, Alloc(u), w2);
    assert Shares(w2, b, a, 0) <==> Shares(w1, b, a, 0);
    StackEntryFrame(u);
    StoreMoves(w2, w', a, b, StackPage(), StackEntry(u));
  }

  /** Process a was forked from root k; after any run another process is launched from k.  Then
      a's stack page still leads to a's stack if and only if slot 0 was absent from k when a was
      forked.  When it is present, as the kernel's own accesses through identity addresses need
      it to be, the new process's stack frame takes the place of a's. */
  lemma EarlierStack(w: World, k: nat, a: nat, ws: seq<World>, steps: seq<Step>, w': World, b: nat, u: nat)
    requires Inv(w) && IsRun(ws, steps) && ForkStep(w, ws[0], k, a)
    requires SpaceMade(ws[|steps|], w', k, b, u) && TableFor(w'.mem, b, StackPage()).Some?
    requires FrameOf(Leaf(ws[|steps|].mem, a, StackPage())) !in ws[|steps|].free
    ensures Leaf(w'.mem, a, StackPage()) == Leaf(ws[|steps|].mem, a, StackPage()) <==> Child(w.mem, k, 0) == None
  {
    ForkKeeps(w, ws[0], k, a);
    PrefixKeeps(ws, steps, |steps|);
    SharingIsFixed(ws, steps, a, k, 0);
    LaunchAgain(ws[|steps|], w', k, b, u, a);
  }

  /** With slot 0 present when a was forked, a's stack page leads to b's stack frame. */
  lemma StackTaken(w: World, k: nat, a: nat, ws: seq<World>, steps: seq<Step>, w': World, b: nat, u: nat)
    requires Inv(w) && IsRun(ws, steps) && ForkStep(w, ws[0], k, a) && Child(w.mem, k, 0).Some?
    requires SpaceMade(ws[|steps|], w', k, b, u) && TableFor(w'.mem, b, StackPage()).Some?
    ensures u < MAX_FRAMES && Leaf(w'.mem, a, StackPage()) == Leaf(w'.mem, b, StackPage()) == StackEntry(u)
  {
    ForkKeeps(w, ws[0], k, a);
    PrefixKeeps(ws, steps, |steps|);
    SharingIsFixed(ws, steps, a, k, 0);
    var last := ws[|steps|];
    var w1: World, w2: World :| MadeVia(last, w1, w2, w', k, b, u);
    ForkSharesLike(last, w1, k, b, a, StackPage());
    AllocKeeps(w1, w2, u);
    StepSameSharing(w1, Alloc(u), w2);
    assert Shares(w2, b, a, 0) <==> Shares(w1, b, a, 0);
    SharedSlotStored(w2, w', a, b, StackPage(), StackEntry(u));
  }

  lemma SharedSlotStored(w: World, w': World, a: nat, b: nat, p: Page, e: Word)
    requires Inv(w) && IsRoot(w, a) && IsRoot(w, b) && a != b && Shares(w, b, a, p.i4)
    requires StoreDoes(w, w', b, p, e) && TableFor(w'.mem, b, p).Some?
    ensures Leaf(w'.mem, a, p) == Leaf(w'.mem, b, p) == e
  {
    StoreIsExact(w, w', b, p, e);
    StoreSameSharing(w, w', b, p, e);
    assert Shares(w', b, a, p.i4) <==> Shares(w, b, a, p.i4);
    SharedLeaf(w', b, a, p);
  }

  // ---- the image of the new process ----------------------------------------------------------------

  /** The recorded root k decides which slots the new root b has in common with any root c. */
  lemma MadeShares(w: World, w1: World, k: nat, b: nat, u: nat, c: nat, p: Page)
    requires Inv(w) && IsRoot(w, c) && SpaceMade(w, w1, k, b, u)
    ensures Inv(w1) && IsRoot(w1, c) && IsRoot(w1, b) && b != c
    ensures Shares(w1, c, b, p.i4) <==> SharesLike(w, k, c, p.i4)
  {
    var wf: World, wa: World :| MadeVia(w, wf, wa, w1, k, b, u);
    ForkSharesLike(w, wf, k, b, c, p);
    AllocKeeps(wf, wa, u);
    StepSameSharing(wf, Alloc(u), wa);
    StoreSameSharing(wa, w1, b, StackPage(), StackEntry(u));
    assert Shares(wa, b, c, p.i4) <==> Shares(wf, b, c, p.i4);
    assert Shares(w1, b, c, p.i4) <==> Shares(wa, b, c, p.i4);
  }

  /** What root b sees at address v of an image loaded through root c, w1 and w2 being the worlds
      before and after loading. */
  ghost predicate SeenFrom(w1: World, w2: World, c: nat, b: nat, v: nat, x: Bitmap.Byte) {
    var p := PageAtAddr(v);
    && (Shares(w1, c, b, p.i4) ==> Reads(w2, b, v, x))
    && (!Shares(w1, c, b, p.i4) ==> Leaf(w2.mem, b, p) == Leaf(w1.mem, b, p))
  }

  lemma SharedReads(w1: World, w2: World, c: nat, b: nat, v: nat, x: Bitmap.Byte)
    requires IsRoot(w1, c) && IsRoot(w1, b) && b != c && SparesApart(w1, w2, c) && Reads(w2, c, v, x)
    ensures SeenFrom(w1, w2, c, b, v, x)
  {
    var p := PageAtAddr(v);
    if Shares(w1, c, b, p.i4) {
      SharedLeaf(w2, c, b, p);
    } else {
      assert SameAt(w1, w2, b, p);
    }
  }

  /** The program that `elf_load` puts in place through the old address space c is there for the
      new process b, at an address it had not mapped, if and only if the slot of the address was
      common to c and the recorded root k when b was forked. */
  lemma ImageReaches(w: World, w1: World, w2: World, k: nat, b: nat, u: nat, c: nat,
                     file: seq<Bitmap.Byte>, segs: seq<Phdr>, n: nat, v: nat)
    requires Inv(w) && IsRoot(w, c) && Launched(w, w1, w2, c, k, b, u, file, segs)
    requires n == |segs| && ImageAt(file, segs, n, v).Some?
    requires !Present(Leaf(w1.mem, b, PageAtAddr(v)))
    ensures Reads(w2, b, v, ImageAt(file, segs, n, v).value) <==> SharesLike(w, k, c, PageAtAddr(v).i4)
  {
    MadeShares(w, w1, k, b, u, c, PageAtAddr(v));
    assert ImagedAt(w2, c, file, segs, n, v);
    SharedReads(w1, w2, c, b, v, ImageAt(file, segs, n, v).value);
  }

  // ---- frames for a launch -------------------------------------------------------------------------

  lemma SpaceCost(w: World, w1: World, k: nat, b: nat, u: nat)
    requires Inv(w) && SpaceMade(w, w1, k, b, u)
    ensures Inv(w1) && |w1.free| + 5 >= |w.free|
  {
    var wf: World, wa: World :| MadeVia(w, wf, wa, w1, k, b, u);
    ForkKeeps(w, wf, k, b);
    AllocKeeps(wf, wa, u);
    assert |wf.free| == |w.free| - 1 && |wa.free| == |wf.free| - 1;
    StoreCost(wa, w1, b, StackPage(), StackEntry(u));
  }

  lemma StoreCost(w: World, w': World, r: nat, p: Page, e: Word)
    requires Inv(w) && IsRoot(w, r) && StoreDoes(w, w', r, p, e)
    ensures Inv(w') && |w'.free| + 3 >= |w.free|
  {
    StoreRefines(w, w', r, p, e);
    WalkCost(FlatOf(w, r), p);
  }

  lemma FramesLeft(m: Machine, w: World, k: nat, b: nat, u: nat, segs: seq<Phdr>)
    requires m.Valid() && Inv(w) && SpaceMade(w, m.State(), k, b, u) && 5 + Need(segs) <= |w.free|
    ensures HasFrames(m, segs)
  {
    SpaceCost(w, m.State(), k, b, u);
    Mmap.InvBounded(m.State(), m.cr3 / 4096);
    EnoughFrames(FlatOf(m.State(), m.cr3 / 4096), segs);
  }

  /** An accepted file with these program headers and this entry point. */
  ghost predicate IsProgram(file: seq<Bitmap.Byte>, segs: seq<Phdr>, start: nat) {
    Accepted(Some(file)) && Loadable(file) && segs == Phdrs(file) && start == Entry(file)
  }

  /** A launch from world w in address space c: a new space b, forked from k, in world w1, and then
      the program loaded through c, in world w2. */
  ghost predicate Launched(w: World, w1: World, w2: World, c: nat, k: nat, b: nat, u: nat,
                           file: seq<Bitmap.Byte>, segs: seq<Phdr>)
  {
    && SpaceMade(w, w1, k, b, u) && SparesApart(w1, w2, c)
    && Imaged(w2, c, file, segs, |segs|)
  }

  /** The program is loaded in the current address space, and then CR3. */
  method LoadAndSwitch(m: Machine, file: seq<Bitmap.Byte>, pml4: Word, ghost segs: seq<Phdr>, ghost start: nat,
                       ghost w: World, ghost w1: World, ghost c: nat, ghost k: nat, ghost u: nat)
    returns (entry: Word)
    requires m.Valid() && m.Synced() && m.IsPml4(pml4) && IsProgram(file, segs, start) && HasFrames(m, segs)
    requires w1 == m.State() && c == m.cr3 / 4096 && SpaceMade(w, w1, k, pml4 / 4096, u)
    modifies m.ram, m`tabs, m`tlb, m`stale, m`cr3
    ensures m.Valid() && m.Synced() && m.cr3 == pml4 && entry == start
    ensures Launched(w, w1, m.State(), c, k, pml4 / 4096, u, file, segs)
  {
    assert IsRoot(w1, pml4 / 4096);
    entry := ElfLoad(m, Some(file));
    assert IsRoot(m.State(), pml4 / 4096);
    m.LoadCr3(pml4);
  }

  /** A new address space, with frames left for these segments. */
  method MakeSpaceFor(m: Machine, ghost segs: seq<Phdr>) returns (pml4: Word, stack: Word)
    requires m.Valid() && m.Synced() && 5 + Need(segs) <= |m.State().free|
    modifies m.ram, m`tabs, m`tlb, m`stale
    ensures m.Valid() && m.Synced() && m.IsPml4(pml4) && HasFrames(m, segs)
    ensures SpaceMade(old(m.State()), m.State(), m.rootPagemap / 4096, pml4 / 4096, stack / 4096)
  {
    ghost var w := m.State();
    pml4, stack := MakeSpace(m);
    FramesLeft(m, w, m.rootPagemap / 4096, pml4 / 4096, stack / 4096, segs);
  }

  /** The memory side of `launch_exec`, in world w and address space c with recorded root k: a new
      address space, the program loaded through the old one, and then CR3.  w1 is the world between
      the first two. */
  method LaunchProgram(m: Machine, file: seq<Bitmap.Byte>, ghost segs: seq<Phdr>, ghost start: nat,
                       ghost w: World, ghost c: nat, ghost k: nat)
    returns (entry: Word, pml4: Word, stack: Word, ghost w1: World)
    requires m.Valid() && m.Synced() && IsProgram(file, segs, start) && 5 + Need(segs) <= |w.free|
    requires w == m.State() && c == m.cr3 / 4096 && k == m.rootPagemap / 4096
    modifies m.ram, m`tabs, m`tlb, m`stale, m`cr3
    ensures m.Valid() && m.Synced() && m.cr3 == pml4 && entry == start
    ensures Launched(w, w1, m.State(), c, k, pml4 / 4096, stack / 4096, file, segs)
  {
    pml4, stack := MakeSpaceFor(m, segs);
    w1 := m.State();
    entry := LoadAndSwitch(m, file, pml4, segs, start, w, w1, c, k, stack / 4096);
  }
}
