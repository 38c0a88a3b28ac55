/** TLB coherence over whole runs on one processor.

    The run is cut into the smallest steps there are: every memory step of the forest, every
    `invlpg`, every CR3 load, and in between, at any time and in any number, the processor
    caching a present entry of the current address space or dropping one. */
module Tlb {
  import opened Words
  import opened Paging
  import opened Forest
  import opened Flat

  /** `stale` holds the pages whose entry has been stored but not yet flushed. */
  datatype Cpu = Cpu(w: World, cr3: nat, tlb: map<Page, Word>, stale: set<Page>)

  datatype Event =
    | Memory(step: Step)
    | Store(t: nat, i: nat, e: Word, page: Page)
    | Invlpg(virt: Word)
    | LoadCr3(r: nat)
    | Fill(page: Page)
    | Evict(page: Page)

  /** At an address that is not canonical invlpg does nothing. */
  ghost predicate Happens(c: Cpu, ev: Event, c': Cpu) {
    match ev
    case Memory(step) =>
      !step.Write? && Does(c.w, step, c'.w) && c' == Cpu(c'.w, c.cr3, c.tlb, c.stale)
    case Store(t, i, e, page) =>
      && WriteStep(c.w, c'.w, t, i, e)
      && c.w.tabs[t] == PathOf(page) && page.i1 == i
      && c' == Cpu(c'.w, c.cr3, c.tlb, c.stale + {page})
    case Invlpg(virt) =>
      if Canonical(virt) then c' == Cpu(c.w, c.cr3, c.tlb - {PageOf(virt)}, c.stale - {PageOf(virt)}) else c' == c
    case LoadCr3(r) =>
      IsRoot(c.w, r) && c' == Cpu(c.w, r, map[], {})
    case Fill(page) =>
      && Present(Leaf(c.w.mem, c.cr3, page))
      && c' == Cpu(c.w, c.cr3, c.tlb[page := Leaf(c.w.mem, c.cr3, page)], c.stale)
    case Evict(page) =>
      c' == Cpu(c.w, c.cr3, c.tlb - {page}, c.stale)
  }

  /** Only pages awaiting their flush may be cached with an outdated entry. */
  ghost predicate Coherent(c: Cpu) {
    && Inv(c.w) && IsRoot(c.w, c.cr3)
    && forall q :: q in c.tlb && q !in c.stale ==> c.tlb[q] == Leaf(c.w.mem, c.cr3, q)
  }

  lemma StoreKeepsOthers(w: World, w': World, r: nat, t: nat, i: nat, e: Word, page: Page, q: Page)
    requires Inv(w) && IsRoot(w, r) && WriteStep(w, w', t, i, e)
    requires w.tabs[t] == PathOf(page) && page.i1 == i && q != page
    ensures Leaf(w'.mem, r, q) == Leaf(w.mem, r, q)
  {
  }

  lemma MemoryKeepsLeaves(w: World, s: Step, w': World, r: nat, q: Page)
    requires Inv(w) && IsRoot(w, r) && Does(w, s, w') && !s.Write?
    ensures Inv(w') && IsRoot(w', r) && Leaf(w'.mem, r, q) == Leaf(w.mem, r, q)
  {
    StepKeeps(w, s, w');
    match s
    case Alloc(f) => AllocKeeps(w, w', f);
    case Link(t, i, f) => LinkKeeps(w, w', t, i, f);
    case Fork(r', f) => ForkKeeps(w, w', r', f);
    case Data(f, content) => DataKeeps(w, w', f, content);
    case Release(f) => FreeKeeps(w, w', f);
  }

  lemma EventKeeps(c: Cpu, ev: Event, c': Cpu)
    requires Coherent(c) && Happens(c, ev, c')
    ensures Coherent(c')
  {
    match ev
    case Memory(step) =>
      StepKeeps(c.w, step, c'.w);
      forall q: Page ensures IsRoot(c'.w, c.cr3) && Leaf(c'.w.mem, c.cr3, q) == Leaf(c.w.mem, c.cr3, q) {
        MemoryKeepsLeaves(c.w, step, c'.w, c.cr3, q);
      }
    case Store(t, i, e, page) =>
      WriteKeeps(c.w, c'.w, t, i, e);
      forall q | q != page ensures Leaf(c'.w.mem, c.cr3, q) == Leaf(c.w.mem, c.cr3, q) {
        StoreKeepsOthers(c.w, c'.w, c.cr3, t, i, e, page, q);
      }
    case Invlpg(virt) =>
    case LoadCr3(r) =>
    case Fill(page) =>
    case Evict(page) =>
  }

  ghost predicate IsCpuRun(cs: seq<Cpu>, evs: seq<Event>) {
    && |cs| == |evs| + 1
    && forall k :: 0 <= k < |evs| ==> Happens(cs[k], evs[k], cs[k + 1])
  }

  /** The TLB theorem: at every point of every run, whichever address space was edited and
      however the processor speculated, a cached entry that is not awaiting its flush is the
      current leaf of its page; so when nothing is awaiting a flush, every one is. */
  lemma {:induction false} RunCoherent(cs: seq<Cpu>, evs: seq<Event>, k: nat)
    requires IsCpuRun(cs, evs) && Coherent(cs[0]) && k < |cs|
    ensures Coherent(cs[k])
    ensures cs[k].stale == {} ==> forall q :: q in cs[k].tlb ==> cs[k].tlb[q] == Leaf(cs[k].w.mem, cs[k].cr3, q)
  {
    if k > 0 {
      RunCoherent(cs, evs, k - 1);
      EventKeeps(cs[k - 1], evs[k - 1], cs[k]);
    }
  }

  // ---- addresses that are not canonical ----------------------------------------------------------

  /** A store and the invlpg after it, as vmm.c pairs them. */
  ghost predicate StoreThenFlush(c: Cpu, c1: Cpu, c2: Cpu, t: nat, i: nat, e: Word, virt: Word) {
    Happens(c, Store(t, i, e, PageOf(virt)), c1) && Happens(c1, Invlpg(virt), c2)
  }

  /** The pair leaves the page awaiting a flush if and only if its address is not canonical. */
  lemma FlushedWhenCanonical(c: Cpu, c1: Cpu, c2: Cpu, t: nat, i: nat, e: Word, virt: Word)
    requires StoreThenFlush(c, c1, c2, t, i, e, virt)
    ensures PageOf(virt) !in c2.stale <==> Canonical(virt)
    ensures c2.stale - {PageOf(virt)} == c.stale - {PageOf(virt)}
  {
  }

  /** Then a page that is cached stays cached with an entry that its table no longer holds. */
  lemma OutdatedEntry(c: Cpu, c1: Cpu, c2: Cpu, t: nat, i: nat, e: Word, virt: Word)
    requires Coherent(c) && StoreThenFlush(c, c1, c2, t, i, e, virt) && !Canonical(virt)
    requires TableFor(c.w.mem, c.cr3, PageOf(virt)) == Some(t)
    requires PageOf(virt) in c.tlb && c.tlb[PageOf(virt)] != e
    ensures PageOf(virt) in c2.tlb && c2.tlb[PageOf(virt)] != Leaf(c2.w.mem, c2.cr3, PageOf(virt))
  {
    WriteKeeps(c.w, c1.w, t, i, e);
  }
}
