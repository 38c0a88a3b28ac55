/** The page tables of all address spaces as one forest in physical memory.

    Physical memory is a sequence of 512-word frames.  A `World` adds to it what the two
    allocator layers know about frames: the free set, the frames holding the allocation
    bitmap, and for every page table the index path at which it hangs. */
module Forest {
  import opened Words
  import opened Paging

  type Frame = f: seq<Word> | |f| == 512 witness seq(512, _ => 0)

  function ZeroFrame(): (z: Frame)
    ensures forall i :: 0 <= i < 512 ==> z[i] == 0
  {
    seq(512, _ => 0)
  }

  /** The indexes leading from a PML4 down to a table, outermost first. */
  datatype Path = Root | Sub(up: Path, index: nat)

  function Depth(p: Path): nat {
    match p
    case Root => 0
    case Sub(up, _) => 1 + Depth(up)
  }

  datatype World = World(mem: seq<Frame>, free: set<nat>, tabs: map<nat, Path>, meta: set<nat>)

  // ---- translation -----------------------------------------------------------------------

  /** The table that entry i of table t points at. */
  function Child(mem: seq<Frame>, t: nat, i: nat): Option<nat> {
    if t < |mem| && i < 512 && Present(mem[t][i]) then Some(FrameOf(mem[t][i])) else None
  }

  /** The page table responsible for page p, if every level above it exists. */
  function TableFor(mem: seq<Frame>, r: nat, p: Page): Option<nat> {
    match Child(mem, r, p.i4)
    case None => None
    case Some(t3) =>
      match Child(mem, t3, p.i3)
      case None => None
      case Some(t2) => Child(mem, t2, p.i2)
  }

  /** The level-1 entry of page p under root r, or 0 when a table on the way is missing. */
  function Leaf(mem: seq<Frame>, r: nat, p: Page): Word {
    match TableFor(mem, r, p)
    case None => 0
    case Some(t) => if t < |mem| then mem[t][p.i1] else 0
  }

  function PathOf(p: Page): Path {
    Sub(Sub(Sub(Root, p.i4), p.i3), p.i2)
  }

  // ---- the invariant ---------------------------------------------------------------------

  ghost predicate IsRoot(w: World, r: nat) {
    r in w.tabs && w.tabs[r] == Root
  }

  /** Free frames, tables and the bitmap occupy different frames, none of them frame 0. */
  ghost predicate Placed(w: World) {
    && |w.mem| <= MAX_FRAMES
    && 0 !in w.free && 0 !in w.tabs && 0 !in w.meta
    && (forall f :: f in w.free ==> f < |w.mem|)
    && (forall t :: t in w.tabs ==> t < |w.mem|)
    && w.free !! w.tabs.Keys
    && w.free !! w.meta
    && w.tabs.Keys !! w.meta
  }

  /** A present entry of a table above level 1 leads to a table, at that index below it. */
  ghost predicate Closed(w: World) {
    && (forall t :: t in w.tabs ==> Depth(w.tabs[t]) <= 3)
    && (forall t, i :: t in w.tabs && Depth(w.tabs[t]) < 3 && Child(w.mem, t, i).Some? ==>
          && Child(w.mem, t, i).value in w.tabs
          && w.tabs[Child(w.mem, t, i).value] == Sub(w.tabs[t], i))
  }

  /** Only roots share tables: below level 4 a table has one parent. */
  ghost predicate OneParent(w: World) {
    forall t, t', i ::
      && t in w.tabs && w.tabs[t] != Root && Depth(w.tabs[t]) < 3
      && t' in w.tabs && w.tabs[t'] != Root && Depth(w.tabs[t']) < 3
      && Child(w.mem, t, i).Some? && Child(w.mem, t, i) == Child(w.mem, t', i)
      ==> t == t'
  }

  ghost predicate Inv(w: World) {
    Placed(w) && Closed(w) && OneParent(w)
  }

  // ---- elementary steps ------------------------------------------------------------------

  ghost predicate IsMin(f: nat, s: set<nat>) {
    f in s && forall g :: g in s ==> f <= g
  }

  /** Frames outside `touched` and outside the bitmap are the same. */
  ghost predicate SameFramesBut(w: World, w': World, touched: set<nat>) {
    && |w'.mem| == |w.mem|
    && forall g :: 0 <= g < |w.mem| && g !in touched && g !in w.meta ==> w'.mem[g] == w.mem[g]
  }

  /** `pmm_alloc_frame` succeeds: the lowest free frame is taken and zeroed. */
  ghost predicate AllocStep(w: World, w': World, f: nat) {
    && IsMin(f, w.free)
    && f < |w.mem|
    && SameFramesBut(w, w', {f})
    && w'.mem[f] == ZeroFrame()
    && w' == World(w'.mem, w.free - {f}, w.tabs, w.meta)
  }

  /** `_get_next_level` fills an absent entry i of table t with the new table f. */
  ghost predicate LinkStep(w: World, w': World, t: nat, i: nat, f: nat) {
    && t in w.tabs && Depth(w.tabs[t]) < 3 && t < |w.mem| && i < 512
    && Child(w.mem, t, i) == None
    && IsMin(f, w.free)
    && f < |w.mem| && f < MAX_FRAMES
    && SameFramesBut(w, w', {f, t})
    && w'.mem[f] == ZeroFrame()
    && w'.mem[t] == w.mem[t][i := TableEntry(f)]
    && w' == World(w'.mem, w.free - {f}, w.tabs[f := Sub(w.tabs[t], i)], w.meta)
  }

  /** A level-1 entry is stored. */
  ghost predicate WriteStep(w: World, w': World, t: nat, i: nat, e: Word) {
    && t in w.tabs && Depth(w.tabs[t]) == 3 && t < |w.mem| && i < 512
    && w' == World(w.mem[t := w.mem[t][i := e]], w.free, w.tabs, w.meta)
  }

  /** `vmm_make_pml4`: a new root f, a copy of root r. */
  ghost predicate ForkStep(w: World, w': World, r: nat, f: nat) {
    && IsRoot(w, r) && r < |w.mem|
    && IsMin(f, w.free)
    && f < |w.mem|
    && SameFramesBut(w, w', {f})
    && w'.mem[f] == w.mem[r]
    && w' == World(w'.mem, w.free - {f}, w.tabs[f := Root], w.meta)
  }

  /** Anyone stores anything in a frame that is neither a table nor part of the bitmap. */
  ghost predicate DataStep(w: World, w': World, f: nat, content: Frame) {
    && f < |w.mem| && f !in w.tabs && f !in w.meta
    && w' == World(w.mem[f := content], w.free, w.tabs, w.meta)
  }

  /** Frame f is someone's data: no table, not part of the bitmap, not frame 0. */
  ghost predicate Releasable(w: World, f: nat) {
    0 < f < |w.mem| && f !in w.tabs && f !in w.meta
  }

  /** `pmm_free_frame`: the frame joins the free set. */
  ghost predicate Unmarked(w: World, w': World, f: nat) {
    SameFramesBut(w, w', {}) && w' == World(w'.mem, w.free + {f}, w.tabs, w.meta)
  }

  /** `pmm_free_frame` of a data frame. */
  ghost predicate FreeStep(w: World, w': World, f: nat) {
    Releasable(w, f) && Unmarked(w, w', f)
  }

  // ---- walking ---------------------------------------------------------------------------

  lemma TableForLabelled(w: World, r: nat, p: Page)
    requires Inv(w) && IsRoot(w, r)
    ensures var t := TableFor(w.mem, r, p);
            t.Some? ==> t.value in w.tabs && w.tabs[t.value] == PathOf(p) && t.value < |w.mem|
  {
  }

  /** Two roots reach the same page table for p exactly when they share the slot of p. */
  lemma SharedSlot(w: World, r: nat, r': nat, p: Page)
    requires Inv(w) && IsRoot(w, r) && IsRoot(w, r')
    requires TableFor(w.mem, r, p).Some?
    ensures TableFor(w.mem, r', p) == TableFor(w.mem, r, p)
        <==> Child(w.mem, r', p.i4) == Child(w.mem, r, p.i4)
  {
  }

  // ---- every step keeps the invariant ------------------------------------------------------

  lemma SameTables(w: World, mem': seq<Frame>, r: nat, p: Page)
    requires Inv(w) && IsRoot(w, r)
    requires |mem'| == |w.mem|
    requires forall t :: t in w.tabs ==> mem'[t] == w.mem[t]
    ensures TableFor(mem', r, p) == TableFor(w.mem, r, p)
    ensures Leaf(mem', r, p) == Leaf(w.mem, r, p)
  {
  }

  lemma SameTablesInv(w: World, w': World)
    requires Inv(w) && w'.tabs == w.tabs && |w'.mem| == |w.mem|
    requires forall t :: t in w.tabs ==> w'.mem[t] == w.mem[t]
    requires Placed(w')
    ensures Inv(w')
  {
    assert forall t, i :: t in w.tabs ==> Child(w'.mem, t, i) == Child(w.mem, t, i);
  }

  lemma AllocKeeps(w: World, w': World, f: nat)
    requires Inv(w) && AllocStep(w, w', f)
    ensures Inv(w')
    ensures forall r, p :: IsRoot(w, r) ==> Leaf(w'.mem, r, p) == Leaf(w.mem, r, p)
  {
    SameTablesInv(w, w');
    forall r, p | IsRoot(w, r) ensures Leaf(w'.mem, r, p) == Leaf(w.mem, r, p) {
      SameTables(w, w'.mem, r, p);
    }
  }

  lemma FreeKeeps(w: World, w': World, f: nat)
    requires Inv(w) && FreeStep(w, w', f)
    ensures Inv(w')
    ensures forall r, p :: IsRoot(w, r) ==> Leaf(w'.mem, r, p) == Leaf(w.mem, r, p)
  {
    SameTablesInv(w, w');
    forall r, p | IsRoot(w, r) ensures Leaf(w'.mem, r, p) == Leaf(w.mem, r, p) {
      SameTables(w, w'.mem, r, p);
    }
  }

  lemma DataKeeps(w: World, w': World, f: nat, content: Frame)
    requires Inv(w) && DataStep(w, w', f, content)
    ensures Inv(w')
    ensures forall r, p :: IsRoot(w, r) ==> Leaf(w'.mem, r, p) == Leaf(w.mem, r, p)
  {
    SameTablesInv(w, w');
    forall r, p | IsRoot(w, r) ensures Leaf(w'.mem, r, p) == Leaf(w.mem, r, p) {
      SameTables(w, w'.mem, r, p);
    }
  }

  lemma LinkChildren(w: World, w': World, t: nat, i: nat, f: nat)
    requires Inv(w) && LinkStep(w, w', t, i, f)
    ensures forall t', i' :: t' in w.tabs ==>
              Child(w'.mem, t', i') == if t' == t && i' == i then Some(f) else Child(w.mem, t', i')
    ensures forall i' :: Child(w'.mem, f, i') == None
  {
  }

  lemma LinkInv(w: World, w': World, t: nat, i: nat, f: nat)
    requires Inv(w) && LinkStep(w, w', t, i, f)
    ensures Inv(w')
  {
    LinkChildren(w, w', t, i, f);
  }

  lemma LinkLeaves(w: World, w': World, t: nat, i: nat, f: nat, r: nat, p: Page)
    requires Inv(w) && LinkStep(w, w', t, i, f) && IsRoot(w, r)
    ensures Leaf(w'.mem, r, p) == Leaf(w.mem, r, p)
  {
    LinkChildren(w, w', t, i, f);
    TableForLabelled(w, r, p);
    var t3 := Child(w.mem, r, p.i4);
    if t3.Some? {
      var t2 := Child(w.mem, t3.value, p.i3);
      if t2.Some? {
        assert t2.value in w.tabs;
      }
    }
  }

  /** A new table changes the translation of nothing, in any address space. */
  lemma LinkKeeps(w: World, w': World, t: nat, i: nat, f: nat)
    requires Inv(w) && LinkStep(w, w', t, i, f)
    ensures Inv(w')
    ensures forall r, p :: IsRoot(w, r) ==> Leaf(w'.mem, r, p) == Leaf(w.mem, r, p)
  {
    LinkInv(w, w', t, i, f);
    forall r, p | IsRoot(w, r) ensures Leaf(w'.mem, r, p) == Leaf(w.mem, r, p) {
      LinkLeaves(w, w', t, i, f, r, p);
    }
  }

  lemma WriteKeeps(w: World, w': World, t: nat, i: nat, e: Word)
    requires Inv(w) && WriteStep(w, w', t, i, e)
    ensures Inv(w')
    ensures forall r, p :: IsRoot(w, r) ==> TableFor(w'.mem, r, p) == TableFor(w.mem, r, p)
    ensures forall r, p :: IsRoot(w, r) ==>
              Leaf(w'.mem, r, p) == if TableFor(w.mem, r, p) == Some(t) && p.i1 == i then e else Leaf(w.mem, r, p)
  {
    assert forall t', i' :: t' in w.tabs && t' != t ==> Child(w'.mem, t', i') == Child(w.mem, t', i');
    forall r, p: Page | IsRoot(w, r)
      ensures TableFor(w'.mem, r, p) == TableFor(w.mem, r, p)
      ensures Leaf(w'.mem, r, p) ==
              if TableFor(w.mem, r, p) == Some(t) && p.i1 == i then e else Leaf(w.mem, r, p)
    {
      TableForLabelled(w, r, p);
      var t3 := Child(w.mem, r, p.i4);
      if t3.Some? {
        var t2 := Child(w.mem, t3.value, p.i3);
        if t2.Some? {
          assert Depth(w.tabs[t2.value]) == 2;
        }
      }
    }
  }

  /** A level-1 store made through root r for page p changes exactly one page, and changes
      it in exactly the address spaces that share p's PML4 slot with r. */
  lemma WriteIsExact(w: World, w': World, r: nat, p: Page, e: Word)
    requires Inv(w) && IsRoot(w, r) && TableFor(w.mem, r, p).Some?
    requires WriteStep(w, w', TableFor(w.mem, r, p).value, p.i1, e)
    ensures Inv(w')
    ensures forall r', q :: IsRoot(w, r') ==>
              Leaf(w'.mem, r', q) == if q == p && Child(w.mem, r', p.i4) == Child(w.mem, r, p.i4) then e
                                     else Leaf(w.mem, r', q)
  {
    var t := TableFor(w.mem, r, p).value;
    WriteKeeps(w, w', t, p.i1, e);
    TableForLabelled(w, r, p);
    forall r', q: Page | IsRoot(w, r')
      ensures Leaf(w'.mem, r', q) == if q == p && Child(w.mem, r', p.i4) == Child(w.mem, r, p.i4) then e
                                     else Leaf(w.mem, r', q)
    {
      if TableFor(w.mem, r', q) == Some(t) {
        TableForLabelled(w, r', q);
        assert PathOf(q) == PathOf(p);
      }
      SharedSlot(w, r, r', p);
    }
  }

  /** A copied root translates every page like its original, and nothing else changes. */
  lemma ForkKeeps(w: World, w': World, r: nat, f: nat)
    requires Inv(w) && ForkStep(w, w', r, f)
    ensures Inv(w') && IsRoot(w', f)
    ensures forall i :: Child(w'.mem, f, i) == Child(w'.mem, r, i) == Child(w.mem, r, i)
    ensures forall r', p :: IsRoot(w, r') ==> Leaf(w'.mem, r', p) == Leaf(w.mem, r', p)
    ensures forall p :: Leaf(w'.mem, f, p) == Leaf(w.mem, r, p)
  {
    assert forall t, i :: t in w.tabs ==> Child(w'.mem, t, i) == Child(w.mem, t, i);
    assert forall i :: Child(w'.mem, f, i) == Child(w.mem, r, i);
    forall r', p | IsRoot(w, r') ensures Leaf(w'.mem, r', p) == Leaf(w.mem, r', p) {
      SameTables(w, w'.mem, r', p);
    }
    forall p ensures Leaf(w'.mem, f, p) == Leaf(w.mem, r, p) {
      SameTables(w, w'.mem, r, p);
    }
  }

  // ---- runs --------------------------------------------------------------------------------

  datatype Step =
    | Alloc(f: nat)
    | Link(t: nat, i: nat, f: nat)
    | Write(t: nat, i: nat, e: Word)
    | Fork(r: nat, f: nat)
    | Data(f: nat, content: Frame)
    | Release(f: nat)

  ghost predicate Does(w: World, s: Step, w': World) {
    match s
    case Alloc(f) => AllocStep(w, w', f)
    case Link(t, i, f) => LinkStep(w, w', t, i, f)
    case Write(t, i, e) => WriteStep(w, w', t, i, e)
    case Fork(r, f) => ForkStep(w, w', r, f)
    case Data(f, content) => DataStep(w, w', f, content)
    case Release(f) => FreeStep(w, w', f)
  }

  /** A run: one more world than steps, each reached from the one before. */
  ghost predicate IsRun(ws: seq<World>, steps: seq<Step>) {
    && |ws| == |steps| + 1
    && forall k :: 0 <= k < |steps| ==> Does(ws[k], steps[k], ws[k + 1])
  }

  /** What no step ever takes back: tables stay tables at their place, and a present entry
      above level 1 keeps its target. */
  ghost predicate Settled(w: World, w': World) {
    && (forall t :: t in w.tabs ==> t in w'.tabs && w'.tabs[t] == w.tabs[t])
    && (forall t, i :: t in w.tabs && Depth(w.tabs[t]) < 3 && Child(w.mem, t, i).Some? ==>
          Child(w'.mem, t, i) == Child(w.mem, t, i))
  }

  lemma StepKeeps(w: World, s: Step, w': World)
    requires Inv(w) && Does(w, s, w')
    ensures Inv(w') && Settled(w, w')
  {
    match s
    case Alloc(f) => AllocKeeps(w, w', f);
    case Link(t, i, f) => LinkKeeps(w, w', t, i, f); LinkChildren(w, w', t, i, f);
    case Write(t, i, e) => WriteKeeps(w, w', t, i, e);
    case Fork(r, f) => ForkKeeps(w, w', r, f);
    case Data(f, content) => DataKeeps(w, w', f, content);
    case Release(f) => FreeKeeps(w, w', f);
  }

  /** The forest invariant holds in every world of every run, and every table ever linked is
      still a table at the same place, its present entries unchanged. */
  lemma {:induction false} RunKeeps(ws: seq<World>, steps: seq<Step>)
    requires IsRun(ws, steps) && Inv(ws[0])
    ensures forall k :: 0 <= k < |ws| ==> Inv(ws[k]) && Settled(ws[0], ws[k])
  {
    forall k | 0 <= k < |ws| ensures Inv(ws[k]) && Settled(ws[0], ws[k]) {
      PrefixKeeps(ws, steps, k);
    }
  }

  lemma {:induction false} PrefixKeeps(ws: seq<World>, steps: seq<Step>, k: nat)
    requires IsRun(ws, steps) && Inv(ws[0]) && k < |ws|
    ensures Inv(ws[k]) && Settled(ws[0], ws[k])
  {
    if k > 0 {
      PrefixKeeps(ws, steps, k - 1);
      StepKeeps(ws[k - 1], steps[k - 1], ws[k]);
    }
  }

  /** No frame that an allocation, a new table or a new root zeroes or overwrites, at any point
      of any run, is a table that was live at an earlier point or part of the bitmap. */
  lemma NewFrameIsNoTable(ws: seq<World>, steps: seq<Step>, j: nat, k: nat)
    requires IsRun(ws, steps) && Inv(ws[0]) && j <= k < |steps|
    requires steps[k].Alloc? || steps[k].Link? || steps[k].Fork?
    ensures steps[k].f !in ws[j].tabs && steps[k].f !in ws[k].meta
    ensures forall t :: t in ws[j].tabs && Depth(ws[j].tabs[t]) < 3 ==>
              forall i :: Child(ws[j].mem, t, i).Some? ==> Child(ws[k + 1].mem, t, i) == Child(ws[j].mem, t, i)
  {
    PrefixKeeps(ws, steps, k);
    PrefixKeeps(ws, steps, j);
    RunKeeps(ws[j..], steps[j..]);
    assert ws[j..][k - j] == ws[k] && ws[j..][k + 1 - j] == ws[k + 1];
  }

  /** The bitmap stays where it is, and no frame holding it is ever free. */
  lemma {:induction false} BitmapStays(ws: seq<World>, steps: seq<Step>, k: nat)
    requires IsRun(ws, steps) && Inv(ws[0]) && k < |ws|
    ensures ws[k].meta == ws[0].meta && ws[k].free !! ws[0].meta
  {
    PrefixKeeps(ws, steps, k);
    if k > 0 {
      BitmapStays(ws, steps, k - 1);
      assert Does(ws[k - 1], steps[k - 1], ws[k]);
    }
  }

  // ---- forked address spaces ---------------------------------------------------------------

  ghost predicate Shares(w: World, r: nat, r': nat, i: nat) {
    Child(w.mem, r, i).Some? && Child(w.mem, r, i) == Child(w.mem, r', i)
  }

  lemma StepKeepsUnshared(w: World, s: Step, w': World, r: nat, r': nat, i: nat)
    requires Inv(w) && Does(w, s, w') && IsRoot(w, r) && IsRoot(w, r') && r != r'
    requires !Shares(w, r, r', i)
    ensures !Shares(w', r, r', i)
  {
  }

  /** Through any run, two address spaces share a PML4 slot at the end exactly if they did
      at the start: sharing is decided when a root is copied, once and for all. */
  lemma {:induction false} SharingIsFixed(ws: seq<World>, steps: seq<Step>, r: nat, r': nat, i: nat)
    requires IsRun(ws, steps) && Inv(ws[0])
    requires IsRoot(ws[0], r) && IsRoot(ws[0], r') && r != r'
    ensures Shares(ws[|steps|], r, r', i) <==> Shares(ws[0], r, r', i)
  {
    if |steps| > 0 {
      var n := |steps| - 1;
      SharingIsFixed(ws[..n + 1], steps[..n], r, r', i);
      RunKeeps(ws, steps);
      if !Shares(ws[n], r, r', i) {
        StepKeepsUnshared(ws[n], steps[n], ws[n + 1], r, r', i);
      } else {
        StepKeeps(ws[n], steps[n], ws[n + 1]);
      }
    }
  }

  lemma SharedLeaf(w: World, r: nat, r': nat, p: Page)
    requires Shares(w, r, r', p.i4)
    ensures Leaf(w.mem, r, p) == Leaf(w.mem, r', p)
  {
  }

  /** The fork theorem, first half: after `vmm_make_pml4` copies root r to f and through any
      run that follows, every page of a slot present at copy time translates identically
      under both roots. */
  lemma ForkedSlotsAgree(w: World, f: nat, r: nat, ws: seq<World>, steps: seq<Step>, p: Page)
    requires Inv(w) && IsRun(ws, steps) && ForkStep(w, ws[0], r, f)
    requires Child(w.mem, r, p.i4).Some?
    ensures Leaf(ws[|steps|].mem, f, p) == Leaf(ws[|steps|].mem, r, p)
  {
    ForkKeeps(w, ws[0], r, f);
    SharingIsFixed(ws, steps, f, r, p.i4);
    SharedLeaf(ws[|steps|], f, r, p);
  }

  /** The step is not a level-1 store, or one made through root r: its cell is the entry of
      some page of r. */
  ghost predicate Through(w: World, s: Step, r: nat) {
    s.Write? ==> exists p: Page :: TableFor(w.mem, r, p) == Some(s.t) && p.i1 == s.i
  }

  lemma StepLeavesUnshared(w: World, s: Step, w': World, from: nat, other: nat, p: Page)
    requires Inv(w) && Does(w, s, w') && IsRoot(w, from) && IsRoot(w, other)
    requires !Shares(w, from, other, p.i4) && Through(w, s, from)
    ensures Leaf(w'.mem, other, p) == Leaf(w.mem, other, p)
  {
    match s
    case Alloc(f) => AllocKeeps(w, w', f);
    case Link(t, i, f) => LinkKeeps(w, w', t, i, f);
    case Fork(r, f) => ForkKeeps(w, w', r, f);
    case Data(f, content) => DataKeeps(w, w', f, content);
    case Release(f) => FreeKeeps(w, w', f);
    case Write(t, i, e) =>
      var q: Page :| TableFor(w.mem, from, q) == Some(t) && q.i1 == i;
      WriteKeeps(w, w', t, i, e);
      if TableFor(w.mem, other, p) == Some(t) && p.i1 == i {
        TableForLabelled(w, from, q);
        TableForLabelled(w, other, p);
        assert PathOf(q) == PathOf(p);
        SharedSlot(w, from, other, p);
        assert false;
      }
  }

  /** In any run, however both address spaces are used, a step made through one root changes no
      translation of a slot that another root does not share with it. */
  lemma UnsharedUntouched(ws: seq<World>, steps: seq<Step>, k: nat, from: nat, other: nat, p: Page)
    requires IsRun(ws, steps) && Inv(ws[0]) && k < |steps|
    requires IsRoot(ws[0], from) && IsRoot(ws[0], other) && from != other
    requires !Shares(ws[0], from, other, p.i4) && Through(ws[k], steps[k], from)
    ensures Leaf(ws[k + 1].mem, other, p) == Leaf(ws[k].mem, other, p)
  {
    RunKeeps(ws, steps);
    SharingIsFixed(ws[..k + 1], steps[..k], from, other, p.i4);
    StepLeavesUnshared(ws[k], steps[k], ws[k + 1], from, other, p);
  }

  /** So a slot stays as it was over any stretch of a run in which only one root is stored
      through and another one does not share it. */
  lemma {:induction false} UnsharedStretch(ws: seq<World>, steps: seq<Step>, j: nat, k: nat,
                                           from: nat, other: nat, p: Page)
    requires IsRun(ws, steps) && Inv(ws[0]) && j <= k <= |steps|
    requires IsRoot(ws[0], from) && IsRoot(ws[0], other) && from != other
    requires !Shares(ws[0], from, other, p.i4)
    requires forall n :: j <= n < k ==> Through(ws[n], steps[n], from)
    ensures Leaf(ws[k].mem, other, p) == Leaf(ws[j].mem, other, p)
    decreases k
  {
    if j < k {
      UnsharedStretch(ws, steps, j, k - 1, from, other, p);
      UnsharedUntouched(ws, steps, k - 1, from, other, p);
    }
  }

  /** Second half: a slot absent at copy time is private to each side.  In any run that uses
      both roots, a step made through one changes no translation of that slot in the other. */
  lemma ForkedSlotsIndependent(w: World, f: nat, r: nat, ws: seq<World>, steps: seq<Step>, k: nat,
                               from: nat, other: nat, p: Page)
    requires Inv(w) && IsRun(ws, steps) && ForkStep(w, ws[0], r, f) && k < |steps|
    requires Child(w.mem, r, p.i4) == None
    requires (from == f && other == r) || (from == r && other == f)
    requires Through(ws[k], steps[k], from)
    ensures Leaf(ws[k + 1].mem, other, p) == Leaf(ws[k].mem, other, p)
    ensures Leaf(ws[0].mem, other, p) == 0
  {
    ForkKeeps(w, ws[0], r, f);
    UnsharedUntouched(ws, steps, k, from, other, p);
  }

  /** And while only one of the two is stored through, the other has nothing there at all. */
  lemma ForkedSlotsEmpty(w: World, f: nat, r: nat, ws: seq<World>, steps: seq<Step>,
                         from: nat, other: nat, p: Page)
    requires Inv(w) && IsRun(ws, steps) && ForkStep(w, ws[0], r, f)
    requires Child(w.mem, r, p.i4) == None
    requires (from == f && other == r) || (from == r && other == f)
    requires forall k :: 0 <= k < |steps| ==> Through(ws[k], steps[k], from)
    ensures Leaf(ws[|steps|].mem, other, p) == 0
  {
    ForkKeeps(w, ws[0], r, f);
    UnsharedStretch(ws, steps, 0, |steps|, from, other, p);
  }
}
