/** Whole runs over all address spaces: every call names the root it is made for, roots are
    forked on the way, and every live root is followed at once.

    The reference machine is a family of flat machines, one for each root, with the record of
    which PML4 slots two roots have in common.  It knows nothing of tables in memory: a call on
    one root acts on another as the same call when the page's slot is shared, and otherwise
    only takes frames away from it. */
module Spaces {
  import opened Words
  import opened Paging
  import opened Forest
  import opened Flat
  import opened Calls

  // ---- the reference machine -------------------------------------------------------------------

  /** The roots r and s have PML4 slot `slot` in common. */
  datatype Share = Share(r: nat, s: nat, slot: nat)

  datatype Family = Family(flats: map<nat, Flat>, shared: iset<Share>)

  datatype SpaceCall =
    | On(root: nat, call: Call)
    | Fork(from: nat)

  ghost predicate AllTotal(a: Family) {
    forall r :: r in a.flats ==> Total(a.flats[r])
  }

  /** The page a call works on, if it works on one. */
  function PageOfCall(call: Call): Option<Page> {
    match call
    case MapPage(_, virt, _) => Some(PageOf(virt))
    case UnmapPage(virt) => Some(PageOf(virt))
    case GetPhysOf(virt) => Some(PageOf(virt))
    case SetFlags(virt, _) => Some(PageOf(virt))
    case TakeFrame => None
    case GiveFrame(_) => None
    case UseFrame(_, _) => None
  }

  /** A call made on root s acts on root r too. */
  ghost predicate Visible(a: Family, s: nat, r: nat, call: Call) {
    r == s || PageOfCall(call) == None || Share(s, r, PageOfCall(call).value.i4) in a.shared
  }

  /** Root r after a call on s that left the free set `free`. */
  ghost function Seen(a: Family, s: nat, r: nat, call: Call, free: set<nat>): (b: Flat)
    requires AllTotal(a) && r in a.flats
    ensures Total(b)
  {
    FlatCallTotal(a.flats[r], call);
    if Visible(a, s, r, call) then FlatCall(a.flats[r], call).0
    else Flat(a.flats[r].pte, a.flats[r].tables, free)
  }

  ghost function OnCall(a: Family, s: nat, call: Call): (b: (Family, Word))
    requires AllTotal(a) && s in a.flats
    ensures AllTotal(b.0)
  {
    var (own, result) := FlatCall(a.flats[s], call);
    (Family(map r | r in a.flats :: Seen(a, s, r, call, own.free), a.shared), result)
  }

  /** What a copy f of root `from` has in common with the others: what `from` has, and with
      `from` itself every slot that is present. */
  ghost function NewShares(a: Family, from: nat, f: nat): iset<Share>
    requires from in a.flats
  {
    iset x: Share |
      && (x.r == f) != (x.s == f) && x.slot < 512 && Sub(Root, x.slot) in a.flats[from].tables
      && var other := if x.r == f then x.s else x.r;
         other in a.flats && (other == from || Share(from, other, x.slot) in a.shared)
  }

  /** With no frame left a fork returns 0 and no root changes. */
  ghost function ForkCall(a: Family, from: nat): (b: (Family, Word))
    requires AllTotal(a) && from in a.flats
    ensures AllTotal(b.0)
  {
    var free := a.flats[from].free;
    if free == {} || Min(free) >= MAX_FRAMES then (a, 0)
    else
      var f := Min(free);
      (Family(map r | r in a.flats.Keys + {f} :: WithoutFrame(a, if r == f then from else r, f),
              a.shared + NewShares(a, from, f)),
       4096 * f)
  }

  ghost function WithoutFrame(a: Family, r: nat, f: nat): (b: Flat)
    requires AllTotal(a) && r in a.flats
    ensures Total(b)
  {
    Flat(a.flats[r].pte, a.flats[r].tables, a.flats[r].free - {f})
  }

  /** The root a call is made for exists. */
  ghost predicate Enabled(a: Family, c: SpaceCall) {
    match c
    case On(s, _) => s in a.flats
    case Fork(from) => from in a.flats
  }

  ghost function FamilyCall(a: Family, c: SpaceCall): (b: (Family, Word))
    requires AllTotal(a)
    ensures AllTotal(b.0)
  {
    if !Enabled(a, c) then (a, 0)
    else
      match c
      case On(s, call) => OnCall(a, s, call)
      case Fork(from) => ForkCall(a, from)
  }

  // ---- the same on worlds ----------------------------------------------------------------------

  ghost function FamilyOf(w: World): (a: Family)
    ensures AllTotal(a)
  {
    Family(map r | r in w.tabs && w.tabs[r] == Root :: FlatOf(w, r),
           iset x: Share | IsRoot(w, x.r) && IsRoot(w, x.s) && x.r != x.s && Shares(w, x.r, x.s, x.slot))
  }

  /** `vmm_make_pml4` for the recorded root `from`.  Without a frame it stores the copy through
      the null pointer, into frame 0. */
  ghost predicate ForkDoes(w: World, w': World, from: nat, result: Word) {
    if w.free == {} then from < |w.mem| && DataStep(w, w', 0, w.mem[from]) && result == 0
    else exists f: nat :: ForkStep(w, w', from, f) && result == 4096 * f
  }

  ghost predicate SpaceDoes(w: World, c: SpaceCall, w': World, result: Word) {
    match c
    case On(s, call) => IsRoot(w, s) && CallDoes(w, call, w', s, result)
    case Fork(from) => IsRoot(w, from) && ForkDoes(w, w', from, result)
  }

  // ---- a call on a root that shares the slot -----------------------------------------------------

  lemma SharedWalk(w: World, w': World, s: nat, r: nat, p: Page, c: Option<nat>)
    requires Shares(w, s, r, p.i4) && WalkDoes(w, w', s, p, c)
    ensures WalkDoes(w, w', r, p, c)
  {
    var w1: World, w2: World, c3: Option<nat>, c2: Option<nat> :| Chain(w, w1, w2, w', s, p, c3, c2, c);
    assert Chain(w, w1, w2, w', r, p, c3, c2, c);
  }

  lemma SharedStore(w: World, w': World, s: nat, r: nat, p: Page, e: Word)
    requires Shares(w, s, r, p.i4) && StoreDoes(w, w', s, p, e)
    ensures StoreDoes(w, w', r, p, e)
  {
    var w1: World, c: Option<nat> :| WalkDoes(w, w1, s, p, c) && StoreAfter(w1, w', p, c, e);
    SharedWalk(w, w1, s, r, p, c);
  }

  /** Through a shared slot, a call on one root is the same call on the other. */
  lemma SharedCall(w: World, call: Call, w': World, s: nat, r: nat, result: Word)
    requires CallDoes(w, call, w', s, result)
    requires PageOfCall(call).Some? ==> Shares(w, s, r, PageOfCall(call).value.i4)
    ensures CallDoes(w, call, w', r, result)
  {
    match call
    case MapPage(phys, virt, flags) => SharedStore(w, w', s, r, PageOf(virt), EntryFor(phys, flags));
    case UnmapPage(virt) => SharedStore(w, w', s, r, PageOf(virt), 0);
    case GetPhysOf(virt) =>
      var c: Option<nat> :| WalkDoes(w, w', s, PageOf(virt), c) && result == PhysIn(w', PageOf(virt), c);
      SharedWalk(w, w', s, r, PageOf(virt), c);
    case SetFlags(virt, flags) =>
      SharedLeaf(w, s, r, PageOf(virt));
      SharedStore(w, w', s, r, PageOf(virt), WithFlags(Leaf(w.mem, s, PageOf(virt)), flags));
    case TakeFrame =>
    case GiveFrame(f) =>
    case UseFrame(f, content) =>
  }

  // ---- a call on a root that does not ------------------------------------------------------------

  /** Root r keeps its entries and its tables. */
  ghost predicate Unmoved(w: World, w': World, r: nat) {
    && FlatOf(w', r).pte == FlatOf(w, r).pte
    && FlatOf(w', r).tables == FlatOf(w, r).tables
  }

  /** The roots s and r, and a slot that is not common to them. */
  ghost predicate Apart(w: World, s: nat, r: nat, slot: nat) {
    Inv(w) && IsRoot(w, s) && IsRoot(w, r) && s != r && !Shares(w, s, r, slot)
  }

  /** Table t is none of root r's. */
  ghost predicate Foreign(w: World, r: nat, t: nat) {
    t in w.tabs && Depth(w.tabs[t]) < 3 && TableAt(w.mem, r, w.tabs[t]) != Some(t)
  }

  lemma {:induction false} LinkTableAt(w: World, w': World, r: nat, t: nat, i: nat, f: nat, q: Path)
    requires Inv(w) && IsRoot(w, r) && LinkStep(w, w', t, i, f) && Foreign(w, r, t) && Depth(q) <= 3
    ensures TableAt(w'.mem, r, q) == TableAt(w.mem, r, q)
  {
    if q.Sub? {
      LinkTableAt(w, w', r, t, i, f, q.up);
      TableAtLabelled(w, r, q.up);
      LinkChildren(w, w', t, i, f);
    }
  }

  /** A level of the walk in a table that is none of r's. */
  lemma LevelApart(w: World, w': World, s: nat, r: nat, slot: nat, t: nat, i: nat, c: Option<nat>)
    requires Apart(w, s, r, slot) && Foreign(w, r, t) && LevelStep(w, w', t, i, c) && i < 512
    ensures Apart(w', s, r, slot) && Unmoved(w, w', r)
    ensures c.Some? ==> Child(w'.mem, t, i) == c
  {
    if w' != w {
      var f := c.value;
      LinkKeeps(w, w', t, i, f);
      LinkChildren(w, w', t, i, f);
      StepKeepsUnshared(w, Link(t, i, f), w', s, r, slot);
      forall q: Path ensures Reached(w', r, q) <==> Reached(w, r, q) {
        if Depth(q) <= 3 { LinkTableAt(w, w', r, t, i, f, q); }
      }
    }
  }

  lemma ForeignRoot(w: World, s: nat, r: nat, slot: nat)
    requires Apart(w, s, r, slot)
    ensures Foreign(w, r, s)
  {
  }

  lemma ForeignSecond(w: World, s: nat, r: nat, slot: nat, t3: nat)
    requires Apart(w, s, r, slot) && Child(w.mem, s, slot) == Some(t3)
    ensures Foreign(w, r, t3) && w.tabs[t3] == Sub(Root, slot)
  {
    assert TableAt(w.mem, r, Root) == Some(r);
  }

  lemma ForeignThird(w: World, s: nat, r: nat, slot: nat, t3: nat, j: nat, t2: nat)
    requires Apart(w, s, r, slot) && Child(w.mem, s, slot) == Some(t3) && Child(w.mem, t3, j) == Some(t2)
    ensures Foreign(w, r, t2)
  {
    ForeignSecond(w, s, r, slot, t3);
    var up := Sub(Root, slot);
    assert w.tabs[t2] == Sub(up, j);
    TableAtLabelled(w, r, up);
  }

  /** The root r looks on while a walk below s makes its tables. */
  lemma WalkApart(w: World, w': World, s: nat, r: nat, p: Page, c: Option<nat>)
    requires Apart(w, s, r, p.i4) && WalkDoes(w, w', s, p, c)
    ensures Apart(w', s, r, p.i4) && Unmoved(w, w', r)
  {
    var w1: World, w2: World, c3: Option<nat>, c2: Option<nat> :| Chain(w, w1, w2, w', s, p, c3, c2, c);
    ForeignRoot(w, s, r, p.i4);
    LevelApart(w, w1, s, r, p.i4, s, p.i4, c3);
    if c3.Some? {
      ForeignSecond(w1, s, r, p.i4, c3.value);
      LowerLevelsApart(w1, w2, w', s, r, p, c3.value, c2, c);
    }
  }

  lemma LowerLevelsApart(w: World, w1: World, w': World, s: nat, r: nat, p: Page, t3: nat,
                         c2: Option<nat>, c: Option<nat>)
    requires Apart(w, s, r, p.i4) && Child(w.mem, s, p.i4) == Some(t3) && Foreign(w, r, t3)
    requires LevelStep(w, w1, t3, p.i3, c2)
    requires if c2.Some? then LevelStep(w1, w', c2.value, p.i2, c) else w' == w1
    ensures Apart(w', s, r, p.i4) && Unmoved(w, w', r)
  {
    LevelApart(w, w1, s, r, p.i4, t3, p.i3, c2);
    if c2.Some? {
      LevelGrows(w, w1, t3, p.i3, c2);
      ForeignThird(w1, s, r, p.i4, t3, p.i3, c2.value);
      LevelApart(w1, w', s, r, p.i4, c2.value, p.i2, c);
    }
  }

  lemma WriteApart(w: World, w': World, s: nat, r: nat, p: Page, t: nat, e: Word)
    requires Apart(w, s, r, p.i4) && TableFor(w.mem, s, p) == Some(t) && WriteStep(w, w', t, p.i1, e)
    ensures Inv(w') && IsRoot(w', r) && Unmoved(w, w', r)
  {
    WriteIsExact(w, w', s, p, e);
    WriteTables(w, w', r, t, p.i1, e);
    assert FlatOf(w', r).pte == FlatOf(w, r).pte;
  }

  lemma StoreApart(w: World, w': World, s: nat, r: nat, p: Page, e: Word)
    requires Apart(w, s, r, p.i4) && StoreDoes(w, w', s, p, e)
    ensures Inv(w') && IsRoot(w', r) && Unmoved(w, w', r)
  {
    var w1: World, c: Option<nat> :| WalkDoes(w, w1, s, p, c) && StoreAfter(w1, w', p, c, e);
    WalkApart(w, w1, s, r, p, c);
    if c.Some? {
      WalkRefines(w, w1, s, p, c);
      WriteApart(w1, w', s, r, p, c.value, e);
    }
  }

  /** A call on a page whose slot is not shared only takes frames away from the other root. */
  lemma ApartCall(w: World, call: Call, w': World, s: nat, r: nat, result: Word)
    requires PageOfCall(call).Some? && Apart(w, s, r, PageOfCall(call).value.i4)
    requires CallDoes(w, call, w', s, result)
    ensures Inv(w') && IsRoot(w', r) && Unmoved(w, w', r)
  {
    match call
    case MapPage(phys, virt, flags) => StoreApart(w, w', s, r, PageOf(virt), EntryFor(phys, flags));
    case UnmapPage(virt) => StoreApart(w, w', s, r, PageOf(virt), 0);
    case GetPhysOf(virt) =>
      var c: Option<nat> :| WalkDoes(w, w', s, PageOf(virt), c) && result == PhysIn(w', PageOf(virt), c);
      WalkApart(w, w', s, r, PageOf(virt), c);
    case SetFlags(virt, flags) =>
      StoreApart(w, w', s, r, PageOf(virt), WithFlags(Leaf(w.mem, s, PageOf(virt)), flags));
  }

  // ---- sharing and roots stay --------------------------------------------------------------------

  /** The same roots, and every two have the same slots in common. */
  ghost predicate SameSharing(w: World, w': World) {
    && (forall r :: IsRoot(w', r) <==> IsRoot(w, r))
    && (forall r, s, i :: IsRoot(w, r) && IsRoot(w, s) && r != s ==> (Shares(w', r, s, i) <==> Shares(w, r, s, i)))
  }

  lemma StepSameSharing(w: World, step: Step, w': World)
    requires Inv(w) && Does(w, step, w') && !step.Fork?
    ensures Inv(w') && SameSharing(w, w')
  {
    StepKeeps(w, step, w');
    forall r, s, i | IsRoot(w, r) && IsRoot(w, s) && r != s
      ensures Shares(w', r, s, i) <==> Shares(w, r, s, i)
    {
      if !Shares(w, r, s, i) { StepKeepsUnshared(w, step, w', r, s, i); }
    }
  }

  lemma LevelSameSharing(w: World, w': World, t: nat, i: nat, c: Option<nat>)
    requires Inv(w) && LevelStep(w, w', t, i, c)
    ensures Inv(w') && SameSharing(w, w')
  {
    if w' != w { StepSameSharing(w, Link(t, i, c.value), w'); }
  }

  lemma WalkSameSharing(w: World, w': World, s: nat, p: Page, c: Option<nat>)
    requires Inv(w) && WalkDoes(w, w', s, p, c)
    ensures Inv(w') && SameSharing(w, w')
  {
    var w1: World, w2: World, c3: Option<nat>, c2: Option<nat> :| Chain(w, w1, w2, w', s, p, c3, c2, c);
    LevelSameSharing(w, w1, s, p.i4, c3);
    if c3.Some? { LevelSameSharing(w1, w2, c3.value, p.i3, c2); }
    if c2.Some? { LevelSameSharing(w2, w', c2.value, p.i2, c); }
  }

  lemma StoreSameSharing(w: World, w': World, s: nat, p: Page, e: Word)
    requires Inv(w) && StoreDoes(w, w', s, p, e)
    ensures Inv(w') && SameSharing(w, w')
  {
    var w1: World, c: Option<nat> :| WalkDoes(w, w1, s, p, c) && StoreAfter(w1, w', p, c, e);
    WalkSameSharing(w, w1, s, p, c);
    if c.Some? { StepSameSharing(w1, Write(c.value, p.i1, e), w'); }
  }

  lemma CallSameSharing(w: World, call: Call, w': World, s: nat, result: Word)
    requires Inv(w) && CallDoes(w, call, w', s, result)
    ensures Inv(w') && SameSharing(w, w')
  {
    match call
    case MapPage(phys, virt, flags) => StoreSameSharing(w, w', s, PageOf(virt), EntryFor(phys, flags));
    case UnmapPage(virt) => StoreSameSharing(w, w', s, PageOf(virt), 0);
    case GetPhysOf(virt) =>
      var c: Option<nat> :| WalkDoes(w, w', s, PageOf(virt), c) && result == PhysIn(w', PageOf(virt), c);
      WalkSameSharing(w, w', s, PageOf(virt), c);
    case SetFlags(virt, flags) =>
      StoreSameSharing(w, w', s, PageOf(virt), WithFlags(Leaf(w.mem, s, PageOf(virt)), flags));
    case TakeFrame =>
      if w.free != {} {
        var f: nat :| AllocStep(w, w', f) && result == 4096 * f;
        StepSameSharing(w, Alloc(f), w');
      }
    case GiveFrame(f) => StepSameSharing(w, Release(f), w');
    case UseFrame(f, content) => StepSameSharing(w, Data(f, content), w');
  }

  // ---- refinement of one call --------------------------------------------------------------------

  /** What a call on s does to root r, as the family says. */
  lemma CallSeen(w: World, call: Call, w': World, s: nat, r: nat, result: Word)
    requires Inv(w) && IsRoot(w, s) && IsRoot(w, r) && CallDoes(w, call, w', s, result)
    ensures FlatOf(w', r) == Seen(FamilyOf(w), s, r, call, w'.free)
  {
    if Visible(FamilyOf(w), s, r, call) {
      if r != s { SharedCall(w, call, w', s, r, result); }
      CallRefines(w, call, w', r, result);
    } else {
      ApartCall(w, call, w', s, r, result);
    }
  }

  ghost predicate AgreeAt(a: Family, b: Family, r: nat) {
    (r in a.flats <==> r in b.flats) && (r in a.flats ==> a.flats[r] == b.flats[r])
  }

  ghost predicate AgreeOn(a: Family, b: Family, x: Share) { x in a.shared <==> x in b.shared }

  lemma SameFamily(a: Family, b: Family)
    requires forall r :: AgreeAt(a, b, r)
    requires forall x :: AgreeOn(a, b, x)
    ensures a == b
  {
    forall r: nat ensures r in a.flats <==> r in b.flats { assert AgreeAt(a, b, r); }
    forall r | r in a.flats ensures a.flats[r] == b.flats[r] { assert AgreeAt(a, b, r); }
    forall x: Share ensures x in a.shared <==> x in b.shared { assert AgreeOn(a, b, x); }
    assert a.flats == b.flats && a.shared == b.shared;
  }

  lemma SharedStays(w: World, w': World, x: Share)
    requires SameSharing(w, w')
    ensures AgreeOn(FamilyOf(w'), FamilyOf(w), x)
  {
  }

  lemma FamilyAt(w: World, r: nat)
    ensures r in FamilyOf(w).flats <==> IsRoot(w, r)
    ensures IsRoot(w, r) ==> FamilyOf(w).flats[r] == FlatOf(w, r)
  {
  }

  lemma OnRefines(w: World, s: nat, call: Call, w': World, result: Word)
    requires Inv(w) && IsRoot(w, s) && CallDoes(w, call, w', s, result)
    ensures Inv(w') && (FamilyOf(w'), result) == OnCall(FamilyOf(w), s, call)
  {
    CallSameSharing(w, call, w', s, result);
    CallRefines(w, call, w', s, result);
    forall r: nat ensures AgreeAt(FamilyOf(w'), OnCall(FamilyOf(w), s, call).0, r) {
      SeenAt(w, w', s, call, result, r);
    }
    forall x: Share ensures AgreeOn(FamilyOf(w'), OnCall(FamilyOf(w), s, call).0, x) { SharedStays(w, w', x); }
    SameFamily(FamilyOf(w'), OnCall(FamilyOf(w), s, call).0);
  }

  lemma SeenAt(w: World, w': World, s: nat, call: Call, result: Word, r: nat)
    requires Inv(w) && IsRoot(w, s) && CallDoes(w, call, w', s, result) && SameSharing(w, w')
    ensures AgreeAt(FamilyOf(w'), OnCall(FamilyOf(w), s, call).0, r)
  {
    CallRefines(w, call, w', s, result);
    FamilyAt(w, s);
    FamilyAt(w, r);
    FamilyAt(w', r);
    if IsRoot(w, r) { CallSeen(w, call, w', s, r, result); }
  }

  // ---- refinement of a fork ----------------------------------------------------------------------

  lemma {:induction false} ForkTableAt(w: World, w': World, from: nat, f: nat, r: nat, q: Path)
    requires Inv(w) && ForkStep(w, w', from, f) && IsRoot(w, r) && Depth(q) <= 3
    ensures TableAt(w'.mem, r, q) == TableAt(w.mem, r, q)
    ensures q.Sub? ==> TableAt(w'.mem, f, q) == TableAt(w.mem, from, q)
  {
    if q.Sub? {
      ForkTableAt(w, w', from, f, r, q.up);
      TableAtLabelled(w, r, q.up);
      TableAtLabelled(w, from, q.up);
    }
  }

  lemma ForkFlat(w: World, w': World, from: nat, f: nat, r: nat)
    requires Inv(w) && ForkStep(w, w', from, f) && IsRoot(w, r)
    ensures Unmoved(w, w', r)
    ensures FlatOf(w', f).pte == FlatOf(w, from).pte && FlatOf(w', f).tables == FlatOf(w, from).tables
  {
    ForkKeeps(w, w', from, f);
    forall q: Path
      ensures Reached(w', r, q) <==> Reached(w, r, q)
      ensures Reached(w', f, q) <==> Reached(w, from, q)
    {
      if Depth(q) <= 3 { ForkTableAt(w, w', from, f, r, q); }
    }
  }

  lemma ForkChildren(w: World, w': World, from: nat, f: nat, i: nat)
    requires Inv(w) && ForkStep(w, w', from, f)
    ensures Inv(w') && IsRoot(w', f) && !IsRoot(w, f)
    ensures forall r :: IsRoot(w', r) <==> IsRoot(w, r) || r == f
    ensures Child(w'.mem, f, i) == Child(w.mem, from, i)
    ensures forall r :: IsRoot(w, r) ==> Child(w'.mem, r, i) == Child(w.mem, r, i)
    ensures i < 512 ==> (Sub(Root, i) in FlatOf(w, from).tables <==> Child(w.mem, from, i).Some?)
  {
    ForkKeeps(w, w', from, f);
    assert TableAt(w.mem, from, Root) == Some(from);
    assert TableAt(w.mem, from, Sub(Root, i)) == Child(w.mem, from, i);
  }

  lemma ForkShares(w: World, w': World, from: nat, f: nat, x: Share)
    requires Inv(w) && ForkStep(w, w', from, f)
    ensures x in FamilyOf(w').shared <==> x in FamilyOf(w).shared || x in NewShares(FamilyOf(w), from, f)
  {
    ForkChildren(w, w', from, f, x.slot);
    var a, other := FamilyOf(w), if x.r == f then x.s else x.r;
    assert a.flats[from] == FlatOf(w, from);
    if (x.r == f) != (x.s == f) {
      assert Share(from, other, x.slot) in a.shared <==>
             IsRoot(w, other) && other != from && Shares(w, from, other, x.slot);
    }
  }

  lemma ForkRefines(w: World, from: nat, w': World, result: Word)
    requires Inv(w) && IsRoot(w, from) && ForkDoes(w, w', from, result)
    ensures Inv(w') && (FamilyOf(w'), result) == ForkCall(FamilyOf(w), from)
  {
    if w.free == {} {
      StepSameSharing(w, Data(0, w.mem[from]), w');
      NoFork(w, w');
    } else {
      var f: nat :| ForkStep(w, w', from, f) && result == 4096 * f;
      MinUnique(f, w.free);
      ForkKeeps(w, w', from, f);
      NewFork(w, from, w', f);
    }
  }

  lemma NoFork(w: World, w': World)
    requires Inv(w) && SameSharing(w, w')
    requires |w'.mem| == |w.mem| && w'.free == w.free && forall t :: t in w.tabs ==> w'.mem[t] == w.mem[t]
    ensures FamilyOf(w') == FamilyOf(w)
  {
    forall r: nat ensures AgreeAt(FamilyOf(w'), FamilyOf(w), r) {
      FamilyAt(w, r);
      FamilyAt(w', r);
      if IsRoot(w, r) { QuietRefines(w, w', r); }
    }
    forall x: Share ensures AgreeOn(FamilyOf(w'), FamilyOf(w), x) { SharedStays(w, w', x); }
    SameFamily(FamilyOf(w'), FamilyOf(w));
  }

  lemma NewFork(w: World, from: nat, w': World, f: nat)
    requires Inv(w) && ForkStep(w, w', from, f) && w.free != {} && Min(w.free) == f && f < MAX_FRAMES
    ensures FamilyOf(w') == ForkCall(FamilyOf(w), from).0
  {
    FamilyAt(w, from);
    forall r: nat ensures AgreeAt(FamilyOf(w'), ForkCall(FamilyOf(w), from).0, r) { ForkAt(w, from, w', f, r); }
    forall x: Share ensures AgreeOn(FamilyOf(w'), ForkCall(FamilyOf(w), from).0, x) {
      ForkShares(w, w', from, f, x);
    }
    SameFamily(FamilyOf(w'), ForkCall(FamilyOf(w), from).0);
  }

  lemma ForkAt(w: World, from: nat, w': World, f: nat, r: nat)
    requires Inv(w) && ForkStep(w, w', from, f) && w.free != {} && Min(w.free) == f && f < MAX_FRAMES
    ensures AgreeAt(FamilyOf(w'), ForkCall(FamilyOf(w), from).0, r)
  {
    ForkChildren(w, w', from, f, 0);
    FamilyAt(w, from);
    FamilyAt(w, r);
    FamilyAt(w', r);
    if IsRoot(w', r) { ForkFlat(w, w', from, f, if r == f then from else r); }
  }

  // ---- refinement of runs ------------------------------------------------------------------------

  /** Every call, whatever root it names, commutes with reading all roots as a family. */
  lemma SpaceRefines(w: World, c: SpaceCall, w': World, result: Word)
    requires Inv(w) && SpaceDoes(w, c, w', result)
    ensures Inv(w') && (FamilyOf(w'), result) == FamilyCall(FamilyOf(w), c)
  {
    match c
    case On(s, call) => OnRefines(w, s, call, w', result);
    case Fork(from) => ForkRefines(w, from, w', result);
  }

  ghost predicate IsSpaceRun(ws: seq<World>, calls: seq<SpaceCall>, results: seq<Word>) {
    && |ws| == |calls| + 1 && |results| == |calls|
    && forall k :: 0 <= k < |calls| ==> SpaceDoes(ws[k], calls[k], ws[k + 1], results[k])
  }

  ghost function FamilyAfter(a: Family, calls: seq<SpaceCall>): (a': Family)
    requires AllTotal(a)
    ensures AllTotal(a')
  {
    if calls == [] then a
    else
      var b, last := FamilyAfter(a, calls[..|calls| - 1]), calls[|calls| - 1];
      FamilyCall(b, last).0
  }

  lemma AfterOneMore(a: Family, calls: seq<SpaceCall>, k: nat, k': nat)
    requires AllTotal(a) && k < |calls| && k' == k + 1
    ensures FamilyAfter(a, calls[..k']) == FamilyCall(FamilyAfter(a, calls[..k]), calls[k]).0
  {
    assert calls[..k'][..k] == calls[..k];
  }

  /** The refinement theorem.  In every run of map, unmap, get_phys and update_flags calls on
      any roots, forks, frame allocations and releases, and data stores, all address spaces
      together behave, world by world and result by result, like the family of flat machines. */
  lemma {:induction false} RunRefines(ws: seq<World>, calls: seq<SpaceCall>, results: seq<Word>)
    requires IsSpaceRun(ws, calls, results) && Inv(ws[0])
    ensures forall k :: 0 <= k <= |calls| ==>
              Inv(ws[k]) && FamilyOf(ws[k]) == FamilyAfter(FamilyOf(ws[0]), calls[..k])
    ensures forall k :: 0 <= k < |calls| ==>
              results[k] == FamilyCall(FamilyAfter(FamilyOf(ws[0]), calls[..k]), calls[k]).1
  {
    forall k | 0 <= k <= |calls|
      ensures Inv(ws[k]) && FamilyOf(ws[k]) == FamilyAfter(FamilyOf(ws[0]), calls[..k])
    {
      PrefixRefines(ws, calls, results, k);
    }
    forall k | 0 <= k < |calls|
      ensures results[k] == FamilyCall(FamilyAfter(FamilyOf(ws[0]), calls[..k]), calls[k]).1
    {
      SpaceRefines(ws[k], calls[k], ws[k + 1], results[k]);
    }
  }

  lemma {:induction false} PrefixRefines(ws: seq<World>, calls: seq<SpaceCall>, results: seq<Word>, k: nat)
    requires IsSpaceRun(ws, calls, results) && Inv(ws[0]) && k <= |calls|
    ensures Inv(ws[k]) && FamilyOf(ws[k]) == FamilyAfter(FamilyOf(ws[0]), calls[..k])
  {
    if k > 0 {
      PrefixRefines(ws, calls, results, k - 1);
      SpaceRefines(ws[k - 1], calls[k - 1], ws[k], results[k - 1]);
      AfterOneMore(FamilyOf(ws[0]), calls, k - 1, k);
    }
  }
}
