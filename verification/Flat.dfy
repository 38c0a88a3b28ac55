/** The reference machine: one address space as a flat map from pages to entries.

    It knows nothing of frames holding tables.  The only traces of the radix tree are the
    set of index paths for which a table has been created, because creating one costs a
    frame, and the set of free frames itself.  `FlatOf` reads a root of the forest as a flat
    machine, and the lemmas here show that every operation of vmm.c, including those that
    run out of frames half way, commutes with that reading. */
module Flat {
  import opened Words
  import opened Paging
  import opened Forest

  datatype Flat = Flat(pte: imap<Page, Word>, tables: iset<Path>, free: set<nat>)

  ghost predicate Total(a: Flat) {
    forall p: Page :: p in a.pte
  }

  function FlagBits(): Word { 0x8000_0000_0000_0007 }

  // ---- reference operations ----------------------------------------------------------------

  ghost function Min(s: set<nat>): (m: nat)
    requires s != {}
    ensures IsMin(m, s)
  {
    MinExists(s);
    var m :| IsMin(m, s);
    m
  }

  lemma {:induction false} MinExists(s: set<nat>)
    requires s != {}
    ensures exists m :: IsMin(m, s)
  {
    var x :| x in s;
    if s != {x} {
      var rest := s - {x};
      MinExists(rest);
      var m :| IsMin(m, rest);
      var least := if x < m then x else m;
      forall g | g in s ensures least <= g {
        assert g == x || g in rest;
      }
      assert IsMin(least, s);
    } else {
      assert IsMin(x, s);
    }
  }

  /** Make sure the table at `path` exists. */
  ghost function Level(a: Flat, path: Path): (Flat, bool) {
    if path in a.tables then (a, true)
    else if a.free == {} then (a, false)
    else (Flat(a.pte, a.tables + iset{path}, a.free - {Min(a.free)}), true)
  }

  /** Make sure the page table of p exists, level by level; stop at the first failure. */
  ghost function Walk(a: Flat, p: Page): (Flat, bool) {
    var (a3, ok3) := Level(a, Sub(Root, p.i4));
    if !ok3 then (a3, false) else
    var (a2, ok2) := Level(a3, Sub(Sub(Root, p.i4), p.i3));
    if !ok2 then (a2, false) else
    Level(a2, PathOf(p))
  }

  ghost function Map(a: Flat, p: Page, e: Word): Flat {
    var (a', ok) := Walk(a, p);
    if ok then Flat(a'.pte[p := e], a'.tables, a'.free) else a'
  }

  ghost function Unmap(a: Flat, p: Page): Flat {
    Map(a, p, 0)
  }

  ghost function GetPhys(a: Flat, p: Page): (Flat, Word)
    requires Total(a)
  {
    (Walk(a, p).0, 4096 * FrameOf(a.pte[p]))
  }

  function WithFlags(e: Word, flags: Word): (r: Word)
  {
    OrIsWord(AndNotWord(e), flags);
    Or(AndNotWord(e), flags)
  }

  /** `e & ~(0b111 | PTE_NX)` */
  function AndNotWord(e: Word): Word {
    AndNotBound(e, FlagBits());
    AndNot(e, FlagBits())
  }

  ghost function UpdateFlags(a: Flat, p: Page, flags: Word): Flat
    requires Total(a)
  {
    Map(a, p, WithFlags(a.pte[p], flags))
  }

  // ---- reading a root as a flat machine ------------------------------------------------------

  /** The table at a path below root r. */
  function TableAt(mem: seq<Frame>, r: nat, path: Path): Option<nat> {
    match path
    case Root => Some(r)
    case Sub(up, i) =>
      match TableAt(mem, r, up)
      case None => None
      case Some(t) => Child(mem, t, i)
  }

  ghost predicate Reached(w: World, r: nat, path: Path) {
    Depth(path) <= 3 && TableAt(w.mem, r, path).Some?
  }

  ghost function FlatOf(w: World, r: nat): (a: Flat)
    ensures Total(a)
  {
    Flat(imap p: Page :: Leaf(w.mem, r, p), (iset path: Path | Reached(w, r, path)), w.free)
  }

  lemma TableForIsTableAt(mem: seq<Frame>, r: nat, p: Page)
    ensures TableFor(mem, r, p) == TableAt(mem, r, PathOf(p))
  {
    assert TableAt(mem, r, Sub(Root, p.i4)) == Child(mem, r, p.i4);
  }

  lemma {:induction false} TableAtLabelled(w: World, r: nat, path: Path)
    requires Inv(w) && IsRoot(w, r) && Depth(path) <= 3
    ensures var t := TableAt(w.mem, r, path);
            t.Some? ==> t.value in w.tabs && w.tabs[t.value] == path && t.value < |w.mem|
  {
    if path.Sub? {
      TableAtLabelled(w, r, path.up);
    }
  }

  // ---- one level -------------------------------------------------------------------------------

  /** One call of `_get_next_level(t, i)`, returning c. */
  ghost predicate LevelStep(w: World, w': World, t: nat, i: nat, c: Option<nat>) {
    if Child(w.mem, t, i).Some? then w' == w && c == Child(w.mem, t, i)
    else if w.free == {} then w' == w && c == None
    else c.Some? && LinkStep(w, w', t, i, c.value)
  }

  lemma {:induction false} LinkTables(w: World, w': World, r: nat, path: Path, t: nat, i: nat, f: nat, q: Path)
    requires Inv(w) && IsRoot(w, r) && LinkStep(w, w', t, i, f)
    requires TableAt(w.mem, r, path) == Some(t) && Depth(path) < 3 && Depth(q) <= 3
    ensures TableAt(w'.mem, r, q) == if q == Sub(path, i) then Some(f) else TableAt(w.mem, r, q)
    decreases q
  {
    LinkChildren(w, w', t, i, f);
    TableAtLabelled(w, r, path);
    if q.Sub? {
      LinkTables(w, w', r, path, t, i, f, q.up);
      TableAtLabelled(w, r, q.up);
      if q == Sub(path, i) {
        TableNotBelowItself(path, i);
      }
    }
  }

  lemma TableNotBelowItself(path: Path, i: nat)
    ensures path != Sub(path, i)
  {
    assert Depth(Sub(path, i)) == Depth(path) + 1;
  }

  lemma LinkReached(w: World, w': World, r: nat, path: Path, t: nat, i: nat, f: nat)
    requires Inv(w) && IsRoot(w, r) && LinkStep(w, w', t, i, f)
    requires TableAt(w.mem, r, path) == Some(t) && Depth(path) < 3
    ensures FlatOf(w', r).tables == FlatOf(w, r).tables + iset{Sub(path, i)}
    ensures TableAt(w'.mem, r, Sub(path, i)) == Some(f)
  {
    LinkTables(w, w', r, path, t, i, f, Sub(path, i));
    forall q: Path ensures Reached(w', r, q) <==> Reached(w, r, q) || q == Sub(path, i) {
      if Depth(q) <= 3 {
        LinkTables(w, w', r, path, t, i, f, q);
      }
    }
  }

  lemma LinkEntries(w: World, w': World, r: nat, t: nat, i: nat, f: nat)
    requires Inv(w) && IsRoot(w, r) && LinkStep(w, w', t, i, f)
    ensures FlatOf(w', r).pte == FlatOf(w, r).pte
  {
    LinkKeeps(w, w', t, i, f);
  }

  lemma MinUnique(f: nat, s: set<nat>)
    requires IsMin(f, s)
    ensures Min(s) == f
  {
  }

  lemma LevelRefines(w: World, w': World, r: nat, path: Path, t: nat, i: Index, c: Option<nat>)
    requires Inv(w) && IsRoot(w, r)
    requires TableAt(w.mem, r, path) == Some(t) && Depth(path) < 3
    requires LevelStep(w, w', t, i, c)
    ensures Inv(w') && IsRoot(w', r)
    ensures (FlatOf(w', r), c.Some?) == Level(FlatOf(w, r), Sub(path, i))
    ensures c.Some? ==> TableAt(w'.mem, r, Sub(path, i)) == c
  {
    var q := Sub(path, i);
    assert TableAt(w.mem, r, q) == Child(w.mem, t, i);
    assert q in FlatOf(w, r).tables <==> Child(w.mem, t, i).Some?;
    if Child(w.mem, t, i) == None && w.free != {} {
      var f := c.value;
      LinkReached(w, w', r, path, t, i, f);
      LinkEntries(w, w', r, t, i, f);
      MinUnique(f, w.free);
      assert Inv(w') by { LinkInv(w, w', t, i, f); }
    }
  }

  // ---- whole operations -------------------------------------------------------------------------

  /** What a walk may do to frames: some free frames become tables and nothing else moves. */
  ghost predicate Grew(w: World, w': World) {
    && |w'.mem| == |w.mem| && w'.meta == w.meta
    && w'.free <= w.free
    && w'.tabs.Keys == w.tabs.Keys + (w.free - w'.free)
    && Settled(w, w')
    && (forall r :: IsRoot(w', r) ==> IsRoot(w, r))
    && (forall g :: 0 <= g < |w.mem| && g !in w.free && g !in w.tabs && g !in w.meta ==> w'.mem[g] == w.mem[g])
  }

  ghost predicate SameLeaves(w: World, w': World) {
    forall r, p :: IsRoot(w, r) ==> Leaf(w'.mem, r, p) == Leaf(w.mem, r, p)
  }

  /** The three `_get_next_level` calls of a vmm.c function, returning c3, c2 and c. */
  ghost predicate Chain(w: World, w1: World, w2: World, w': World, r: nat, p: Page,
                        c3: Option<nat>, c2: Option<nat>, c: Option<nat>)
  {
    && LevelStep(w, w1, r, p.i4, c3)
    && (if c3.Some? then LevelStep(w1, w2, c3.value, p.i3, c2) else w2 == w1 && c2 == None)
    && (if c2.Some? then LevelStep(w2, w', c2.value, p.i2, c) else w' == w2 && c == None)
  }

  ghost predicate WalkDoes(w: World, w': World, r: nat, p: Page, c: Option<nat>) {
    exists w1: World, w2: World, c3: Option<nat>, c2: Option<nat> :: Chain(w, w1, w2, w', r, p, c3, c2, c)
  }

  /** The store of e that follows a walk, unless the walk failed. */
  ghost predicate StoreAfter(w1: World, w': World, p: Page, c: Option<nat>, e: Word) {
    if c.Some? then WriteStep(w1, w', c.value, p.i1, e) else w' == w1
  }

  ghost predicate StoreDoes(w: World, w': World, r: nat, p: Page, e: Word) {
    exists w1: World, c: Option<nat> :: WalkDoes(w, w1, r, p, c) && StoreAfter(w1, w', p, c, e)
  }

  lemma LevelGrows(w: World, w': World, t: nat, i: nat, c: Option<nat>)
    requires Inv(w) && LevelStep(w, w', t, i, c)
    ensures Inv(w') && Grew(w, w') && SameLeaves(w, w')
  {
    if w' != w {
      LinkKeeps(w, w', t, i, c.value);
      LinkChildren(w, w', t, i, c.value);
    }
  }

  lemma GrewTransitive(w: World, w1: World, w2: World)
    requires Inv(w) && Grew(w, w1) && Grew(w1, w2) && SameLeaves(w, w1) && SameLeaves(w1, w2)
    ensures Grew(w, w2) && SameLeaves(w, w2)
  {
  }

  lemma WalkGrows(w: World, w': World, r: nat, p: Page, c: Option<nat>)
    requires Inv(w) && IsRoot(w, r) && WalkDoes(w, w', r, p, c)
    ensures Inv(w') && IsRoot(w', r) && Grew(w, w') && SameLeaves(w, w')
  {
    var w1: World, w2: World, c3: Option<nat>, c2: Option<nat> :| Chain(w, w1, w2, w', r, p, c3, c2, c);
    LevelGrows(w, w1, r, p.i4, c3);
    if c3.Some? {
      LevelGrows(w1, w2, c3.value, p.i3, c2);
      GrewTransitive(w, w1, w2);
    }
    if c2.Some? {
      LevelGrows(w2, w', c2.value, p.i2, c);
      GrewTransitive(w, w2, w');
    }
    assert IsRoot(w', r);
  }

  /** A walk of the radix tree is a walk of the flat machine: same success, same frames, and
      the page table found is the one responsible for p. */
  lemma WalkRefines(w: World, w': World, r: nat, p: Page, c: Option<nat>)
    requires Inv(w) && IsRoot(w, r) && WalkDoes(w, w', r, p, c)
    ensures (FlatOf(w', r), c.Some?) == Walk(FlatOf(w, r), p)
    ensures TableFor(w'.mem, r, p) == c
  {
    var w1: World, w2: World, c3: Option<nat>, c2: Option<nat> :| Chain(w, w1, w2, w', r, p, c3, c2, c);
    LevelRefines(w, w1, r, Root, r, p.i4, c3);
    if c3.Some? {
      LevelRefines(w1, w2, r, Sub(Root, p.i4), c3.value, p.i3, c2);
      if c2.Some? {
        LevelRefines(w2, w', r, Sub(Sub(Root, p.i4), p.i3), c2.value, p.i2, c);
      }
    }
    TableForIsTableAt(w'.mem, r, p);
  }

  lemma WriteRefines(w: World, w': World, r: nat, p: Page, t: nat, e: Word)
    requires Inv(w) && IsRoot(w, r) && TableFor(w.mem, r, p) == Some(t) && WriteStep(w, w', t, p.i1, e)
    ensures Inv(w') && IsRoot(w', r)
    ensures FlatOf(w', r) == Flat(FlatOf(w, r).pte[p := e], FlatOf(w, r).tables, FlatOf(w, r).free)
  {
    WriteIsExact(w, w', r, p, e);
    WriteTables(w, w', r, t, p.i1, e);
    assert FlatOf(w', r).pte == FlatOf(w, r).pte[p := e];
  }

  /** Storing through the tree is `Map` on the flat machine. */
  lemma StoreRefines(w: World, w': World, r: nat, p: Page, e: Word)
    requires Inv(w) && IsRoot(w, r) && StoreDoes(w, w', r, p, e)
    ensures Inv(w') && IsRoot(w', r)
    ensures FlatOf(w', r) == Map(FlatOf(w, r), p, e)
  {
    var w1: World, c: Option<nat> :| WalkDoes(w, w1, r, p, c) && StoreAfter(w1, w', p, c, e);
    WalkGrows(w, w1, r, p, c);
    WalkRefines(w, w1, r, p, c);
    if c.Some? {
      WriteRefines(w1, w', r, p, c.value, e);
    }
  }

  lemma WriteTables(w: World, w': World, r: nat, t: nat, i: nat, e: Word)
    requires Inv(w) && IsRoot(w, r) && WriteStep(w, w', t, i, e)
    ensures FlatOf(w', r).tables == FlatOf(w, r).tables
  {
    forall q: Path ensures Reached(w', r, q) <==> Reached(w, r, q) {
      if Depth(q) <= 3 { WriteTableAt(w, w', r, t, i, e, q); }
    }
  }

  lemma {:induction false} WriteTableAt(w: World, w': World, r: nat, t: nat, i: nat, e: Word, q: Path)
    requires Inv(w) && IsRoot(w, r) && WriteStep(w, w', t, i, e) && Depth(q) <= 3
    ensures TableAt(w'.mem, r, q) == TableAt(w.mem, r, q)
  {
    if q.Sub? {
      WriteTableAt(w, w', r, t, i, e, q.up);
      TableAtLabelled(w, r, q.up);
    }
  }

  /** Exactness over all address spaces: one page changes, in the spaces sharing its slot,
      and only if the walk succeeded. */
  ghost predicate Stored(w: World, w': World, r: nat, p: Page, e: Word) {
    && Grew(w, w')
    && forall r', q :: IsRoot(w, r') ==>
         Leaf(w'.mem, r', q) ==
         if q == p && TableFor(w'.mem, r, p).Some? && Child(w'.mem, r', p.i4) == Child(w'.mem, r, p.i4) then e
         else Leaf(w.mem, r', q)
  }

  lemma WriteStored(w: World, w1: World, w': World, r: nat, p: Page, t: nat, e: Word)
    requires Inv(w) && IsRoot(w, r) && Inv(w1) && Grew(w, w1) && SameLeaves(w, w1)
    requires TableFor(w1.mem, r, p) == Some(t) && WriteStep(w1, w', t, p.i1, e)
    ensures Inv(w') && Stored(w, w', r, p, e)
  {
    WriteIsExact(w1, w', r, p, e);
    WriteKeeps(w1, w', t, p.i1, e);
    WriteGrew(w, w1, w', t, p.i1, e);
    forall r' | IsRoot(w, r') ensures IsRoot(w1, r') && Child(w'.mem, r', p.i4) == Child(w1.mem, r', p.i4) {
    }
  }

  lemma StoreIsExact(w: World, w': World, r: nat, p: Page, e: Word)
    requires Inv(w) && IsRoot(w, r) && StoreDoes(w, w', r, p, e)
    ensures Inv(w') && Stored(w, w', r, p, e)
  {
    var w1: World, c: Option<nat> :| WalkDoes(w, w1, r, p, c) && StoreAfter(w1, w', p, c, e);
    WalkGrows(w, w1, r, p, c);
    WalkRefines(w, w1, r, p, c);
    if c.Some? {
      WriteStored(w, w1, w', r, p, c.value, e);
    }
  }

  lemma WriteGrew(w: World, w1: World, w': World, t: nat, i: nat, e: Word)
    requires Inv(w) && Grew(w, w1) && Inv(w1) && WriteStep(w1, w', t, i, e)
    ensures Grew(w, w')
  {
  }

  /** Tables exist from the top down, and a page without a page table has no entry. */
  ghost predicate WellFormed(a: Flat) {
    && Total(a)
    && (forall path :: path in a.tables && path.Sub? && path.up.Sub? ==> path.up in a.tables)
    && (forall p: Page :: PathOf(p) !in a.tables ==> a.pte[p] == 0)
  }

  lemma FlatOfWellFormed(w: World, r: nat)
    ensures WellFormed(FlatOf(w, r))
  {
    forall p: Page | PathOf(p) !in FlatOf(w, r).tables ensures Leaf(w.mem, r, p) == 0 {
      DepthOfPage(p);
      TableForIsTableAt(w.mem, r, p);
    }
  }

  lemma DepthOfPage(p: Page)
    ensures Depth(PathOf(p)) == 3
  {
    assert Depth(Sub(Root, p.i4)) == 1;
    assert Depth(Sub(Sub(Root, p.i4), p.i3)) == 2;
  }

  lemma LevelWellFormed(a: Flat, path: Path)
    requires WellFormed(a) && (path.Sub? && path.up.Sub? ==> path.up in a.tables)
    ensures WellFormed(Level(a, path).0) && Level(a, path).0.pte == a.pte
    ensures Level(a, path).1 <==> path in Level(a, path).0.tables
    ensures forall q :: q in a.tables ==> q in Level(a, path).0.tables
    ensures forall q :: q in Level(a, path).0.tables ==> q in a.tables || q == path
  {
  }

  lemma WalkWellFormed(a: Flat, p: Page)
    requires WellFormed(a)
    ensures WellFormed(Walk(a, p).0) && Walk(a, p).0.pte == a.pte
    ensures Walk(a, p).1 <==> PathOf(p) in Walk(a, p).0.tables
  {
    var q3 := Sub(Root, p.i4);
    var q2 := Sub(q3, p.i3);
    LevelWellFormed(a, q3);
    var a3 := Level(a, q3).0;
    PathsDiffer(p);
    if q3 in a3.tables {
      LevelWellFormed(a3, q2);
      if Level(a3, q2).1 {
        LevelWellFormed(Level(a3, q2).0, PathOf(p));
      }
    }
  }

  /** `vmm_unmap_page` leaves 0 at its page and changes no other, even when its walk runs
      out of frames. */
  lemma UnmapLeavesZero(a: Flat, p: Page)
    requires WellFormed(a)
    ensures Unmap(a, p).pte == a.pte[p := 0]
  {
    WalkWellFormed(a, p);
    if !Walk(a, p).1 {
      assert a.pte[p] == 0;
      assert a.pte[p := 0] == a.pte;
    }
  }

  // ---- the price of a walk ---------------------------------------------------------------------

  ghost function Absent(a: Flat, path: Path): nat {
    if path in a.tables then 0 else 1
  }

  /** Number of tables a walk to p has to create. */
  ghost function Missing(a: Flat, p: Page): nat {
    Absent(a, Sub(Root, p.i4)) + Absent(a, Sub(Sub(Root, p.i4), p.i3)) + Absent(a, PathOf(p))
  }

  lemma LevelCost(a: Flat, path: Path)
    ensures var (a', ok) := Level(a, path);
            && (ok <==> Absent(a, path) <= |a.free|)
            && |a'.free| == |a.free| - (if ok then Absent(a, path) else 0)
            && (!ok ==> a'.free == {})
            && (forall q :: q != path ==> Absent(a', q) == Absent(a, q))
  {
  }

  lemma PathsDiffer(p: Page)
    ensures var q3 := Sub(Root, p.i4);
            var q2 := Sub(q3, p.i3);
            q3 != q2 && q3 != PathOf(p) && q2 != PathOf(p)
  {
  }

  /** A walk succeeds exactly when the frames it needs are there, and takes exactly those;
      a failing walk has used up every frame. */
  lemma WalkCost(a: Flat, p: Page)
    ensures Walk(a, p).1 <==> Missing(a, p) <= |a.free|
    ensures Walk(a, p).1 ==> |Walk(a, p).0.free| == |a.free| - Missing(a, p)
    ensures !Walk(a, p).1 ==> Walk(a, p).0.free == {}
  {
    PathsDiffer(p);
    var q3 := Sub(Root, p.i4);
    var q2 := Sub(q3, p.i3);
    LevelCost(a, q3);
    var a3 := Level(a, q3).0;
    if Level(a, q3).1 {
      LevelCost(a3, q2);
      if Level(a3, q2).1 {
        LevelCost(Level(a3, q2).0, PathOf(p));
      }
    }
  }
}
