/** What `vmm_update_flags` makes of an entry, bit by bit. */
module Flags {
  import opened Words
  import opened Paging
  import opened Flat
  import opened Bitmap

  /** `0b111 | PTE_NX` */
  lemma FlagBitsIsOr(s: nat)
    requires s == 63
    ensures Pow2(s) == PTE_NX && Or(7, PTE_NX) == FlagBits()
  {
    Pow2Values();
    assert Pow2(s + 1) == 2 * Pow2(s);
    ShlIsMul(1, s);
    assert Pow2(3) == 8;
    Pow2Mono(3, s);
    OrDisjoint(1, 7, s);
  }

  /** The bits cleared are PRESENT, WRITABLE, USER and NX. */
  lemma FlagBitsAre(k: nat)
    ensures Bit(FlagBits(), k) <==> k < 3 || k == 63
  {
    FlagBitsIsOr(63);
    OrBits(7, PTE_NX, k);
    OneBit(63, k);
    if k > 2 {
      assert Bit(7, k) == Bit(3, k - 1) == Bit(1, k - 2) == Bit(0, k - 3);
      BitZero(k - 3);
    }
  }

  /** The new entry has the argument's bits, and the old entry's except for the four flags. */
  lemma WithFlagsBits(e: Word, flags: Word, k: nat)
    ensures Bit(WithFlags(e, flags), k) <==> Bit(flags, k) || (Bit(e, k) && k > 2 && k != 63)
  {
    OrBits(AndNotWord(e), flags, k);
    AndNotBits(e, FlagBits(), k);
    FlagBitsAre(k);
  }

  lemma FrameOfAndNot(a: Word, b: Word, c: Word, s: nat, n: nat)
    requires c == AndNot(a, b) && s == 12 && n == 40
    ensures FrameOf(c) == AndNot(FrameOf(a), FrameOf(b))
  {
    FrameOfIsLowShr(a, s, n);
    FrameOfIsLowShr(b, s, n);
    FrameOfIsLowShr(c, s, n);
    AndNotShr(a, b, s);
    AndNotLow(Shr(a, s), Shr(b, s), n);
  }

  lemma FrameSurvives(e: Word, mask: Word, c: Word)
    requires FrameOf(mask) == 0 && c == AndNot(e, mask)
    ensures FrameOf(c) == FrameOf(e)
  {
    FrameOfAndNot(e, mask, c, 12, 40);
    AndNotZero(FrameOf(e));
  }

  lemma ClearedKeepsFrame(e: Word)
    ensures FrameOf(AndNotWord(e)) == FrameOf(e)
  {
    FrameSurvives(e, FlagBits(), AndNotWord(e));
  }

  /** An entry whose flags are replaced still points at its frame, and is present exactly when
      the new flags say so. */
  lemma WithFlagsEntry(e: Word, flags: Word)
    ensures FlagsOnly(flags) ==> FrameOf(WithFlags(e, flags)) == FrameOf(e)
    ensures Present(WithFlags(e, flags)) <==> Present(flags)
  {
    WithFlagsFrame(e, AndNotWord(e), flags);
    WithFlagsBits(e, flags, 0);
  }

  lemma WithFlagsFrame(e: Word, c: Word, flags: Word)
    requires c == AndNotWord(e)
    ensures FlagsOnly(flags) ==> FrameOf(WithFlags(e, flags)) == FrameOf(e)
  {
    ClearedKeepsFrame(e);
    OrIsWord(c, flags);
    FrameOfOr(c, flags);
    OrZero(FrameOf(e));
  }

  /** Updating flags does not move a page: `vmm_get_phys` returns the same address afterwards,
      for this page and for every other. */
  lemma UpdateFlagsKeepsPhys(a: Flat, p: Page, flags: Word, q: Page)
    requires Total(a) && FlagsOnly(flags)
    ensures Total(UpdateFlags(a, p, flags))
    ensures FrameOf(UpdateFlags(a, p, flags).pte[q]) == FrameOf(a.pte[q])
    ensures GetPhys(UpdateFlags(a, p, flags), q).1 == GetPhys(a, q).1
  {
    WithFlagsEntry(a.pte[p], flags);
    assert Walk(a, p).0.pte == a.pte;
  }
}
