/** Executables as sys/include/lib/elf.h lays them out, byte by byte: what sys/src/lib/elf.c makes
    of a file in terms of the fields in its headers. */
module ElfFile {
  import opened Words
  import opened Paging
  import opened Forest
  import opened Flat
  import opened Bitmap
  import opened Machines
  import opened Elf

  /** Elf64_Ehdr: `ident` is e_ident, `kind` e_type. */
  datatype Ehdr = Ehdr(ident: seq<Byte>, kind: nat, machine: nat, version: nat, entry: nat, phoff: nat, shoff: nat,
                       flags: nat, ehsize: nat, phentsize: nat, phnum: nat, shentsize: nat, shnum: nat, shstrndx: nat)

  ghost predicate FitsEhdr(h: Ehdr) {
    && |h.ident| == 16 && h.kind < 0x1_0000 && h.machine < 0x1_0000 && h.version < 0x1_0000_0000
    && h.entry < 0x1_0000_0000_0000_0000 && h.phoff < 0x1_0000_0000_0000_0000
    && h.phentsize < 0x1_0000 && h.phnum < 0x1_0000
  }

  /** The 64 bytes of a header, given the sizes of the field types. */
  function EhdrBytes(h: Ehdr, half: nat, word: nat, xword: nat): seq<Byte> {
    h.ident + Little(h.kind, half) + Little(h.machine, half) + Little(h.version, word)
    + Little(h.entry, xword) + Little(h.phoff, xword) + Little(h.shoff, xword)
    + Little(h.flags, word) + Little(h.ehsize, half) + Little(h.phentsize, half) + Little(h.phnum, half)
    + Little(h.shentsize, half) + Little(h.shnum, half) + Little(h.shstrndx, half)
  }

  /** Byte i of a little-endian field is the i-th digit to base 256. */
  lemma {:induction false} LittleDigit(x: nat, n: nat, i: nat)
    requires i < n
    ensures Little(x, n)[i] == x / Pow256(i) % 256
  {
    if i > 0 {
      LittleDigit(x / 256, n - 1, i - 1);
      DivTwice(x, 256, Pow256(i - 1));
    }
  }

  // ---- reading the header ------------------------------------------------------------------------

  lemma HeadFields(s: seq<Byte>, h: Ehdr, half: nat, word: nat, rest: seq<Byte>)
    requires half == 2 && word == 4 && |h.ident| == 16
    requires h.kind < Pow256(half) && h.machine < Pow256(half) && h.version < Pow256(word)
    requires s == h.ident + Little(h.kind, half) + Little(h.machine, half) + Little(h.version, word) + rest
    ensures s[..16] == h.ident && Field(s, 16, half) == h.kind && Field(s, 18, half) == h.machine
    ensures Field(s, 20, word) == h.version
  {
    var a, b, c, d := h.ident, Little(h.kind, half), Little(h.machine, half), Little(h.version, word);
    assert s == a + b + (c + d + rest) && s == a + b + c + (d + rest);
    FieldAt(s, a, h.kind, half, c + d + rest, 16);
    FieldAt(s, a + b, h.machine, half, d + rest, 18);
    FieldAt(s, a + b + c, h.version, word, rest, 20);
  }

  lemma MiddleFields(s: seq<Byte>, pre: seq<Byte>, h: Ehdr, xword: nat, rest: seq<Byte>)
    requires xword == 8 && |pre| == 24 && h.entry < Pow256(xword) && h.phoff < Pow256(xword)
    requires s == pre + Little(h.entry, xword) + Little(h.phoff, xword) + rest
    ensures Field(s, 24, xword) == h.entry && Field(s, 32, xword) == h.phoff
  {
    var a, b := Little(h.entry, xword), Little(h.phoff, xword);
    assert s == pre + a + (b + rest);
    FieldAt(s, pre, h.entry, xword, b + rest, 24);
    FieldAt(s, pre + a, h.phoff, xword, rest, 32);
  }

  lemma TailFields(s: seq<Byte>, pre: seq<Byte>, h: Ehdr, half: nat, rest: seq<Byte>)
    requires half == 2 && |pre| == 54 && h.phentsize < Pow256(half) && h.phnum < Pow256(half)
    requires s == pre + Little(h.phentsize, half) + Little(h.phnum, half) + rest
    ensures Field(s, 54, half) == h.phentsize && Field(s, 56, half) == h.phnum
  {
    var a, b := Little(h.phentsize, half), Little(h.phnum, half);
    assert s == pre + a + (b + rest);
    FieldAt(s, pre, h.phentsize, half, b + rest, 54);
    FieldAt(s, pre + a, h.phnum, half, rest, 56);
  }

  lemma EhdrFields(s: seq<Byte>, h: Ehdr, half: nat, word: nat, xword: nat, post: seq<Byte>)
    requires half == 2 && word == 4 && xword == 8 && |h.ident| == 16
    requires h.kind < Pow256(half) && h.machine < Pow256(half) && h.version < Pow256(word)
    requires h.entry < Pow256(xword) && h.phoff < Pow256(xword)
    requires h.phentsize < Pow256(half) && h.phnum < Pow256(half)
    requires s == EhdrBytes(h, half, word, xword) + post
    ensures |EhdrBytes(h, half, word, xword)| == 64 && s[..16] == h.ident
    ensures Field(s, 16, half) == h.kind && Field(s, 18, half) == h.machine && Field(s, 20, word) == h.version
    ensures Field(s, 24, xword) == h.entry && Field(s, 32, xword) == h.phoff
    ensures Field(s, 54, half) == h.phentsize && Field(s, 56, half) == h.phnum
  {
    var a, b, c, d := h.ident, Little(h.kind, half), Little(h.machine, half), Little(h.version, word);
    var e, f, g := Little(h.entry, xword), Little(h.phoff, xword), Little(h.shoff, xword);
    var i, j, k, l := Little(h.flags, word), Little(h.ehsize, half), Little(h.phentsize, half), Little(h.phnum, half);
    var rest := Little(h.shentsize, half) + Little(h.shnum, half) + Little(h.shstrndx, half);
    LastThree(a + b + c + d + e + f + g + i + j + k + l, Little(h.shentsize, half), Little(h.shnum, half),
              Little(h.shstrndx, half));
    Groups(a, b, c, d, e, f, g, i, j, k, l, rest, post);
    HeadFields(s, h, half, word, e + f + g + i + j + k + l + rest + post);
    MiddleFields(s, a + b + c + d, h, xword, g + i + j + k + l + rest + post);
    TailFields(s, a + b + c + d + e + f + g + i + j, h, half, rest + post);
  }

  lemma LastThree(a: seq<Byte>, b: seq<Byte>, c: seq<Byte>, d: seq<Byte>)
    ensures a + b + c + d == a + (b + c + d)
  {
  }

  lemma Groups(a: seq<Byte>, b: seq<Byte>, c: seq<Byte>, d: seq<Byte>, e: seq<Byte>, f: seq<Byte>, g: seq<Byte>,
               i: seq<Byte>, j: seq<Byte>, k: seq<Byte>, l: seq<Byte>, rest: seq<Byte>, post: seq<Byte>)
    ensures var s := a + b + c + d + e + f + g + i + j + k + l + rest + post;
            && s == a + b + c + d + (e + f + g + i + j + k + l + rest + post)
            && s == (a + b + c + d) + e + f + (g + i + j + k + l + rest + post)
            && s == (a + b + c + d + e + f + g + i + j) + k + l + (rest + post)
  {
  }

  /** The files the loader accepts: magic 7F 'E' 'L' 'F', 64 bits, little endian, ET_EXEC, EM_X86_64,
      EV_CURRENT. */
  ghost predicate Executable(h: Ehdr) {
    && |h.ident| == 16 && h.ident[0] == 0x7F && h.ident[1] == 0x45 && h.ident[2] == 0x4C && h.ident[3] == 0x46
    && h.ident[4] == 2 && h.ident[5] == 1
    && h.kind == 2 && h.machine == 62 && h.version == 1
  }

  lemma StartIs(s: seq<Byte>, ident: seq<Byte>)
    requires |s| >= 64 && |ident| == 16 && s[..16] == ident
    ensures forall k :: 0 <= k < 16 ==> ident[k] == s[k]
  {
  }

  /** Reading the file header undoes its layout, and the loader accepts exactly the executables. */
  lemma EhdrRoundTrip(h: Ehdr, post: seq<Byte>)
    requires FitsEhdr(h)
    ensures var s := EhdrBytes(h, HalfSize(), WordSize(), XwordSize()) + post;
            && |s| == 64 + |post| && Entry(s) == h.entry && PhOff(s) == h.phoff
            && PhEntSize(s) == h.phentsize && PhNum(s) == h.phnum
            && (Accepted(Some(s)) <==> Executable(h))
  {
    var s := EhdrBytes(h, HalfSize(), WordSize(), XwordSize()) + post;
    FieldLimits(HalfSize(), WordSize(), XwordSize());
    EhdrFields(s, h, HalfSize(), WordSize(), XwordSize(), post);
    Decoded(s, h, HalfSize(), WordSize(), XwordSize());
  }

  lemma Decoded(s: seq<Byte>, h: Ehdr, half: nat, word: nat, xword: nat)
    requires half == 2 && word == 4 && xword == 8 && |h.ident| == 16 && |s| >= 64 && s[..16] == h.ident
    requires Field(s, 16, half) == h.kind && Field(s, 18, half) == h.machine && Field(s, 20, word) == h.version
    requires Field(s, 24, xword) == h.entry && Field(s, 32, xword) == h.phoff
    requires Field(s, 54, half) == h.phentsize && Field(s, 56, half) == h.phnum
    ensures Entry(s) == h.entry && PhOff(s) == h.phoff && PhEntSize(s) == h.phentsize && PhNum(s) == h.phnum
    ensures Accepted(Some(s)) <==> Executable(h)
  {
    StartIs(s, h.ident);
  }

  // ---- the whole file ----------------------------------------------------------------------------

  /** An Elf64_Phdr for p stands at offset `at`. */
  ghost predicate PhdrAt(s: seq<Byte>, at: nat, p: Phdr) {
    && FitsPhdr(p) && at + 56 <= |s|
    && exists flags, vaddr, align :: s[at..at + 56] == PhdrBytes(p, flags, vaddr, align, WordSize(), XwordSize())
  }

  /** Where program header k stands. */
  function PhdrPlace(h: Ehdr, k: nat): nat { h.phoff + k * h.phentsize }

  /** The file begins with header h, and the program headers stand where h says. */
  ghost predicate LaidOut(s: seq<Byte>, h: Ehdr, segs: seq<Phdr>) {
    && FitsEhdr(h) && |s| >= 64 && s[..64] == EhdrBytes(h, HalfSize(), WordSize(), XwordSize())
    && h.phnum == |segs|
    && forall k :: 0 <= k < |segs| ==> PhdrAt(s, PhdrPlace(h, k), segs[k])
  }

  lemma PhdrFound(s: seq<Byte>, at: nat, p: Phdr)
    requires PhdrAt(s, at, p)
    ensures ReadPhdr(s, at) == p
  {
    var flags, vaddr, align :| s[at..at + 56] == PhdrBytes(p, flags, vaddr, align, WordSize(), XwordSize());
    ThreeParts(s, at, at + 56);
    PhdrRoundTrip(s[..at], p, flags, vaddr, align, s[at + 56..]);
  }

  lemma ThreeParts(s: seq<Byte>, i: nat, j: nat)
    requires i <= j <= |s|
    ensures s == s[..i] + s[i..j] + s[j..]
  {
  }

  lemma {:induction false} PhdrOffsetIs(s: seq<Byte>, h: Ehdr, k: nat)
    requires PhOff(s) == h.phoff && PhEntSize(s) == h.phentsize
    ensures PhdrOffset(s, k) == PhdrPlace(h, k)
  {
    if k > 0 {
      PhdrOffsetIs(s, h, k - 1);
      OneMoreTime(k, h.phentsize);
    }
  }

  lemma OneMoreTime(k: nat, n: nat)
    requires k > 0
    ensures k * n == (k - 1) * n + n
  {
  }

  /** The fields of a laid-out file are read as they were written. */
  lemma LaidOutFields(s: seq<Byte>, h: Ehdr, segs: seq<Phdr>)
    requires LaidOut(s, h, segs)
    ensures Entry(s) == h.entry && PhOff(s) == h.phoff && PhEntSize(s) == h.phentsize && PhNum(s) == h.phnum
    ensures Accepted(Some(s)) <==> Executable(h)
    ensures Phdrs(s) == segs
  {
    assert s == s[..64] + s[64..];
    EhdrRoundTrip(h, s[64..]);
    forall k | 0 <= k < |segs| ensures Phdrs(s)[k] == segs[k] {
      PhdrOffsetIs(s, h, k);
      PhdrFound(s, PhdrPlace(h, k), segs[k]);
    }
  }

  // ---- the loaded image --------------------------------------------------------------------------

  /** Byte k of page p is b: the present leaf's frame, the word in it, the byte in that. */
  ghost predicate ByteInPage(mem: seq<Frame>, r: nat, p: Page, k: nat, b: nat) {
    var e := Leaf(mem, r, p);
    var f := e / 4096 % 0x100_0000_0000;
    e % 2 == 1 && f < |mem| && k < 4096 && ByteOf(mem[f][k / 8], k % 8) == b
  }

  /** The virtual address v leads to a byte b. */
  ghost predicate ByteThere(mem: seq<Frame>, r: nat, v: nat, b: nat) {
    v < WORD_LIMIT && ByteInPage(mem, r, PageOf(v), v % 4096, b)
  }

  lemma ReadsIsThere(w: World, r: nat, v: nat, b: Byte, b': nat)
    requires v < WORD_LIMIT && Reads(w, r, v, b)
    ensures ByteThere(w.mem, r, v, b') <==> b' == b
  {
    PageOfIsPageAt(v);
    HeldByte(w, r, PageAtAddr(v), OffsetAt(v), b, b');
  }

  lemma HeldByte(w: World, r: nat, p: Page, k: nat, b: Byte, b': nat)
    requires Holds(w, r, p, k, b)
    ensures ByteInPage(w.mem, r, p, k, b') <==> b' == b
  {
  }

  ghost predicate ByteBack(mem: seq<Frame>, r: nat, s: seq<Byte>, seg: Phdr, i: nat)
    requires seg.offset + seg.filesz <= |s|
  {
    ByteThere(mem, r, seg.paddr + i, if i < seg.filesz then s[seg.offset + i] else 0)
  }

  /** The segment's bytes are the file's, then zeros. */
  ghost predicate ReadsBack(mem: seq<Frame>, r: nat, s: seq<Byte>, seg: Phdr)
    requires seg.offset + seg.filesz <= |s|
  {
    forall i :: 0 <= i < seg.memsz ==> ByteBack(mem, r, s, seg, i)
  }

  /** A segment reads back if and only if it is intact in the image computed from the file. */
  lemma IntactReadsBack(w: World, r: nat, s: seq<Byte>, segs: seq<Phdr>, n: nat, j: nat)
    requires n == |segs| && Imaged(w, r, s, segs, n) && j < n && segs[j].kind == PT_LOAD && GoodSegment(s, segs[j])
    ensures ReadsBack(w.mem, r, s, segs[j]) <==> Intact(s, segs, j)
  {
    forall i | 0 <= i < segs[j].memsz ensures ByteBack(w.mem, r, s, segs[j], i) <==> IntactByte(s, segs, j, i) {
      ByteBackWhen(w, r, s, segs, n, j, i, segs[j].paddr + i);
    }
  }

  lemma ByteBackWhen(w: World, r: nat, s: seq<Byte>, segs: seq<Phdr>, n: nat, j: nat, i: nat, v: nat)
    requires n == |segs| && Imaged(w, r, s, segs, n) && j < n && segs[j].kind == PT_LOAD && GoodSegment(s, segs[j])
    requires i < segs[j].memsz && v == segs[j].paddr + i
    ensures ByteBack(w.mem, r, s, segs[j], i) <==> IntactByte(s, segs, j, i)
  {
    SegmentMaps(segs[j], i);
    SegmentAddress(s, segs[j], i);
    ImageKnown(s, segs, n, j, v);
    assert ImagedAt(w, r, s, segs, n, v);
    ReadsIsThere(w, r, v, ImageAt(s, segs, n, v).value, Expected(s, segs[j], segs[j].filesz, i));
  }

  /** `elf_load` on a laid-out file: it returns e_entry, or NULL for a file it does not accept.  A
      PT_LOAD segment reads back if and only if it is intact, and in ascending order every one does. */
  method LoadFile(m: Machine, s: seq<Byte>, ghost h: Ehdr, ghost segs: seq<Phdr>) returns (entry: nat)
    requires m.Valid() && m.Synced() && LaidOut(s, h, segs)
    requires Executable(h) ==>
               && h.phentsize >= 56 && PhdrPlace(h, h.phnum) <= |s| && PhdrPlace(h, h.phnum) - h.phoff < 0x8000_0000
               && AllGood(s, segs) && HasFrames(m, segs)
    modifies m.ram, m`tabs, m`tlb, m`stale
    ensures m.Valid() && m.Synced()
    ensures !Executable(h) ==> entry == 0 && m.ram[..] == old(m.ram[..])
    ensures Executable(h) ==> entry == h.entry
    ensures Executable(h) ==>
              forall j :: 0 <= j < |segs| && segs[j].kind == 1 ==>
                && segs[j].offset + segs[j].filesz <= |s|
                && (ReadsBack(m.ram[..], m.cr3 / 4096, s, segs[j]) <==> Intact(s, segs, j))
                && (Ascending(segs) ==> ReadsBack(m.ram[..], m.cr3 / 4096, s, segs[j]))
  {
    LaidOutFields(s, h, segs);
    PhdrOffsetIs(s, h, h.phnum);
    entry := ElfLoad(m, Some(s));
    if Executable(h) {
      AllReadBack(m.State(), m.cr3 / 4096, s, segs, |segs|);
    }
  }

  lemma AllReadBack(w: World, r: nat, s: seq<Byte>, segs: seq<Phdr>, n: nat)
    requires n == |segs| && Imaged(w, r, s, segs, n) && AllGood(s, segs)
    ensures forall j :: 0 <= j < |segs| && segs[j].kind == PT_LOAD ==>
              && segs[j].offset + segs[j].filesz <= |s|
              && (ReadsBack(w.mem, r, s, segs[j]) <==> Intact(s, segs, j))
              && (Ascending(segs) ==> ReadsBack(w.mem, r, s, segs[j]))
  {
    forall j | 0 <= j < n && segs[j].kind == PT_LOAD
      ensures segs[j].offset + segs[j].filesz <= |s|
      ensures ReadsBack(w.mem, r, s, segs[j]) <==> Intact(s, segs, j)
      ensures Ascending(segs) ==> ReadsBack(w.mem, r, s, segs[j])
    {
      IntactReadsBack(w, r, s, segs, n, j);
      if Ascending(segs) { AscendingIntact(s, segs, j); }
    }
  }
}
