/** sys/src/mm/heap.c: the kernel heap, a list of block headers in raw memory. */
module Heap {
  import opened Words
  import opened Bitmap

  const MAGIC: nat := 0xCA7F00D
  const FREE: nat := 1

  /** sizeof(heapblk_t) */
  const HEADER: nat := 24

  // ---- raw memory --------------------------------------------------------------------------------

  /** Memory by 8-byte words; words never stored hold an unknown value, here 0. */
  type Memory = map<nat, Word>

  function Load(mem: Memory, a: nat): Word {
    if a in mem then mem[a] else 0
  }

  function LoadByte(mem: Memory, a: nat): Byte {
    ByteOf(Load(mem, a / 8 * 8), a % 8)
  }

  function StoreByte(mem: Memory, a: nat, b: Byte): Memory {
    mem[a / 8 * 8 := PutWordByte(Load(mem, a / 8 * 8), a % 8, b)]
  }

  lemma LoadStored(mem: Memory, a: nat, b: Byte, x: nat)
    ensures LoadByte(StoreByte(mem, a, b), x) == if x == a then b else LoadByte(mem, x)
  {
    ByteOfPut(Load(mem, a / 8 * 8), a % 8, b, x % 8);
    if x / 8 * 8 == a / 8 * 8 {
      assert x == a <==> x % 8 == a % 8;
    }
  }

  // ---- headers: the magic in 32 bits, the state in the bit above, then size and next --------------

  /** A 32-bit load, from four bytes in a row wherever they lie. */
  function Quad(b0: Byte, b1: Byte, b2: Byte, b3: Byte): nat {
    b0 + 0x100 * b1 + 0x1_0000 * b2 + 0x100_0000 * b3
  }

  function Magic(mem: Memory, a: nat): nat {
    Quad(LoadByte(mem, a), LoadByte(mem, a + 1), LoadByte(mem, a + 2), LoadByte(mem, a + 3))
  }

  /** The same at the top of the address space, where the next byte is at 0. */
  function MagicAt(mem: Memory, a: Word): nat {
    Quad(LoadByte(mem, a), LoadByte(mem, Wrap64(a + 1)),
         LoadByte(mem, Wrap64(a + 2)), LoadByte(mem, Wrap64(a + 3)))
  }

  function MagicWord(mem: Memory, a: nat): nat { Load(mem, a) % 0x1_0000_0000 }

  lemma QuadOfWord(w: Word)
    ensures Quad(ByteOf(w, 0), ByteOf(w, 1), ByteOf(w, 2), ByteOf(w, 3)) == w % 0x1_0000_0000
  {
    var w1 := w / 256;
    var w2 := w1 / 256;
    var w3 := w2 / 256;
    assert w == 256 * w1 + w % 256 && w1 == 256 * w2 + w1 % 256 && w2 == 256 * w3 + w2 % 256;
    var low := w % 256 + 0x100 * (w1 % 256) + 0x1_0000 * (w2 % 256) + 0x100_0000 * (w3 % 256);
    DivUnique(w, 0x1_0000_0000, w3 / 256, low);
  }

  /** In a header, which is aligned, the four bytes are the low half of its first word. */
  lemma MagicIsWord(mem: Memory, a: nat)
    requires a % 8 == 0
    ensures Magic(mem, a) == MagicWord(mem, a)
    ensures a + 8 <= WORD_LIMIT ==> MagicAt(mem, a) == Magic(mem, a)
  {
    QuadOfWord(Load(mem, a));
    assert (a + 1) / 8 == a / 8 && (a + 2) / 8 == a / 8 && (a + 3) / 8 == a / 8;
    assert (a + 1) % 8 == 1 && (a + 2) % 8 == 2 && (a + 3) % 8 == 3;
  }

  function StateOf(mem: Memory, a: nat): nat { Load(mem, a) / 0x1_0000_0000 % 2 }
  function Size(mem: Memory, a: nat): Word { Load(mem, a + 8) }
  function Next(mem: Memory, a: nat): Word { Load(mem, a + 16) }

  function SetMagic(w: Word): (r: Word)
    ensures r % 0x1_0000_0000 == 0xCA7F00D && r / 0x1_0000_0000 == w / 0x1_0000_0000
  {
    w / 0x1_0000_0000 * 0x1_0000_0000 + MAGIC
  }

  function SetUsed(w: Word): (r: Word)
    ensures r / 0x1_0000_0000 % 2 == 0
    ensures r / 0x2_0000_0000 == w / 0x2_0000_0000 && r % 0x1_0000_0000 == w % 0x1_0000_0000
  {
    if w / 0x1_0000_0000 % 2 == 1 then w - 0x1_0000_0000 else w
  }

  function SetFree(w: Word): (r: Word)
    ensures r / 0x1_0000_0000 % 2 == FREE
    ensures r / 0x2_0000_0000 == w / 0x2_0000_0000 && r % 0x1_0000_0000 == w % 0x1_0000_0000
  {
    if w / 0x1_0000_0000 % 2 == 1 then w else w + 0x1_0000_0000
  }

  /** The header stores of `kmalloc` and `create_heap`: size, next, state, magic. */
  function PutHeader(mem: Memory, a: nat, size: Word): Memory {
    mem[a + 8 := size][a + 16 := 0][a := SetMagic(SetUsed(Load(mem, a)))]
  }

  /** `DATA_START(block)`, and the header that `kfree` supposes in front of a pointer. */
  function DataStart(a: Word): Word {
    if a + HEADER < WORD_LIMIT then a + HEADER else a + HEADER - WORD_LIMIT
  }

  function HeaderOf(ptr: Word): (a: Word)
    ensures DataStart(a) == ptr
  {
    if ptr >= HEADER then ptr - HEADER else ptr + WORD_LIMIT - HEADER
  }

  ghost predicate HeaderIs(mem: Memory, a: nat, size: nat, next: nat) {
    MagicWord(mem, a) == MAGIC && StateOf(mem, a) != FREE && Size(mem, a) == size && Next(mem, a) == next
  }

  lemma HeaderPut(mem: Memory, a: nat, size: Word)
    ensures HeaderIs(PutHeader(mem, a, size), a, size, 0)
    ensures forall x :: x != a && x != a + 8 && x != a + 16 ==> Load(PutHeader(mem, a, size), x) == Load(mem, x)
  {
  }

  /** A header byte by byte: the magic little-endian, the state bit, then size and next. */
  lemma HeaderBytes(mem: Memory, a: nat, size: nat, next: nat)
    requires HeaderIs(mem, a, size, next) && a % 8 == 0
    ensures LoadByte(mem, a) == 0x0D && LoadByte(mem, a + 1) == 0xF0
    ensures LoadByte(mem, a + 2) == 0xA7 && LoadByte(mem, a + 3) == 0x0C
    ensures Load(mem, a) / 0x1_0000_0000 % 2 == 0
    ensures Load(mem, a + 8) == size && Load(mem, a + 16) == next
  {
    MagicIsWord(mem, a);
    QuadUnique(LoadByte(mem, a), LoadByte(mem, a + 1), LoadByte(mem, a + 2), LoadByte(mem, a + 3),
               0x0D, 0xF0, 0xA7, 0x0C);
  }

  lemma QuadUnique(a: Byte, b: Byte, c: Byte, d: Byte, a': Byte, b': Byte, c': Byte, d': Byte)
    requires Quad(a, b, c, d) == Quad(a', b', c', d')
    ensures a == a' && b == b' && c == c' && d == d'
  {
  }

  /** Pointer and header are 24 bytes apart, round the top of the address space. */
  lemma HeaderBefore(ptr: Word)
    ensures HeaderOf(ptr) == (ptr - 24) % 0x1_0000_0000_0000_0000
    ensures DataStart(ptr) == (ptr + 24) % 0x1_0000_0000_0000_0000
  {
  }

  // ---- the layout ---------------------------------------------------------------------------------

  function Sum(sizes: seq<nat>): nat {
    if sizes == [] then 0 else Sum(sizes[..|sizes| - 1]) + sizes[|sizes| - 1]
  }

  /** Where header i sits: the blocks are 24 times their size apart. */
  function Addr(start: nat, sizes: seq<nat>, i: nat): nat
    requires i <= |sizes|
  {
    start + 24 * i + 24 * Sum(sizes[..i])
  }

  lemma AddrStep(start: nat, sizes: seq<nat>, i: nat)
    requires i < |sizes|
    ensures Addr(start, sizes, i + 1) == Addr(start, sizes, i) + HEADER + 24 * sizes[i]
  {
    assert sizes[..i + 1][..i] == sizes[..i];
  }

  lemma {:induction false} AddrIncreases(start: nat, sizes: seq<nat>, i: nat, j: nat)
    requires i < j <= |sizes|
    ensures Addr(start, sizes, i) + HEADER + 24 * sizes[i] <= Addr(start, sizes, j)
    decreases j
  {
    AddrStep(start, sizes, j - 1);
    if i < j - 1 { AddrIncreases(start, sizes, i, j - 1); }
  }

  lemma AddrAppend(start: nat, sizes: seq<nat>, size: nat, i: nat)
    requires i <= |sizes|
    ensures Addr(start, sizes + [size], i) == Addr(start, sizes, i)
  {
    assert (sizes + [size])[..i] == sizes[..i];
  }

  lemma SumAppend(sizes: seq<nat>, size: nat)
    ensures Sum(sizes + [size]) == Sum(sizes) + size
  {
  }

  /** The list as it stands in memory: header i holds sizes[i] and points to header i + 1. */
  ghost predicate Chained(mem: Memory, start: nat, sizes: seq<nat>) {
    && sizes != [] && sizes[0] == 0 && start > 0 && start % 8 == 0
    && (forall i :: 1 <= i < |sizes| ==> sizes[i] > 0)
    && (forall i :: 0 <= i < |sizes| ==> HeaderAt(mem, start, sizes, i))
  }

  ghost predicate HeaderAt(mem: Memory, start: nat, sizes: seq<nat>, i: nat)
    requires i < |sizes|
  {
    HeaderIs(mem, Addr(start, sizes, i), sizes[i], if i + 1 < |sizes| then Addr(start, sizes, i + 1) else 0)
  }

  lemma MagicInHeader(mem: Memory, start: nat, sizes: seq<nat>, i: nat)
    requires Chained(mem, start, sizes) && i < |sizes|
    ensures Magic(mem, Addr(start, sizes, i)) == MAGIC
    ensures Addr(start, sizes, i) + HEADER <= WORD_LIMIT ==> MagicAt(mem, Addr(start, sizes, i)) == MAGIC
  {
    assert HeaderAt(mem, start, sizes, i);
    AddrAligned(start, sizes, i);
    MagicIsWord(mem, Addr(start, sizes, i));
  }

  /** Byte x lies in the header, or in the data, of block i. */
  ghost predicate InHeader(start: nat, sizes: seq<nat>, i: nat, x: nat)
    requires i < |sizes|
  {
    Addr(start, sizes, i) <= x < Addr(start, sizes, i) + HEADER
  }

  ghost predicate InData(start: nat, sizes: seq<nat>, i: nat, x: nat)
    requires i < |sizes|
  {
    Addr(start, sizes, i) + HEADER <= x < Addr(start, sizes, i) + HEADER + sizes[i]
  }

  /** Headers and data ranges of all blocks are pairwise disjoint. */
  lemma RangesDisjoint(start: nat, sizes: seq<nat>, i: nat, j: nat, x: nat)
    requires i < |sizes| && j < |sizes|
    ensures !(InHeader(start, sizes, i, x) && InData(start, sizes, j, x))
    ensures i != j ==> !(InHeader(start, sizes, i, x) && InHeader(start, sizes, j, x))
    ensures i != j ==> !(InData(start, sizes, i, x) && InData(start, sizes, j, x))
  {
    if i < j {
      AddrIncreases(start, sizes, i, j);
    } else if j < i {
      AddrIncreases(start, sizes, j, i);
    }
  }

  lemma {:induction false} AddrAligned(start: nat, sizes: seq<nat>, i: nat)
    requires start % 8 == 0 && i <= |sizes|
    ensures Addr(start, sizes, i) % 8 == 0
  {
  }

  /** The word of a byte of block j's data holds no part of any header. */
  lemma DataWordNoHeader(start: nat, sizes: seq<nat>, i: nat, j: nat, x: nat)
    requires start % 8 == 0 && i < |sizes| && j < |sizes| && InData(start, sizes, j, x)
    ensures var a := Addr(start, sizes, i); x / 8 * 8 !in {a, a + 8, a + 16}
  {
    AddrAligned(start, sizes, i);
    AddrAligned(start, sizes, j);
    if i < j {
      AddrIncreases(start, sizes, i, j);
    } else if j < i {
      AddrIncreases(start, sizes, j, i);
    }
  }

  /** A client's store into its own block leaves the list intact. */
  lemma ClientStoreKeeps(mem: Memory, start: nat, sizes: seq<nat>, j: nat, x: nat, b: Byte)
    requires Chained(mem, start, sizes) && j < |sizes| && InData(start, sizes, j, x)
    ensures Chained(StoreByte(mem, x, b), start, sizes)
  {
    forall i | 0 <= i < |sizes| ensures HeaderAt(StoreByte(mem, x, b), start, sizes, i) {
      assert HeaderAt(mem, start, sizes, i);
      DataWordNoHeader(start, sizes, i, j, x);
    }
  }

  /** Memory after `kmalloc` has made a block behind the last one. */
  function Appended(mem: Memory, start: nat, sizes: seq<nat>, size: Word): Memory
    requires sizes != [] && Addr(start, sizes, |sizes|) < WORD_LIMIT
  {
    PutHeader(mem[Addr(start, sizes, |sizes| - 1) + 16 := Addr(start, sizes, |sizes|)], Addr(start, sizes, |sizes|),
          size)
  }

  /** Appending a block: the old last header gets its next pointer, the others stay. */
  lemma AppendKeepsHeader(mem: Memory, start: nat, sizes: seq<nat>, size: Word, i: nat)
    requires Chained(mem, start, sizes) && size > 0 && Addr(start, sizes, |sizes|) < WORD_LIMIT && i < |sizes|
    ensures HeaderAt(Appended(mem, start, sizes, size), start, sizes + [size], i)
  {
    var n := |sizes|;
    assert HeaderAt(mem, start, sizes, i);
    AddrAppend(start, sizes, size, i);
    AddrAppend(start, sizes, size, i + 1);
    AddrIncreases(start, sizes, i, n);
    if i < n - 1 { AddrIncreases(start, sizes, i, n - 1); }
    AppendHeader(mem, Appended(mem, start, sizes, size), Addr(start, sizes, i), Addr(start, sizes, n - 1),
                 Addr(start, sizes, n), sizes[i], size, if i + 1 < n then Addr(start, sizes, i + 1) else 0);
  }

  lemma AppendKeeps(mem: Memory, start: nat, sizes: seq<nat>, size: Word)
    requires Chained(mem, start, sizes) && size > 0 && Addr(start, sizes, |sizes|) < WORD_LIMIT
    ensures Chained(Appended(mem, start, sizes, size), start, sizes + [size])
  {
    var mem', n := Appended(mem, start, sizes, size), |sizes|;
    assert HeaderAt(mem', start, sizes + [size], n) by {
      AddrAppend(start, sizes, size, n);
      HeaderPut(mem[Addr(start, sizes, n - 1) + 16 := Addr(start, sizes, n)], Addr(start, sizes, n), size);
    }
    forall i | 0 <= i < n ensures HeaderAt(mem', start, sizes + [size], i) {
      AppendKeepsHeader(mem, start, sizes, size, i);
    }
  }

  lemma AppendHeader(mem: Memory, mem': Memory, x: nat, last: nat, a: nat, sz: nat, size: Word, next: nat)
    requires a < WORD_LIMIT && HeaderIs(mem, x, sz, next)
    requires mem' == PutHeader(mem[last + 16 := a], a, size)
    requires x + 24 <= a && (x == last || x + 24 <= last)
    ensures HeaderIs(mem', x, sz, if x == last then a else next)
  {
  }

  /** Appending a block changes no byte of the others' data. */
  lemma AppendKeepsData(mem: Memory, start: nat, sizes: seq<nat>, size: Word, j: nat, x: nat)
    requires start % 8 == 0 && sizes != [] && j < |sizes| && InData(start, sizes, j, x) &&
              Addr(start, sizes, |sizes|) < WORD_LIMIT
    ensures LoadByte(Appended(mem, start, sizes, size), x) == LoadByte(mem, x)
  {
    var last, a := Addr(start, sizes, |sizes| - 1), Addr(start, sizes, |sizes|);
    DataWordNoHeader(start, sizes, |sizes| - 1, j, x);
    AddrIncreases(start, sizes, j, |sizes|);
    AddrAligned(start, sizes, |sizes|);
    HeaderPut(mem[last + 16 := a], a, size);
  }

  /** Byte k counted from a, and from a0 in the other memory. */
  ghost predicate SameByte(mem: Memory, a: nat, mem0: Memory, a0: nat, k: nat) {
    LoadByte(mem, a + k) == LoadByte(mem0, a0 + k)
  }

  lemma CopiedOne(before: Memory, after: Memory, mem0: Memory, ptr: nat, oldPtr: nat, k: nat, b: Byte, size: nat)
    requires after == StoreByte(before, ptr + k, b)
    requires forall l :: 0 <= l < k && l < size ==> SameByte(before, ptr, mem0, oldPtr, l)
    requires k < size ==> b == LoadByte(mem0, oldPtr + k)
    ensures forall l :: 0 <= l < k + 1 && l < size ==> SameByte(after, ptr, mem0, oldPtr, l)
  {
    forall l | 0 <= l < k + 1 && l < size ensures SameByte(after, ptr, mem0, oldPtr, l) {
      assert l < k ==> SameByte(before, ptr, mem0, oldPtr, l);
      LoadStored(before, ptr + k, b, ptr + l);
    }
  }

  ghost predicate SameData(mem: Memory, mem': Memory, start: nat, sizes: seq<nat>) {
    forall j, x :: 0 <= j < |sizes| && InData(start, sizes, j, x) ==> LoadByte(mem', x) == LoadByte(mem, x)
  }

  /** What `kmalloc`'s stores amount to. */
  lemma AppendFacts(mem: Memory, start: nat, sizes: seq<nat>, size: Word)
    requires Chained(mem, start, sizes) && size > 0 && Addr(start, sizes, |sizes|) < WORD_LIMIT
    ensures Chained(Appended(mem, start, sizes, size), start, sizes + [size])
    ensures SameData(mem, Appended(mem, start, sizes, size), start, sizes)
    ensures Addr(start, sizes + [size], |sizes|) == Addr(start, sizes, |sizes|)
    ensures Sum(sizes + [size]) == Sum(sizes) + size
  {
    AppendKeeps(mem, start, sizes, size);
    forall j, x | 0 <= j < |sizes| && InData(start, sizes, j, x)
      ensures LoadByte(Appended(mem, start, sizes, size), x) == LoadByte(mem, x)
    {
      AppendKeepsData(mem, start, sizes, size, j, x);
    }
    AddrAppend(start, sizes, size, |sizes|);
    SumAppend(sizes, size);
  }

  /** Bytes of the newest block are not bytes of an older one. */
  lemma StoreBehind(mem0: Memory, before: Memory, start: nat, sizes0: seq<nat>, newSize: nat, x: nat, b: Byte)
    requires newSize > 0 && SameData(mem0, before, start, sizes0)
    requires InData(start, sizes0 + [newSize], |sizes0|, x)
    ensures SameData(mem0, StoreByte(before, x, b), start, sizes0)
  {
    forall j, y | 0 <= j < |sizes0| && InData(start, sizes0, j, y)
      ensures LoadByte(StoreByte(before, x, b), y) == LoadByte(mem0, y)
    {
      AddrAppend(start, sizes0, newSize, j);
      RangesDisjoint(start, sizes0 + [newSize], j, |sizes0|, y);
      LoadStored(before, x, b, y);
    }
  }

  /** One turn of `krealloc`'s copying loop, from block i into the newest block. */
  lemma CopyFacts(mem: Memory, start: nat, sizes0: seq<nat>, newSize: nat, ptr: nat, oldPtr: nat, k: nat,
                  mem0: Memory, i: nat)
    requires k < newSize && i < |sizes0| && Chained(mem, start, sizes0 + [newSize]) &&
              SameData(mem0, mem, start, sizes0)
    requires ptr == Addr(start, sizes0 + [newSize], |sizes0|) + HEADER && oldPtr == Addr(start, sizes0, i) + HEADER
    requires forall l :: 0 <= l < k && l < sizes0[i] ==> SameByte(mem, ptr, mem0, oldPtr, l)
    ensures var mem' := StoreByte(mem, ptr + k, LoadByte(mem, oldPtr + k));
            && Chained(mem', start, sizes0 + [newSize]) && SameData(mem0, mem', start, sizes0)
            && forall l :: 0 <= l < k + 1 && l < sizes0[i] ==> SameByte(mem', ptr, mem0, oldPtr, l)
  {
    var b := LoadByte(mem, oldPtr + k);
    assert InData(start, sizes0 + [newSize], |sizes0|, ptr + k);
    ClientStoreKeeps(mem, start, sizes0 + [newSize], |sizes0|, ptr + k, b);
    StoreBehind(mem0, mem, start, sizes0, newSize, ptr + k, b);
    assert k < sizes0[i] ==> InData(start, sizes0, i, oldPtr + k);
    CopiedOne(mem, StoreByte(mem, ptr + k, b), mem0, ptr, oldPtr, k, b, sizes0[i]);
  }

  /** The next pointers are the same. */
  ghost predicate SameLinks(mem: Memory, mem': Memory, start: nat, sizes: seq<nat>) {
    forall i :: 0 <= i < |sizes| ==> SameLink(mem, mem', start, sizes, i)
  }

  ghost predicate SameLink(mem: Memory, mem': Memory, start: nat, sizes: seq<nat>, i: nat)
    requires i < |sizes|
  {
    Next(mem', Addr(start, sizes, i)) == Next(mem, Addr(start, sizes, i))
  }

  function Freed(mem: Memory, a: nat): Memory {
    mem[a := SetFree(Load(mem, a))]
  }

  lemma FreeKeepsLinks(mem0: Memory, mem: Memory, start: nat, sizes: seq<nat>, j: nat)
    requires j < |sizes| && SameLinks(mem0, mem, start, sizes)
    ensures SameLinks(mem0, Freed(mem, Addr(start, sizes, j)), start, sizes)
  {
    var mem' := Freed(mem, Addr(start, sizes, j));
    forall i | 0 <= i < |sizes| ensures SameLink(mem0, mem', start, sizes, i) {
      assert SameLink(mem0, mem, start, sizes, i);
      if i < j { AddrIncreases(start, sizes, i, j); }
      if j < i { AddrIncreases(start, sizes, j, i); }
    }
  }

  /** Where the data of block i ends. */
  function End(start: nat, sizes: seq<nat>, i: nat): nat
    requires i < |sizes|
  {
    Addr(start, sizes, i) + HEADER + sizes[i]
  }

  /** The budget does not keep blocks inside the mapped region: they lie inside it if and only if
      the headers, 24 times all sizes but the last, and the last size together fit. */
  lemma ContainedWhen(start: nat, sizes: seq<nat>, heapSize: nat)
    requires sizes != []
    ensures (forall i :: 0 <= i < |sizes| ==> End(start, sizes, i) <= start + heapSize) <==>
            24 * |sizes| + 24 * Sum(sizes[..|sizes| - 1]) + sizes[|sizes| - 1] <= heapSize
  {
    var n := |sizes| - 1;
    assert End(start, sizes, n) == start + 24 * |sizes| + 24 * Sum(sizes[..n]) + sizes[n];
    forall i | 0 <= i < n ensures End(start, sizes, i) <= End(start, sizes, n) {
      AddrIncreases(start, sizes, i, n);
    }
  }

  /** Two requests of 2000 bytes are granted from a heap of one page, and the second block's data
      lies far outside it. */
  lemma BudgetDoesNotContain(start: nat)
    ensures var sizes := [0, 2000, 2000];
            Sum(sizes) <= 4096 && End(start, sizes, 2) > start + 11 * 4096
  {
    var sizes := [0, 2000, 2000];
    assert sizes[..2] == [0, 2000] && sizes[..2][..1] == [0] && sizes[..1][..0] == [];
    assert Sum(sizes[..1]) == 0 && Sum(sizes[..2]) == 2000 && Sum(sizes) == 4000;
  }

  // ---- the reference heap ------------------------------------------------------------------------

  datatype State = State(mem: Memory, sizes: seq<nat>)

  datatype Op =
    | Alloc(size: Word)
    | Free(i: nat)
    | Store(i: nat, x: nat, b: Byte)
    | Realloc(i: nat, size: Word)

  /** The budget and the address space have room for another block. */
  ghost predicate Fits(h: State, start: nat, budget: nat, size: nat) {
    size > 0 && Sum(h.sizes) + size <= budget && Addr(start, h.sizes, |h.sizes|) < WORD_LIMIT
  }

  ghost predicate Step(h: State, op: Op, h': State, start: nat, budget: nat) {
    match op
    case Alloc(size) =>
      if h.sizes != [] && Fits(h, start, budget, size)
      then h' == State(Appended(h.mem, start, h.sizes, size), h.sizes + [size])
      else h' == h
    case Free(i) => i < |h.sizes| && h' == h
    case Store(i, x, b) => i < |h.sizes| && InData(start, h.sizes, i, x) && h' == State(StoreByte(h.mem, x, b), h.sizes)
    case Realloc(i, size) =>
      && i < |h.sizes| && (size > 0 ==> Fits(h, start, budget, size))
      && h' == if size == 0 then h else Reallocated(h, start, i, size)
  }

  /** A new block of the given size, filled with that many bytes from block i's data on. */
  function Reallocated(h: State, start: nat, i: nat, size: Word): State
    requires i < |h.sizes| && Addr(start, h.sizes, |h.sizes|) < WORD_LIMIT
  {
    State(Copied(Appended(h.mem, start, h.sizes, size), Addr(start, h.sizes, |h.sizes|) + HEADER,
                 Addr(start, h.sizes, i) + HEADER, size),
          h.sizes + [size])
  }

  /** Memory after n bytes have been copied from `from` to `to`, one after the other. */
  function Copied(mem: Memory, to: nat, from: nat, n: nat): Memory {
    if n == 0 then mem
    else
      var before := Copied(mem, to, from, n - 1);
      StoreByte(before, to + n - 1, LoadByte(before, from + n - 1))
  }

  /** What `krealloc`'s loop leaves, n turns in: the new block begins with the old block's bytes,
      and the data of all older blocks is as it was. */
  lemma {:induction false} CopiedFacts(mem1: Memory, start: nat, sizes0: seq<nat>, newSize: nat, ptr: nat,
                                       oldPtr: nat, mem0: Memory, i: nat, n: nat)
    requires newSize > 0 && i < |sizes0| && Chained(mem1, start, sizes0 + [newSize]) &&
              SameData(mem0, mem1, start, sizes0)
    requires ptr == Addr(start, sizes0 + [newSize], |sizes0|) + HEADER && oldPtr == Addr(start, sizes0, i) + HEADER
    requires n <= newSize
    ensures var mem' := Copied(mem1, ptr, oldPtr, n);
            && Chained(mem', start, sizes0 + [newSize]) && SameData(mem0, mem', start, sizes0)
            && forall l :: 0 <= l < n && l < sizes0[i] ==> SameByte(mem', ptr, mem0, oldPtr, l)
    decreases n
  {
    if n > 0 {
      var k := n - 1;
      CopiedFacts(mem1, start, sizes0, newSize, ptr, oldPtr, mem0, i, k);
      CopyFacts(Copied(mem1, ptr, oldPtr, k), start, sizes0, newSize, ptr, oldPtr, k, mem0, i);
      CopiedNext(mem1, ptr, oldPtr, k, n);
    }
  }

  /** The parts of `krealloc` are one step. */
  lemma ReallocIsStep(h0: State, h1: State, h2: State, start: nat, budget: nat, i: nat, size: Word, ptr: nat,
                      oldPtr: nat)
    requires i < |h0.sizes| && Step(h0, Alloc(size), h1, start, budget) && h1.sizes == h0.sizes + [size]
    requires ptr == Addr(start, h1.sizes, |h0.sizes|) + HEADER && oldPtr == Addr(start, h0.sizes, i) + HEADER
    requires h2 == State(Copied(h1.mem, ptr, oldPtr, size), h1.sizes)
    ensures Step(h0, Realloc(i, size), h2, start, budget)
  {
    assert |h1.sizes| != |h0.sizes|;
    AddrAppend(start, h0.sizes, size, |h0.sizes|);
  }

  lemma CopiedNext(mem: Memory, to: nat, from: nat, k: nat, k': nat)
    requires k' == k + 1
    ensures Copied(mem, to, from, k') ==
            StoreByte(Copied(mem, to, from, k), to + k, LoadByte(Copied(mem, to, from, k), from + k))
  {
  }

  /** Copying into a block leaves the list intact, wherever the bytes come from. */
  lemma {:induction false} CopiedKeeps(mem: Memory, start: nat, sizes: seq<nat>, j: nat, to: nat, from: nat, n: nat)
    requires Chained(mem, start, sizes) && j < |sizes| && to == Addr(start, sizes, j) + HEADER && n <= sizes[j]
    ensures Chained(Copied(mem, to, from, n), start, sizes)
  {
    if n > 0 {
      CopiedKeeps(mem, start, sizes, j, to, from, n - 1);
      var before := Copied(mem, to, from, n - 1);
      ClientStoreKeeps(before, start, sizes, j, to + n - 1, LoadByte(before, from + n - 1));
    }
  }

  // ---- the heap ------------------------------------------------------------------------------------

  class KernelHeap {
    var mem: Memory
    var head: Word
    var tail: Word
    var heapSize: Word
    var bytesAllocated: Word

    const start: nat

    /** The sizes of all blocks ever made, beginning with the empty block of `create_heap`. */
    ghost var sizes: seq<nat>
    ghost var tailIndex: nat

    ghost predicate Valid()
      reads this
    {
      && Chained(mem, start, sizes)
      && Addr(start, sizes, |sizes|) + HEADER < WORD_LIMIT
      && head == Addr(start, sizes, |sizes| - 1)
      && tailIndex < |sizes| && tail == Addr(start, sizes, tailIndex)
      && bytesAllocated == Sum(sizes) <= heapSize
      && start + 48 * (heapSize as int + 1) < WORD_LIMIT
    }

    ghost function View(): State
      reads this
    {
      State(mem, sizes)
    }

    /** `create_heap` after its `mmap`: one empty block at the start of whatever is there. */
    constructor (mem0: Memory, vaddr: Word, nPages: nat)
      requires vaddr > 0 && vaddr % 8 == 0 && vaddr + 48 * (nPages * 4096 + 1) < WORD_LIMIT
      ensures Valid() && sizes == [0] && start == vaddr && heapSize == nPages * 4096 && bytesAllocated == 0
      ensures head == tail == vaddr
    {
      start := vaddr;
      heapSize := nPages * 4096;
      bytesAllocated := 0;
      mem := PutHeader(mem0, vaddr, 0);
      head, tail := vaddr, vaddr;
      sizes, tailIndex := [0], 0;
      new;
      HeaderPut(mem0, vaddr, 0);
      assert sizes[..0] == [] && sizes[..1] == sizes && [0][..0] == [];
      assert HeaderAt(mem, start, sizes, 0);
    }

    /** `first_fit` walks to the end of the list, which has one, and finds no free block. */
    method FirstFit(size: Word) returns (region: nat)
      requires Valid()
      ensures region == 0
    {
      var block: nat := tail;
      ghost var i := tailIndex;
      while block != 0
        invariant i <= |sizes| && (block != 0 ==> i < |sizes|)
        invariant block == if i < |sizes| then Addr(start, sizes, i) else 0
        decreases |sizes| - i
      {
        assert HeaderAt(mem, start, sizes, i);
        if StateOf(mem, block) == FREE && Size(mem, block) >= size {
          return block;
        }
        block := Next(mem, block);
        i := i + 1;
      }
      return 0;
    }

    /** `kmalloc`.  The budget test adds in 64 bits; no ASSERT fires.  Without wrap-around it
        succeeds exactly when the size is positive and the sum of all requests granted so far has
        room for it.  A new block follows the others, and no byte of any block changes.  The heap
        stays valid if and only if a success was one that the sum had room for. */
    method Kmalloc(size: Word) returns (ptr: nat, panicked: bool)
      requires Valid()
      modifies this
      ensures !panicked && heapSize == old(heapSize)
      ensures ptr != 0 <==> size > 0 && Sum(old(sizes)) < heapSize && Wrap64(Sum(old(sizes)) + size) <= heapSize
      ensures Sum(old(sizes)) + size < WORD_LIMIT ==> (ptr != 0 <==> size > 0 && Sum(old(sizes)) + size <= heapSize)
      ensures Valid() <==> (ptr != 0 ==> Sum(old(sizes)) + size <= heapSize)
      ensures ptr != 0 ==> sizes == old(sizes) + [size] && ptr == Addr(start, sizes, |sizes| - 1) + HEADER
      ensures ptr != 0 ==> ptr == start + 24 * |sizes| + 24 * Sum(old(sizes))
      ensures bytesAllocated == if ptr != 0 then Wrap64(old(bytesAllocated) + size) else old(bytesAllocated)
      ensures if ptr != 0 then head == tail == ptr - HEADER else head == old(head) && tail == old(tail)
      ensures Valid() ==> Step(old(View()), Alloc(size), View(), start, heapSize)
      ensures Chained(mem, start, sizes) && SameData(old(mem), mem, start, old(sizes))
    {
      panicked, ptr := false, 0;
      if Wrap64(bytesAllocated + size) > heapSize || size == 0 {
        return;
      }
      MagicsIntact();
      panicked := MagicAt(mem, head) != MAGIC || MagicAt(mem, tail) != MAGIC;
      if panicked {
        return;
      }
      if bytesAllocated >= heapSize {
        return;
      }
      ptr := Grant(size);
    }

    /** The rest of `kmalloc`, once the tests are passed. */
    method Grant(size: Word) returns (ptr: nat)
      requires Valid() && size > 0
      modifies this
      ensures heapSize == old(heapSize) && (Valid() <==> Sum(old(sizes)) + size <= heapSize)
      ensures sizes == old(sizes) + [size] && ptr == Addr(start, sizes, |sizes| - 1) + HEADER
      ensures ptr == start + 24 * |sizes| + 24 * Sum(old(sizes))
      ensures head == tail == ptr - HEADER && bytesAllocated == Wrap64(old(bytesAllocated) + size)
      ensures Valid() ==> Step(old(View()), Alloc(size), View(), start, heapSize)
      ensures Chained(mem, start, sizes) && SameData(old(mem), mem, start, old(sizes))
    {
      var region := FirstFit(size);
      if region == 0 {
        region := AppendBlock(size);
      }
      bytesAllocated := Wrap64(bytesAllocated + size);
      ptr := region + HEADER;
      assert sizes[..|sizes| - 1] == old(sizes);
    }

    lemma MagicsIntact()
      requires Valid()
      ensures MagicAt(mem, head) == MAGIC && MagicAt(mem, tail) == MAGIC
    {
      MagicInHeader(mem, start, sizes, |sizes| - 1);
      MagicInHeader(mem, start, sizes, tailIndex);
      AddrIncreases(start, sizes, |sizes| - 1, |sizes|);
      AddrIncreases(start, sizes, tailIndex, |sizes|);
    }

    lemma RoomForHeader(size: Word)
      requires Valid() && bytesAllocated + size <= heapSize && size > 0
      ensures Addr(start, sizes + [size], |sizes| + 1) + HEADER < WORD_LIMIT
    {
      AtMostBudget(sizes + [size]);
      SumAppend(sizes, size);
      assert (sizes + [size])[..|sizes| + 1] == sizes + [size];
    }

    lemma {:induction false} AtMostBudget(s: seq<nat>)
      requires s != [] && forall i :: 1 <= i < |s| ==> s[i] > 0
      ensures |s| <= Sum(s) + 1
    {
      if |s| > 1 { AtMostBudget(s[..|s| - 1]); }
    }

    /** The branch of `kmalloc` that makes a block behind the last one. */
    method AppendBlock(size: Word) returns (region: nat)
      requires Valid() && size > 0
      modifies this`mem, this`head, this`tail, this`sizes, this`tailIndex
      ensures Chained(mem, start, sizes) && sizes == old(sizes) + [size]
      ensures bytesAllocated + size <= heapSize ==> Addr(start, sizes, |sizes|) + HEADER < WORD_LIMIT
      ensures region == head == tail == Addr(start, sizes, |sizes| - 1) && region > 0
      ensures tailIndex == |sizes| - 1 && Sum(sizes) == bytesAllocated + size
      ensures mem == Appended(old(mem), start, old(sizes), size)
      ensures SameData(old(mem), mem, start, old(sizes))
    {
      LastSize();
      if bytesAllocated + size <= heapSize { RoomForHeader(size); }
      AppendFacts(mem, start, sizes, size);
      region := StoreBlock(size);
      sizes, tailIndex := sizes + [size], |sizes|;
    }

    lemma LastSize()
      requires Valid()
      ensures Size(mem, head) == sizes[|sizes| - 1] && Addr(start, sizes, |sizes|) < WORD_LIMIT
    {
      assert HeaderAt(mem, start, sizes, |sizes| - 1);
    }

    /** The stores themselves. */
    method StoreBlock(size: Word) returns (region: nat)
      requires sizes != [] && head == Addr(start, sizes, |sizes| - 1) && Size(mem, head) == sizes[|sizes| - 1]
      requires start > 0 && Addr(start, sizes, |sizes|) < WORD_LIMIT
      modifies this`mem, this`head, this`tail
      ensures mem == Appended(old(mem), start, sizes, size)
      ensures region == head == tail == Addr(start, sizes, |sizes|) && region > 0
    {
      AddrStep(start, sizes, |sizes| - 1);
      region := head + 24 * Size(mem, head) + HEADER;
      mem := mem[head + 16 := region];
      mem := PutHeader(mem, region, size);
      head, tail := region, region;
    }

    /** a is the address of one of the list's headers. */
    ghost predicate IsBlock(a: nat)
      reads this
    {
      exists i :: 0 <= i < |sizes| && Addr(start, sizes, i) == a
    }

    /** `kfree` of anything.  Its loop ends before the first turn, so no block is ever marked free
        and memory stays as it is; the tail moves to whatever has the magic in front of ptr.  The
        heap stays valid if and only if that is a block. */
    method Kfree(ptr: Word)
      requires Valid()
      modifies this`tail, this`tailIndex, this`mem
      ensures View() == old(View())
      ensures tail == if MagicAt(mem, HeaderOf(ptr)) == MAGIC then HeaderOf(ptr) else old(tail)
      ensures Valid() <==> (MagicAt(mem, HeaderOf(ptr)) == MAGIC ==> IsBlock(HeaderOf(ptr)))
    {
      var region := HeaderOf(ptr);
      if MagicAt(mem, region) != MAGIC {
        return;
      }
      MarkFree(ptr, region, 0);
      MoveTail(region);
    }

    /** `heap_tail = region` */
    method MoveTail(region: Word)
      requires Valid()
      modifies this`tail, this`tailIndex
      ensures tail == region && (Valid() <==> IsBlock(region))
    {
      tail := region;
      if i :| 0 <= i < |sizes| && Addr(start, sizes, i) == region {
        tailIndex := i;
      }
    }

    /** The loop of `kfree`: blocks from the given one up to the block of ptr become free.
        Started at the block of ptr itself, it does nothing. */
    method MarkFree(ptr: Word, region: Word, ghost k: nat)
      requires ptr == DataStart(region)
            || (Chained(mem, start, sizes) && k < |sizes| && region == Addr(start, sizes, k))
      requires Addr(start, sizes, |sizes|) < WORD_LIMIT
      modifies this`mem
      ensures ptr == DataStart(region) ==> mem == old(mem)
      ensures ptr != DataStart(region) ==> SameLinks(old(mem), mem, start, sizes)
    {
      ghost var mem0, j := mem, k;
      var cur := region;
      while cur != 0 && ptr != DataStart(cur)
        invariant ptr == DataStart(region) ==> cur == region && mem == mem0
        invariant ptr != DataStart(region) ==>
                    && j <= |sizes| && cur == (if j < |sizes| then Addr(start, sizes, j) else 0)
                    && SameLinks(mem0, mem, start, sizes)
        decreases |sizes| - j
      {
        assert HeaderAt(mem0, start, sizes, j);
        FreeKeepsLinks(mem0, mem, start, sizes, j);
        mem := Freed(mem, cur);
        assert SameLink(mem0, mem, start, sizes, j);
        cur := Next(mem, cur);
        j := j + 1;
      }
    }

    /** A client's store of one byte into a block it got from `kmalloc`. */
    method ClientStore(x: nat, b: Byte, ghost j: nat)
      requires Valid() && j < |sizes| && InData(start, sizes, j, x)
      modifies this`mem
      ensures Valid() && Step(old(View()), Store(j, x, b), View(), start, heapSize)
    {
      ClientStoreKeeps(mem, start, sizes, j, x, b);
      mem := StoreByte(mem, x, b);
    }

    /** `krealloc` of block i.  The source copies without testing what `kmalloc` returned, so
        the budget must have room unless newSize is 0.  The new block starts with the old
        block's bytes, as many as fit; all other blocks keep theirs. */
    method Krealloc(oldPtr: Word, newSize: Word, ghost i: nat) returns (ptr: nat)
      requires Valid() && i < |sizes| && oldPtr == Addr(start, sizes, i) + HEADER
      requires newSize > 0 ==> Sum(sizes) + newSize <= heapSize
      modifies this
      ensures Valid() && heapSize == old(heapSize)
      ensures Step(old(View()), Realloc(i, newSize), View(), start, heapSize)
      ensures newSize == 0 ==> ptr == 0
      ensures newSize > 0 ==> ptr == Addr(start, sizes, |sizes| - 1) + HEADER
      ensures tail == HeaderOf(oldPtr)
      ensures SameData(old(mem), mem, start, old(sizes))
      ensures forall k :: 0 <= k < newSize && k < old(sizes)[i] ==> SameByte(mem, ptr, old(mem), oldPtr, k)
    {
      ghost var sizes0 := sizes;
      ptr := CopyOut(oldPtr, newSize, i);
      FreeBlock(oldPtr, newSize, i, sizes0);
    }

    /** The new block and what is copied into it. */
    method CopyOut(oldPtr: Word, newSize: Word, ghost i: nat) returns (ptr: nat)
      requires Valid() && i < |sizes| && oldPtr == Addr(start, sizes, i) + HEADER
      requires newSize > 0 ==> Sum(sizes) + newSize <= heapSize
      modifies this
      ensures Valid() && heapSize == old(heapSize)
      ensures Step(old(View()), Realloc(i, newSize), View(), start, heapSize)
      ensures sizes == if newSize == 0 then old(sizes) else old(sizes) + [newSize]
      ensures ptr == if newSize == 0 then 0 else Addr(start, sizes, |old(sizes)|) + HEADER
      ensures SameData(old(mem), mem, start, old(sizes))
      ensures forall k :: 0 <= k < newSize && k < old(sizes)[i] ==> SameByte(mem, ptr, old(mem), oldPtr, k)
    {
      ghost var h0 := View();
      ptr := Reserve(newSize);
      if newSize > 0 {
        CopyBlock(ptr, oldPtr, newSize, i, h0);
      }
    }

    /** `kfree` of block i, which is still there after the call of `kmalloc`. */
    method FreeBlock(ptr: Word, ghost newSize: Word, ghost i: nat, ghost sizes0: seq<nat>)
      requires Valid() && i < |sizes0| && (sizes == sizes0 || sizes == sizes0 + [newSize])
      requires ptr == Addr(start, sizes0, i) + HEADER
      modifies this`tail, this`tailIndex, this`mem
      ensures Valid() && mem == old(mem) && sizes == old(sizes) && tail == HeaderOf(ptr)
    {
      OldAddresses(sizes0, newSize, i, ptr);
      Kfree(ptr);
    }

    /** `kmalloc` with room for the request, or for none. */
    method Reserve(size: Word) returns (ptr: nat)
      requires Valid() && (size > 0 ==> Sum(sizes) + size <= heapSize)
      modifies this
      ensures Valid() && heapSize == old(heapSize)
      ensures size == 0 ==> ptr == 0 && View() == old(View())
      ensures size > 0 ==> sizes == old(sizes) + [size] && ptr == Addr(start, sizes, |old(sizes)|) + HEADER
      ensures Step(old(View()), Alloc(size), View(), start, heapSize)
      ensures SameData(old(mem), mem, start, old(sizes))
    {
      var panicked;
      ptr, panicked := Kmalloc(size);
    }

    /** The copying loop after a successful `kmalloc` in state h0. */
    method CopyBlock(ptr: nat, oldPtr: nat, newSize: Word, ghost i: nat, ghost h0: State)
      requires Valid() && newSize > 0 && i < |h0.sizes| && sizes == h0.sizes + [newSize]
      requires Step(h0, Alloc(newSize), View(), start, heapSize) && SameData(h0.mem, mem, start, h0.sizes)
      requires ptr == Addr(start, sizes, |h0.sizes|) + HEADER && oldPtr == Addr(start, h0.sizes, i) + HEADER
      modifies this`mem
      ensures Valid() && Step(h0, Realloc(i, newSize), View(), start, heapSize)
      ensures SameData(h0.mem, mem, start, h0.sizes)
      ensures forall k :: 0 <= k < newSize && k < h0.sizes[i] ==> SameByte(mem, ptr, h0.mem, oldPtr, k)
    {
      ghost var h1 := View();
      CopyInto(ptr, oldPtr, newSize);
      ReallocIsStep(h0, h1, View(), start, heapSize, i, newSize, ptr, oldPtr);
      CopiedFacts(h1.mem, start, h0.sizes, newSize, ptr, oldPtr, h0.mem, i, newSize);
    }

    /** Block i is still there after the call of `kmalloc`. */
    lemma OldAddresses(sizes0: seq<nat>, newSize: Word, i: nat, ptr: nat)
      requires Chained(mem, start, sizes) && i < |sizes0| && (sizes == sizes0 || sizes == sizes0 + [newSize])
      requires ptr == Addr(start, sizes0, i) + HEADER && ptr < WORD_LIMIT
      ensures i < |sizes| && ptr == Addr(start, sizes, i) + HEADER && MagicAt(mem, ptr - HEADER) == MAGIC
    {
      AddrAppend(start, sizes0, newSize, i);
      MagicInHeader(mem, start, sizes, i);
    }

    /** The copying loop. */
    method CopyInto(ptr: nat, oldPtr: nat, newSize: nat)
      modifies this`mem
      ensures mem == Copied(old(mem), ptr, oldPtr, newSize)
    {
      ghost var mem0 := mem;
      var k := 0;
      while k < newSize
        invariant 0 <= k <= newSize && mem == Copied(mem0, ptr, oldPtr, k)
      {
        CopiedNext(mem0, ptr, oldPtr, k, k + 1);
        mem := StoreByte(mem, ptr + k, LoadByte(mem, oldPtr + k));
        k := k + 1;
      }
    }
  }

  // ---- runs ----------------------------------------------------------------------------------------

  /** Over every run of `kmalloc`, `kfree`, `krealloc` and stores by clients inside their own blocks, the
      list stays whole: every magic intact, no block ever free, each header where the layout
      says, pointing to the next, at a strictly larger address, and the last to null. */
  lemma {:induction false} RunKeepsList(hs: seq<State>, ops: seq<Op>, start: nat, budget: nat, k: nat)
    requires |hs| == |ops| + 1 && k < |hs| && Chained(hs[0].mem, start, hs[0].sizes)
    requires forall i :: 0 <= i < |ops| ==> Step(hs[i], ops[i], hs[i + 1], start, budget)
    ensures Chained(hs[k].mem, start, hs[k].sizes)
    ensures forall i :: 0 <= i < |hs[k].sizes| ==>
              Magic(hs[k].mem, Addr(start, hs[k].sizes, i)) == MAGIC &&
                    StateOf(hs[k].mem, Addr(start, hs[k].sizes, i)) != FREE
    ensures forall i, j :: 0 <= i < j < |hs[k].sizes| ==> Addr(start, hs[k].sizes, i) < Addr(start, hs[k].sizes, j)
  {
    if k > 0 {
      RunKeepsList(hs, ops, start, budget, k - 1);
      StepKeepsList(hs[k - 1], ops[k - 1], hs[k], start, budget);
    }
    forall i | 0 <= i < |hs[k].sizes|
      ensures Magic(hs[k].mem, Addr(start, hs[k].sizes, i)) == MAGIC &&
                StateOf(hs[k].mem, Addr(start, hs[k].sizes, i)) != FREE
    {
      assert HeaderAt(hs[k].mem, start, hs[k].sizes, i);
      MagicInHeader(hs[k].mem, start, hs[k].sizes, i);
    }
    forall i, j | 0 <= i < j < |hs[k].sizes| ensures Addr(start, hs[k].sizes, i) < Addr(start, hs[k].sizes, j) {
      AddrIncreases(start, hs[k].sizes, i, j);
    }
  }

  lemma ReallocKeeps(h: State, start: nat, i: nat, size: Word)
    requires Chained(h.mem, start, h.sizes) && i < |h.sizes| && size > 0 && Addr(start, h.sizes, |h.sizes|) < WORD_LIMIT
    ensures Chained(Reallocated(h, start, i, size).mem, start, h.sizes + [size])
  {
    var n, sizes := |h.sizes|, h.sizes + [size];
    AppendKeeps(h.mem, start, h.sizes, size);
    AddrAppend(start, h.sizes, size, n);
    var to, from := Addr(start, h.sizes, n) + HEADER, Addr(start, h.sizes, i) + HEADER;
    CopiedKeeps(Appended(h.mem, start, h.sizes, size), start, sizes, n, to, from, size);
  }

  lemma StepKeepsList(h: State, op: Op, h': State, start: nat, budget: nat)
    requires Chained(h.mem, start, h.sizes) && Step(h, op, h', start, budget)
    ensures Chained(h'.mem, start, h'.sizes)
  {
    match op
    case Alloc(size) =>
      if Fits(h, start, budget, size) { AppendKeeps(h.mem, start, h.sizes, size); }
    case Free(i) =>
    case Store(i, x, b) => ClientStoreKeeps(h.mem, start, h.sizes, i, x, b);
    case Realloc(i, size) =>
      if size > 0 { ReallocKeeps(h, start, i, size); }
  }
}
