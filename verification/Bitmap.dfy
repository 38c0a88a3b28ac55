/** The frame bitmap: one bit per frame, kept in bytes of the very memory it manages. */
module Bitmap {
  import opened Words
  import opened Paging
  import opened Forest

  type Byte = b: nat | b < 256

  // ---- bytes of a word, little end first ---------------------------------------------------

  function ByteOf(w: nat, k: nat): Byte
    decreases k
  {
    if k == 0 then w % 256 else ByteOf(w / 256, k - 1)
  }

  function PutByte(w: nat, k: nat, b: Byte): nat
    decreases k
  {
    if k == 0 then w / 256 * 256 + b else PutByte(w / 256, k - 1, b) * 256 + w % 256
  }

  lemma {:induction false} ByteOfPut(w: nat, k: nat, b: Byte, j: nat)
    ensures ByteOf(PutByte(w, k, b), j) == if j == k then b else ByteOf(w, j)
  {
    if k > 0 && j > 0 {
      ByteOfPut(w / 256, k - 1, b, j - 1);
      assert PutByte(w, k, b) / 256 == PutByte(w / 256, k - 1, b);
    } else if k == 0 && j > 0 {
      assert PutByte(w, k, b) / 256 == w / 256;
    }
  }

  function Pow256(n: nat): (p: nat)
    ensures p > 0
  {
    if n == 0 then 1 else 256 * Pow256(n - 1)
  }

  lemma {:induction false} PutByteBound(w: nat, k: nat, b: Byte, n: nat)
    requires k < n && w < Pow256(n)
    ensures PutByte(w, k, b) < Pow256(n)
  {
    if k > 0 {
      PutByteBound(w / 256, k - 1, b, n - 1);
    }
  }

  /** Storing one byte of a word in memory. */
  function PutWordByte(w: Word, k: nat, b: Byte): Word
    requires k < 8
  {
    assert Pow256(8) == WORD_LIMIT;
    PutByteBound(w, k, b, 8);
    PutByte(w, k, b)
  }

  lemma {:induction false} ZeroBytes(w: nat, n: nat)
    requires w < Pow256(n)
    requires forall k: nat :: k < n ==> ByteOf(w, k) == 0
    ensures w == 0
  {
    if n > 0 {
      assert ByteOf(w, 0) == 0;
      forall k: nat | k < n - 1 ensures ByteOf(w / 256, k) == 0 {
        assert ByteOf(w, k + 1) == 0;
      }
      ZeroBytes(w / 256, n - 1);
    }
  }

  // ---- bytes of physical memory, counted from a frame --------------------------------------

  /** Byte k of the region that starts at frame `base`. */
  function ReadByte(mem: seq<Frame>, base: nat, k: nat): Byte {
    if base + k / 4096 < |mem| then ByteOf(mem[base + k / 4096][k % 4096 / 8], k % 8) else 0
  }

  function WriteByte(mem: seq<Frame>, base: nat, k: nat, b: Byte): seq<Frame>
    requires base + k / 4096 < |mem|
  {
    var f, i := base + k / 4096, k % 4096 / 8;
    mem[f := mem[f][i := PutWordByte(mem[f][i], k % 8, b)]]
  }

  lemma SameCell(j: nat, k: nat)
    ensures j == k <==> j / 4096 == k / 4096 && j % 4096 / 8 == k % 4096 / 8 && j % 8 == k % 8
  {
  }

  lemma ReadWritten(mem: seq<Frame>, base: nat, k: nat, b: Byte, j: nat)
    requires base + k / 4096 < |mem|
    ensures ReadByte(WriteByte(mem, base, k, b), base, j) == if j == k then b else ReadByte(mem, base, j)
  {
    SameCell(j, k);
    var f, i := base + k / 4096, k % 4096 / 8;
    var mem' := WriteByte(mem, base, k, b);
    if j / 4096 == k / 4096 && j % 4096 / 8 == i {
      ByteOfPut(mem[f][i], k % 8, b, j % 8);
      assert mem'[f][i] == PutWordByte(mem[f][i], k % 8, b);
    } else if base + j / 4096 < |mem| {
      assert mem'[base + j / 4096][j % 4096 / 8] == mem[base + j / 4096][j % 4096 / 8];
    }
  }

  lemma WriteByteFrame(mem: seq<Frame>, base: nat, k: nat, b: Byte)
    requires base + k / 4096 < |mem|
    ensures |WriteByte(mem, base, k, b)| == |mem|
    ensures forall f :: 0 <= f < |mem| && f != base + k / 4096 ==> WriteByte(mem, base, k, b)[f] == mem[f]
  {
  }

  // ---- bits ----------------------------------------------------------------------------------

  /** Bit f of the bitmap whose bytes start at frame `base`. */
  predicate Used(mem: seq<Frame>, base: nat, f: nat) {
    Bit(ReadByte(mem, base, f / 8), f % 8)
  }

  /** Frames whose bit is clear in a bitmap of `size` bytes. */
  function Clear(mem: seq<Frame>, base: nat, size: nat): set<nat> {
    set f: nat | 0 <= f < size * 8 && !Used(mem, base, f)
  }

  /** n frames from `base` on. */
  function FramesFrom(base: nat, n: nat): (s: set<nat>)
    ensures forall g :: g in s <==> base <= g < base + n
  {
    if n == 0 then {} else FramesFrom(base, n - 1) + {base + n - 1}
  }

  /** Frames that hold a bitmap of `size` bytes. */
  function BitmapFrames(base: nat, size: nat): set<nat> {
    FramesFrom(base, size / 4096)
  }

  lemma Pow2Byte(j: nat)
    requires j < 8
    ensures Pow2(j) < 256
  {
    Pow2Mono(j, 7);
    assert Pow2(7) == 128;
  }

  lemma {:induction false} Pow2Mono(i: nat, j: nat)
    requires i <= j
    ensures Pow2(i) <= Pow2(j)
    decreases j
  {
    if i < j { Pow2Mono(i, j - 1); }
  }

  /** `bitmap[bit/8] |= 1 << (bit % 8)`, and with `& ~` in place of `|`. */
  function SetByte(b: Byte, j: nat): Byte
    requires j < 8
  {
    Pow2Byte(j);
    assert Pow2(8) == 256;
    OrBound(b, Pow2(j), 8);
    Or(b, Pow2(j))
  }

  function ClearByte(b: Byte, j: nat): Byte {
    AndNotBound(b, Pow2(j));
    AndNot(b, Pow2(j))
  }

  function SetBit(mem: seq<Frame>, base: nat, f: nat): seq<Frame>
    requires base + f / 8 / 4096 < |mem|
  {
    WriteByte(mem, base, f / 8, SetByte(ReadByte(mem, base, f / 8), f % 8))
  }

  function ClearBit(mem: seq<Frame>, base: nat, f: nat): seq<Frame>
    requires base + f / 8 / 4096 < |mem|
  {
    WriteByte(mem, base, f / 8, ClearByte(ReadByte(mem, base, f / 8), f % 8))
  }

  lemma UsedAfterSet(mem: seq<Frame>, base: nat, f: nat, g: nat)
    requires base + f / 8 / 4096 < |mem|
    ensures Used(SetBit(mem, base, f), base, g) <==> g == f || Used(mem, base, g)
  {
    var b := ReadByte(mem, base, f / 8);
    ReadWritten(mem, base, f / 8, SetByte(b, f % 8), g / 8);
    if g / 8 == f / 8 { OrBit(b, f % 8, g % 8); }
  }

  lemma UsedAfterClear(mem: seq<Frame>, base: nat, f: nat, g: nat)
    requires base + f / 8 / 4096 < |mem|
    ensures Used(ClearBit(mem, base, f), base, g) <==> g != f && Used(mem, base, g)
  {
    var b := ReadByte(mem, base, f / 8);
    ReadWritten(mem, base, f / 8, ClearByte(b, f % 8), g / 8);
    if g / 8 == f / 8 { AndNotBit(b, f % 8, g % 8); }
  }

  lemma ClearElsewhere(mem: seq<Frame>, mem': seq<Frame>, base: nat, size: nat)
    requires |mem'| == |mem| && size % 4096 == 0
    requires forall g :: g in BitmapFrames(base, size) && g < |mem| ==> mem'[g] == mem[g]
    ensures Clear(mem', base, size) == Clear(mem, base, size)
  {
  }

  lemma ClearAfterSet(mem: seq<Frame>, base: nat, size: nat, f: nat)
    requires base + f / 8 / 4096 < |mem|
    ensures Clear(SetBit(mem, base, f), base, size) == Clear(mem, base, size) - {f}
  {
    forall g: nat ensures Used(SetBit(mem, base, f), base, g) <==> g == f || Used(mem, base, g) {
      UsedAfterSet(mem, base, f, g);
    }
  }

  lemma ClearAfterClear(mem: seq<Frame>, base: nat, size: nat, f: nat)
    requires base + f / 8 / 4096 < |mem| && f < size * 8
    ensures Clear(ClearBit(mem, base, f), base, size) == Clear(mem, base, size) + {f}
  {
    forall g: nat ensures Used(ClearBit(mem, base, f), base, g) <==> g != f && Used(mem, base, g) {
      UsedAfterClear(mem, base, f, g);
    }
  }

  // ---- where the bit of a frame is -----------------------------------------------------------------

  lemma {:induction false} ByteIsDiv(w: nat, k: nat)
    ensures ByteOf(w, k) == w / Pow256(k) % 256
  {
    if k > 0 {
      ByteIsDiv(w / 256, k - 1);
      DivTwice(w, 256, Pow256(k - 1));
    }
  }

  lemma DivTwice(v: nat, a: nat, b: nat)
    requires a > 0 && b > 0
    ensures a * b > 0 && v / a / b == v / (a * b)
  {
    var q, r := v / a / b, v / a % b;
    assert v / a == b * q + r;
    assert v == a * (v / a) + v % a;
    calc {
      v;
      a * (b * q + r) + v % a;
      a * b * q + (a * r + v % a);
    }
    MulGap(a, b, r);
    assert a * r + a <= a * b;
    DivUnique(v, a * b, q, a * r + v % a);
  }

  /** Bit j of byte k of a word is bit 8 k + j of the word. */
  lemma {:induction false} BitOfByte(w: nat, k: nat, j: nat)
    requires j < 8
    ensures Bit(ByteOf(w, k), j) <==> Bit(w, 8 * k + j)
  {
    if k == 0 {
      LowByteBit(w, j);
    } else {
      BitOfByte(w / 256, k - 1, j);
      ShiftByte(w, 8 * (k - 1) + j);
    }
  }

  lemma ShiftByte(w: nat, n: nat)
    ensures Bit(w, n + 8) == Bit(w / 256, n)
  {
    assert Bit(w, n + 8) == Bit(w / 2, n + 7) == Bit(w / 2 / 2, n + 6) == Bit(w / 2 / 2 / 2, n + 5);
    var v := w / 2 / 2 / 2;
    assert Bit(v, n + 5) == Bit(v / 2, n + 4) == Bit(v / 2 / 2, n + 3) == Bit(v / 2 / 2 / 2, n + 2);
    var u := v / 2 / 2 / 2;
    assert Bit(u, n + 2) == Bit(u / 2, n + 1) == Bit(u / 2 / 2, n);
    assert v == w / 8 && u == v / 8 && u / 2 / 2 == u / 4;
    assert w / 8 / 8 / 4 == w / 256;
  }

  lemma LowByteBit(w: nat, j: nat)
    requires j < 8
    ensures Bit(w % 256, j) <==> Bit(w, j)
  {
    BitLowOnly(w, j, 8);
    assert Pow2(8) == 256;
  }

  lemma {:induction false} BitLowOnly(w: nat, j: nat, n: nat)
    requires j < n
    ensures Bit(w % Pow2(n), j) <==> Bit(w, j)
  {
    LowHalf(w, n);
    if j > 0 { BitLowOnly(w / 2, j - 1, n - 1); }
  }

  lemma LowHalf(w: nat, n: nat)
    requires n > 0
    ensures w % Pow2(n) / 2 == w / 2 % Pow2(n - 1) && w % Pow2(n) % 2 == w % 2
  {
    ModSplit(w, Pow2(n - 1));
    var h := w / 2 % Pow2(n - 1);
    assert w % Pow2(n) == 2 * h + w % 2;
  }

  /** The bit of frame f is bit f of the bitmap's memory: 64 to a word, the lowest first, 512 words
      to a frame. */
  lemma UsedIsBit(mem: seq<Frame>, base: nat, f: nat)
    requires base + f / 32768 < |mem|
    ensures Used(mem, base, f) <==> Bit(mem[base + f / 32768][f % 32768 / 64], f % 64)
  {
    FrameSplit(f);
    BitOfByte(mem[base + f / 32768][f % 32768 / 64], f % 64 / 8, f % 8);
  }

  lemma FrameSplit(f: nat)
    ensures f / 8 / 4096 == f / 32768 && f / 8 % 4096 / 8 == f % 32768 / 64
    ensures f / 8 % 8 == f % 64 / 8 && 8 * (f % 64 / 8) + f % 8 == f % 64
  {
    var q, m := f / 32768, f % 32768;
    assert f / 8 == 4096 * q + m / 8;
    var p, n := f / 64, f % 64;
    assert f / 8 == 8 * p + n / 8;
  }
}
