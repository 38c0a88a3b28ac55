/** sys/src/mm/pmm.c: the first-fit frame allocator over the bitmap. */
module Pmm {
  import opened Words
  import opened Paging
  import opened Forest
  import opened Bitmap
  import opened Machines

  method BitmapTest(m: Machine, bit: nat) returns (set_: bool)
    requires m.FramesValid() && bit < m.bitmapSize * 8
    ensures set_ <==> bit !in m.State().free
  {
    var b := ReadByte(m.ram[..], m.bitmap, bit / 8);
    AndBit(b, bit % 8);
    set_ := And(b, Pow2(bit % 8)) != 0;
  }

  lemma BitIsInBitmap(bitmap: nat, size: nat, bit: nat)
    requires size % 4096 == 0 && bit < size * 8
    ensures bitmap <= bitmap + bit / 8 / 4096 < bitmap + size / 4096
    ensures bitmap + bit / 8 / 4096 in BitmapFrames(bitmap, size)
  {
  }

  method BitmapSet(m: Machine, bit: nat)
    requires m.bitmap + bit / 8 / 4096 < m.ram.Length
    modifies m.ram
    ensures m.ram[..] == SetBit(old(m.ram[..]), m.bitmap, bit)
  {
    var k := bit / 8;
    var f, i := m.bitmap + k / 4096, k % 4096 / 8;
    ghost var mem := m.ram[..];
    var b := ByteOf(m.ram[f][i], k % 8);
    m.ram[f] := m.ram[f][i := PutWordByte(m.ram[f][i], k % 8, SetByte(b, bit % 8))];
    assert m.ram[..] == mem[f := m.ram[f]];
  }

  method BitmapUnset(m: Machine, bit: nat)
    requires m.bitmap + bit / 8 / 4096 < m.ram.Length
    modifies m.ram
    ensures m.ram[..] == ClearBit(old(m.ram[..]), m.bitmap, bit)
  {
    var k := bit / 8;
    var f, i := m.bitmap + k / 4096, k % 4096 / 8;
    ghost var mem := m.ram[..];
    var b := ByteOf(m.ram[f][i], k % 8);
    m.ram[f] := m.ram[f][i := PutWordByte(m.ram[f][i], k % 8, ClearByte(b, bit % 8))];
    assert m.ram[..] == mem[f := m.ram[f]];
  }

  /** `kmemzero(frame, PAGE_SIZE)`, byte by byte. */
  method ZeroPage(m: Machine, f: nat)
    requires f < m.ram.Length
    modifies m.ram
    ensures m.ram[..] == old(m.ram[..])[f := ZeroFrame()]
  {
    ghost var mem := m.ram[..];
    var k := 0;
    while k < 4096
      invariant 0 <= k <= 4096
      invariant m.ram[..] == mem[f := m.ram[f]]
      invariant forall j :: 0 <= j < k ==> ReadByte(m.ram[..], f, j) == 0
    {
      ghost var before := m.ram[..];
      m.ram[f] := m.ram[f][k / 8 := PutWordByte(m.ram[f][k / 8], k % 8, 0)];
      assert m.ram[..] == WriteByte(before, f, k, 0);
      forall j | 0 <= j < k + 1 ensures ReadByte(m.ram[..], f, j) == 0 {
        ReadWritten(before, f, k, 0, j);
      }
      k := k + 1;
    }
    ZeroBytesZeroFrame(m.ram[..], f);
  }

  lemma ZeroBytesZeroFrame(mem: seq<Frame>, f: nat)
    requires f < |mem| && forall j :: 0 <= j < 4096 ==> ReadByte(mem, f, j) == 0
    ensures mem[f] == ZeroFrame()
  {
    forall i | 0 <= i < 512 ensures mem[f][i] == 0 {
      forall k: nat | k < 8 ensures ByteOf(mem[f][i], k) == 0 {
        var j := 8 * i + k;
        assert j / 4096 == 0 && j % 4096 / 8 == i && j % 8 == k;
        assert ReadByte(mem, f, j) == 0;
      }
      assert Pow256(8) == WORD_LIMIT;
      ZeroBytes(mem[f][i], 8);
    }
  }

  /** The bit is set in the bitmap and then the frame is zeroed: because the bitmap's own
      frames are never free, the second does not disturb the first. */
  lemma TakeIsAllocStep(w: World, mem': seq<Frame>, base: nat, size: nat, f: nat)
    requires Inv(w) && size % 4096 == 0 && base + size / 4096 <= |w.mem|
    requires w.free == Clear(w.mem, base, size) && w.meta == BitmapFrames(base, size)
    requires IsMin(f, w.free) && f / 8 / 4096 < size / 4096 && f < |w.mem|
    requires mem' == SetBit(w.mem, base, f)[f := ZeroFrame()]
    ensures |mem'| == |w.mem|
    ensures AllocStep(w, World(mem', Clear(mem', base, size), w.tabs, w.meta), f)
  {
    var mid := SetBit(w.mem, base, f);
    WriteByteFrame(w.mem, base, f / 8, SetByte(ReadByte(w.mem, base, f / 8), f % 8));
    assert base + f / 8 / 4096 in w.meta;
    ClearAfterSet(w.mem, base, size, f);
    ClearElsewhere(mid, mem', base, size);
  }

  /** The found frame is marked and zeroed. */
  method TakeFrame(m: Machine, bit: nat)
    requires m.FramesValid() && IsMin(bit, m.State().free)
    modifies m.ram
    ensures m.FramesValid() && AllocStep(old(m.State()), m.State(), bit)
  {
    ghost var w := m.State();
    BitIsInBitmap(m.bitmap, m.bitmapSize, bit);
    BitmapSet(m, bit);
    ZeroPage(m, bit);
    TakeIsAllocStep(w, m.ram[..], m.bitmap, m.bitmapSize, bit);
    AllocKeeps(w, m.State(), bit);
  }

  function FrameAddress(f: nat): (addr: Word)
    requires f < MAX_FRAMES
    ensures addr % 4096 == 0 && addr / 4096 == f
  {
    4096 * f
  }

  /** Returns the address of the lowest free frame, zeroed and marked used, or 0. */
  method AllocFrame(m: Machine) returns (addr: Word)
    requires m.FramesValid()
    modifies m.ram
    ensures m.FramesValid()
    ensures addr == 0 <==> old(m.State().free) == {}
    ensures addr == 0 ==> m.State() == old(m.State())
    ensures addr != 0 ==> addr % 4096 == 0 && AllocStep(old(m.State()), m.State(), addr / 4096)
  {
    ghost var w := m.State();
    var bit := 0;
    while bit < m.bitmapSize * 8
      invariant 0 <= bit <= m.bitmapSize * 8
      invariant m.State() == w
      invariant forall f :: f in w.free ==> bit <= f < m.bitmapSize * 8
    {
      var used := BitmapTest(m, bit);
      if !used {
        TakeFrame(m, bit);
        return FrameAddress(bit);
      }
      bit := bit + 1;
    }
    assert w.free == {};
    return 0;
  }

  /** Marks a frame free.  The invariant survives if and only if the caller owned the frame: it
      was no page table, not part of the bitmap, and not the frame 0 that stands for "none". */
  method FreeFrame(m: Machine, frame: Word)
    requires m.FramesValid() && frame / 4096 < m.bitmapSize * 8
    modifies m.ram
    ensures Unmarked(old(m.State()), m.State(), frame / 4096)
    ensures m.FramesValid() <==> Releasable(old(m.State()), frame / 4096)
  {
    ghost var w := m.State();
    var f := frame / 4096;
    BitIsInBitmap(m.bitmap, m.bitmapSize, f);
    BitmapUnset(m, f);
    WriteByteFrame(w.mem, m.bitmap, f / 8, ClearByte(ReadByte(w.mem, m.bitmap, f / 8), f % 8));
    ClearAfterClear(w.mem, m.bitmap, m.bitmapSize, f);
    ReleaseKeeps(w, m.State(), f);
  }

  lemma ReleaseKeeps(w: World, w': World, f: nat)
    requires Inv(w) && Unmarked(w, w', f)
    ensures Inv(w') <==> Releasable(w, f)
  {
    if Releasable(w, f) {
      FreeKeeps(w, w', f);
    } else {
      assert f in w'.free;
    }
  }
}
