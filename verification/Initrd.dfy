/** sys/src/fs/initrd.c: looking a file up in the boot archive, a ustar image of 512-byte
    blocks. */
module Initrd {
  import opened Words
  import opened Paging
  import opened Strings

  // ---- octal sizes -------------------------------------------------------------------------------

  function Pow8(k: nat): nat {
    if k == 0 then 1 else 8 * Pow8(k - 1)
  }

  /** `c - '0'`, for a char that is one signed byte: a byte from 0x80 on counts as negative. */
  function Digit(c: char): int {
    var b := c as int % 256;
    (if b < 128 then b else b - 256) - 48
  }

  /** Value of an octal digit string, most significant digit first. */
  function OctValue(s: seq<char>): int {
    if s == [] then 0 else 8 * OctValue(s[..|s| - 1]) + Digit(s[|s| - 1])
  }

  /** n printed with exactly k octal digits. */
  function OctText(n: nat, k: nat): (s: seq<char>)
    ensures |s| == k
  {
    if k == 0 then [] else OctText(n / 8, k - 1) + [(n % 8 + 48) as char]
  }

  /** Reading undoes printing, for every size that k digits can hold. */
  lemma {:induction false} OctRoundTrip(n: nat, k: nat)
    requires n < Pow8(k)
    ensures OctValue(OctText(n, k)) == n
  {
    if k > 0 {
      OctRoundTrip(n / 8, k - 1);
      assert OctText(n, k)[..k - 1] == OctText(n / 8, k - 1);
    }
  }

  lemma OctSnoc(s: seq<char>, c: char)
    ensures OctValue(s + [c]) == 8 * OctValue(s) + Digit(c)
  {
  }

  lemma TimesEight(d: int, p: int)
    ensures 8 * (d * p) == d * (8 * p)
  {
  }

  /** A further digit in front. */
  lemma {:induction false} OctCons(c: char, s: seq<char>)
    ensures OctValue([c] + s) == Digit(c) * Pow8(|s|) + OctValue(s)
  {
    var d := Digit(c);
    if s == [] {
      assert [c] + s == [] + [c];
      OctSnoc([], c);
    } else {
      var init, last := s[..|s| - 1], s[|s| - 1];
      OctCons(c, init);
      assert [c] + s == ([c] + init) + [last] && s == init + [last];
      OctSnoc([c] + init, last);
      OctSnoc(init, last);
      TimesEight(d, Pow8(|init|));
    }
  }

  lemma WrapAdd(x: int, y: int)
    ensures Wrap64(Wrap64(x) + y) == Wrap64(x + y)
  {
  }

  /** `_getsize` reads eleven characters from the last to the first. */
  method GetSize(field: seq<char>) returns (size: Word)
    requires |field| >= 11
    ensures size == Wrap64(OctValue(field[..11]))
  {
    size := 0;
    var j, count := 11, 1;
    assert field[..11][11..] == [];
    while j > 0
      invariant 0 <= j <= 11 && count == Pow8(11 - j)
      invariant size == Wrap64(OctValue(field[..11][j..]))
    {
      OctHead(field[..11], j);
      WrapAdd(OctValue(field[..11][j..]), Digit(field[j - 1]) * count);
      size := Wrap64(size + Digit(field[j - 1]) * count);
      j, count := j - 1, count * 8;
    }
    assert field[..11][0..] == field[..11];
  }

  lemma OctHead(s: seq<char>, j: nat)
    requires 0 < j <= |s|
    ensures OctValue(s[j - 1..]) == OctValue(s[j..]) + Digit(s[j - 1]) * Pow8(|s| - j)
  {
    assert s[j - 1..] == [s[j - 1]] + s[j..];
    OctCons(s[j - 1], s[j..]);
  }

  ghost predicate IsOctal(s: seq<char>) {
    forall k :: 0 <= k < |s| ==> '0' <= s[k] <= '7'
  }

  lemma {:induction false} OctalBound(s: seq<char>)
    requires IsOctal(s)
    ensures 0 <= OctValue(s) < Pow8(|s|)
  {
    if s != [] { OctalBound(s[..|s| - 1]); }
  }

  lemma {:induction false} OctTextIsOctal(n: nat, k: nat)
    ensures IsOctal(OctText(n, k))
  {
    if k > 0 { OctTextIsOctal(n / 8, k - 1); }
  }

  /** An 11-digit size field is read exactly. */
  lemma SizeFieldExact(field: seq<char>)
    requires |field| == 11 && IsOctal(field)
    ensures Wrap64(OctValue(field)) == OctValue(field) < 0x2_0000_0000
  {
    OctalBound(field);
    assert Pow8(5) == 32768;
    assert Pow8(11) == 0x2_0000_0000;
  }

  /** `_getsize` inverts 11-digit octal printing. */
  lemma SizeRoundTrip(n: nat, k: nat)
    requires k == 11 && n < Pow8(k)
    ensures Wrap64(OctValue(OctText(n, k))) == n
  {
    OctRoundTrip(n, k);
    OctTextIsOctal(n, k);
    SizeFieldExact(OctText(n, k));
  }

  // ---- the archive -------------------------------------------------------------------------------

  datatype File = File(name: seq<char>, size: nat)

  /** Blocks an entry takes: its header and its data. */
  function Blocks(f: File): nat { (f.size + 511) / 512 + 1 }

  /** Where the header of entry k starts. */
  function Offset(files: seq<File>, k: nat): nat
    requires k <= |files|
  {
    if k == 0 then 0 else Offset(files, k - 1) + Blocks(files[k - 1]) * 512
  }

  /** A header for f at offset a: a name of 1 to 99 bytes with its NUL, and the size as eleven
      octal digits. */
  ghost predicate HeaderAt(image: seq<char>, a: nat, f: File) {
    && a + 512 <= |image|
    && 0 < |f.name| < 100 && '\0' !in f.name
    && image[a..a + |f.name|] == f.name && image[a + |f.name|] == '\0'
    && IsOctal(image[a + 124..a + 135]) && OctValue(image[a + 124..a + 135]) == f.size
  }

  ghost predicate EntryAt(image: seq<char>, files: seq<File>, k: nat) {
    k < |files| && HeaderAt(image, Offset(files, k), files[k])
  }

  /** The image holds the files one after the other, closed by a block without a name. */
  ghost predicate Archive(image: seq<char>, files: seq<File>) {
    && (forall k :: 0 <= k < |files| ==> EntryAt(image, files, k))
    && Offset(files, |files|) + 512 <= |image|
    && image[Offset(files, |files|)] == '\0'
  }

  /** The first entry from k on with the given name. */
  function Find(files: seq<File>, k: nat, name: seq<char>): (r: Option<nat>)
    requires k <= |files|
    ensures r.Some? ==> k <= r.value < |files|
    decreases |files| - k
  {
    if k == |files| then None
    else if files[k].name == name then Some(k)
    else Find(files, k + 1, name)
  }

  lemma {:induction false} FindIsFirst(files: seq<File>, k: nat, name: seq<char>)
    requires k <= |files|
    ensures var r := Find(files, k, name);
            && (r == None ==> forall j :: k <= j < |files| ==> files[j].name != name)
            && (r.Some? ==> k <= r.value < |files| && files[r.value].name == name
                            && forall j :: k <= j < r.value ==> files[j].name != name)
    decreases |files| - k
  {
    if k < |files| { FindIsFirst(files, k + 1, name); }
  }

  /** The offset of an entry's data. */
  function DataOf(files: seq<File>, k: Option<nat>): Option<nat>
    requires k.Some? ==> k.value < |files|
  {
    if k.Some? then Some(Offset(files, k.value) + 512) else None
  }

  lemma NameAt(image: seq<char>, a: nat, f: File)
    requires HeaderAt(image, a, f)
    ensures '\0' in image[a..a + 100] && CStr(image[a..a + 100]) == f.name && image[a] != '\0'
  {
  }

  /** `(((sz + 511) / 512) + 1) * 512` */
  function StepOver(sz: nat): nat { (Wrap64(sz + 511) / 512 + 1) * 512 }

  /** One header: is it the wanted name, and how many bytes to the next header. */
  method Visit(image: seq<char>, a: nat, path: seq<char>) returns (found: bool, step: nat)
    requires a + 512 <= |image| && '\0' in image[a..a + 100]
    requires '\0' in path && |CStr(path)| < 0x1_0000_0000
    ensures found <==> CStr(image[a..a + 100]) == CStr(path)
    ensures step == StepOver(Wrap64(OctValue(image[a + 124..a + 135])))
  {
    assert image[a + 124..a + 136][..11] == image[a + 124..a + 135];
    var sz := GetSize(image[a + 124..a + 136]);
    var differs := StrCmp(image[a..a + 100], path);
    found := differs == 0;
    step := StepOver(sz);
  }

  lemma StepIsBlocks(image: seq<char>, a: nat, f: File)
    requires HeaderAt(image, a, f)
    ensures StepOver(Wrap64(OctValue(image[a + 124..a + 135]))) == Blocks(f) * 512
  {
    SizeFieldExact(image[a + 124..a + 135]);
  }

  /** `initrd_open` on an archive whose first entry has no data: the search starts at the
      second header.  The loop tests the header of the entry it has just left, so it also
      visits the nameless block that ends the archive, and stops only after that. */
  method Open(image: seq<char>, path: seq<char>, ghost files: seq<File>) returns (r: Option<nat>)
    requires Archive(image, files) && files != [] && files[0].size == 0
    requires '\0' in path && |CStr(path)| < 0x1_0000_0000
    ensures CStr(path) != [] ==>
              r == DataOf(files, Find(files, 1, CStr(path)))
    ensures CStr(path) == [] ==>
              r == if |files| == 1 then None else Some(Offset(files, |files|) + 512)
  {
    var len := StrLen(path);
    if len > 99 {
      LongNameAbsent(image, files, 1, CStr(path));
      return None;
    }
    var addr: nat, header: nat := 0x200, 0x200;
    ghost var k: nat := 1;
    assert Offset(files, 0) == 0;
    HeaderInside(image, files, 1);
    while image[header] != '\0'
      invariant Searching(files, CStr(path), k, addr, header) && header + 512 <= |image|
      decreases |files| + 1 - k
    {
      Unfinished(image, files, CStr(path), k, addr, header);
      header := addr;
      var found, step := Probe(image, header, path, files, k);
      if found {
        return Some(addr + 0x200);
      }
      addr, k := addr + step, k + 1;
    }
    Finished(image, files, CStr(path), k, addr, header);
    return None;
  }

  /** The body of the loop, at the k-th header. */
  method Probe(image: seq<char>, a: nat, path: seq<char>, ghost files: seq<File>, ghost k: nat)
    returns (found: bool, step: nat)
    requires Archive(image, files) && 1 <= k <= |files| && |files| > 1 && a == Offset(files, k)
    requires '\0' in path && |CStr(path)| < 0x1_0000_0000 && Find(files, 1, CStr(path)) == Find(files, k, CStr(path))
    ensures a + 512 <= |image|
    ensures found && k < |files| ==> CStr(path) != [] && Find(files, 1, CStr(path)) == Some(k)
    ensures found && k == |files| ==> CStr(path) == []
    ensures !found ==> Searching(files, CStr(path), k + 1, a + step, a)
  {
    HeaderInside(image, files, k);
    found, step := Visit(image, a, path);
    if found {
      FoundHere(image, files, CStr(path), k);
    } else {
      NotHere(image, files, CStr(path), k, a, step);
    }
  }

  /** The k-th header is next, and the loop's guard looks at the one before. */
  ghost predicate Searching(files: seq<File>, name: seq<char>, k: nat, addr: nat, header: nat) {
    && files != [] && 1 <= k <= |files| + 1
    && header == Offset(files, if k == 1 then 1 else k - 1)
    && (k > 1 ==> |files| > 1)
    && (k <= |files| ==> addr == Offset(files, k) && Find(files, 1, name) == Find(files, k, name))
    && (k > |files| ==> name != [] && Find(files, 1, name) == None)
  }

  lemma HeaderInside(image: seq<char>, files: seq<File>, k: nat)
    requires Archive(image, files) && k <= |files|
    ensures Offset(files, k) + 512 <= |image|
    ensures image[Offset(files, k)] == '\0' <==> k == |files|
    ensures '\0' in image[Offset(files, k)..Offset(files, k) + 100]
  {
    EntryFacts(image, files, k);
  }

  lemma Unfinished(image: seq<char>, files: seq<File>, name: seq<char>, k: nat, addr: nat, header: nat)
    requires Archive(image, files) && Searching(files, name, k, addr, header)
    requires header < |image| && image[header] != '\0'
    ensures k <= |files| && |files| > 1 && addr == Offset(files, k)
    ensures addr + 512 <= |image| && '\0' in image[addr..addr + 100]
  {
    HeaderInside(image, files, if k == 1 then 1 else k - 1);
    HeaderInside(image, files, if k <= |files| then k else 0);
  }

  lemma Finished(image: seq<char>, files: seq<File>, name: seq<char>, k: nat, addr: nat, header: nat)
    requires Archive(image, files) && Searching(files, name, k, addr, header)
    requires header < |image| && image[header] == '\0'
    ensures Find(files, 1, name) == None && (name == [] ==> |files| == 1)
  {
    HeaderInside(image, files, if k == 1 then 1 else k - 1);
  }

  lemma FoundHere(image: seq<char>, files: seq<File>, name: seq<char>, k: nat)
    requires Archive(image, files) && 1 <= k <= |files| && Find(files, 1, name) == Find(files, k, name)
    requires Offset(files, k) + 100 <= |image| && CStr(image[Offset(files, k)..Offset(files, k) + 100]) == name
    ensures k < |files| ==> name != [] && Find(files, 1, name) == Some(k)
    ensures k == |files| ==> name == []
  {
    EntryFacts(image, files, k);
  }

  lemma NotHere(image: seq<char>, files: seq<File>, name: seq<char>, k: nat, addr: nat, step: nat)
    requires Archive(image, files) && 1 <= k <= |files| && |files| > 1 && addr == Offset(files, k)
    requires Find(files, 1, name) == Find(files, k, name) && addr + 512 <= |image|
    requires CStr(image[addr..addr + 100]) != name
    requires step == StepOver(Wrap64(OctValue(image[addr + 124..addr + 135])))
    ensures Searching(files, name, k + 1, addr + step, addr)
  {
    EntryFacts(image, files, k);
  }

  /** What an entry's header block, or the closing block, looks like to the loop. */
  lemma EntryFacts(image: seq<char>, files: seq<File>, k: nat)
    requires Archive(image, files) && k <= |files| + 1
    ensures k < |files| ==>
              && Offset(files, k) + 512 <= |image| && image[Offset(files, k)] != '\0'
              && '\0' in image[Offset(files, k)..Offset(files, k) + 100]
              && CStr(image[Offset(files, k)..Offset(files, k) + 100]) == files[k].name != []
              && Offset(files, k) + StepOver(Wrap64(OctValue(image[Offset(files, k) + 124..Offset(files, k) + 135])))
                 == Offset(files, k + 1)
    ensures k == |files| ==>
              && Offset(files, k) + 512 <= |image| && image[Offset(files, k)] == '\0'
              && '\0' in image[Offset(files, k)..Offset(files, k) + 100]
              && CStr(image[Offset(files, k)..Offset(files, k) + 100]) == []
  {
    if k < |files| {
      assert EntryAt(image, files, k);
      NameAt(image, Offset(files, k), files[k]);
      StepIsBlocks(image, Offset(files, k), files[k]);
    } else if k == |files| {
      var s := image[Offset(files, k)..Offset(files, k) + 100];
      assert s[0] == '\0';
    }
  }

  lemma {:induction false} LongNameAbsent(image: seq<char>, files: seq<File>, k: nat, name: seq<char>)
    requires Archive(image, files) && k <= |files| && |name| > 99
    ensures Find(files, k, name) == None
    decreases |files| - k
  {
    if k < |files| {
      assert EntryAt(image, files, k);
      LongNameAbsent(image, files, k + 1, name);
    }
  }
}
