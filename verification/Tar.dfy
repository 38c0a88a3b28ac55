/** The archive that sys/src/fs/initrd.c walks, laid out byte by byte from the files in it: what
    `initrd_open` returns is where the wanted file's contents are. */
module Tar {
  import opened Words
  import opened Paging
  import opened Strings
  import opened Initrd

  /** An archived file: `meta` are its mode and owners, `trailer` what follows the size digits. */
  datatype Member = Member(name: seq<char>, contents: seq<char>, meta: seq<char>, trailer: seq<char>)

  /** Digits of the size field. */
  function SizeDigits(): nat { 11 }

  ghost predicate GoodMember(m: Member) {
    && 0 < |m.name| < 100 && '\0' !in m.name
    && |m.meta| == 24 && |m.trailer| == 377
    && |m.contents| < Pow8(SizeDigits())
  }

  function Nuls(n: nat): (s: seq<char>)
    ensures |s| == n && forall i :: 0 <= i < n ==> s[i] == '\0'
  {
    seq(n, _ => '\0')
  }

  /** A header block: the name in 100 bytes, mode, uid and gid in 8 each, the size as 11 octal
      digits, and the rest. */
  function HeaderBlock(m: Member): seq<char>
    requires |m.name| < 100
  {
    m.name + Nuls(100 - |m.name|) + m.meta + OctText(|m.contents|, SizeDigits()) + m.trailer
  }

  /** A member: header block, contents, and padding to a full block. */
  function Laid(m: Member): seq<char>
    requires |m.name| < 100
  {
    HeaderBlock(m) + m.contents + Nuls((512 - |m.contents| % 512) % 512)
  }

  /** The first n members. */
  function Packed(ms: seq<Member>, n: nat): seq<char>
    requires n <= |ms| && forall i :: 0 <= i < |ms| ==> |ms[i].name| < 100
  {
    if n == 0 then [] else Packed(ms, n - 1) + Laid(ms[n - 1])
  }

  ghost predicate GoodMembers(ms: seq<Member>) {
    forall i :: 0 <= i < |ms| ==> GoodMember(ms[i])
  }

  function Files(ms: seq<Member>): (fs: seq<File>)
    ensures |fs| == |ms| && forall i :: 0 <= i < |ms| ==> fs[i] == File(ms[i].name, |ms[i].contents|)
  {
    seq(|ms|, i requires 0 <= i < |ms| => File(ms[i].name, |ms[i].contents|))
  }

  // ---- one member ----------------------------------------------------------------------------------

  lemma HeaderParts(m: Member, k: nat)
    requires GoodMember(m) && k == SizeDigits()
    ensures var h := m.name + Nuls(100 - |m.name|) + m.meta + OctText(|m.contents|, k) + m.trailer;
            && |h| == 512 && h[..|m.name|] == m.name && h[|m.name|] == '\0'
            && h[124..135] == OctText(|m.contents|, k)
  {
    var a, t := m.name + Nuls(100 - |m.name|) + m.meta, OctText(|m.contents|, k);
    assert |a| == 124 && (a + t + m.trailer)[124..135] == t;
  }

  lemma LaidParts(m: Member)
    requires GoodMember(m)
    ensures |HeaderBlock(m)| == 512 && |Laid(m)| == Blocks(File(m.name, |m.contents|)) * 512
    ensures Laid(m)[..512] == HeaderBlock(m) && Laid(m)[512..512 + |m.contents|] == m.contents
  {
    HeaderParts(m, SizeDigits());
    PaddedLength(|m.contents|);
  }

  lemma PaddedLength(n: nat)
    ensures 512 + n + (512 - n % 512) % 512 == ((n + 511) / 512 + 1) * 512
  {
  }

  // ---- the whole archive ---------------------------------------------------------------------------

  lemma {:induction false} TarLength(ms: seq<Member>, k: nat)
    requires GoodMembers(ms) && k <= |ms|
    ensures |Packed(ms, k)| == Offset(Files(ms), k)
  {
    if k > 0 {
      TarLength(ms, k - 1);
      LaidParts(ms[k - 1]);
    }
  }

  /** Member k lies in the archive where the members before it end. */
  lemma {:induction false} MemberSlice(ms: seq<Member>, k: nat, n: nat)
    requires GoodMembers(ms) && k < n <= |ms|
    ensures var a := |Packed(ms, k)|;
            a + |Laid(ms[k])| <= |Packed(ms, n)| && Packed(ms, n)[a..a + |Laid(ms[k])|] == Laid(ms[k])
  {
    if k < n - 1 {
      MemberSlice(ms, k, n - 1);
      PrefixSlice(Packed(ms, n - 1), Laid(ms[n - 1]), |Packed(ms, k)|, |Packed(ms, k)| + |Laid(ms[k])|);
    } else {
      SuffixSlice(Packed(ms, k), Laid(ms[k]));
    }
  }

  lemma SubSlice(s: seq<char>, a: nat, t: seq<char>, i: nat, j: nat)
    requires a + |t| <= |s| && s[a..a + |t|] == t && i <= j <= |t|
    ensures s[a + i..a + j] == t[i..j]
  {
    forall x | 0 <= x < j - i ensures s[a + i..a + j][x] == t[i..j][x] {
      assert s[a..a + |t|][i + x] == s[a + i + x];
    }
  }

  lemma PrefixSlice(s: seq<char>, t: seq<char>, a: nat, b: nat)
    requires a <= b <= |s|
    ensures (s + t)[a..b] == s[a..b]
  {
  }

  lemma SuffixSlice(s: seq<char>, t: seq<char>)
    ensures (s + t)[|s|..|s| + |t|] == t
  {
  }

  /** The archive with a block without a name behind it. */
  ghost predicate IsTar(image: seq<char>, ms: seq<Member>, closing: seq<char>) {
    && GoodMembers(ms) && |closing| >= 512 && closing[0] == '\0'
    && image == Packed(ms, |ms|) + closing
  }

  lemma {:induction false} LaidInImage(image: seq<char>, ms: seq<Member>, closing: seq<char>, k: nat, a: nat)
    requires IsTar(image, ms, closing) && k < |ms| && a == Offset(Files(ms), k)
    ensures a + |Laid(ms[k])| <= |image| && image[a..a + |Laid(ms[k])|] == Laid(ms[k])
  {
    MemberAt(ms, k, a);
    PrefixSlice(Packed(ms, |ms|), closing, a, a + |Laid(ms[k])|);
  }

  lemma {:induction false} MemberAt(ms: seq<Member>, k: nat, a: nat)
    requires GoodMembers(ms) && k < |ms| && a == Offset(Files(ms), k)
    ensures a + |Laid(ms[k])| <= |Packed(ms, |ms|)| && Packed(ms, |ms|)[a..a + |Laid(ms[k])|] == Laid(ms[k])
  {
    TarLength(ms, k);
    MemberSlice(ms, k, |ms|);
  }

  lemma MemberHeader(image: seq<char>, ms: seq<Member>, closing: seq<char>, k: nat)
    requires IsTar(image, ms, closing) && k < |ms|
    ensures EntryAt(image, Files(ms), k)
  {
    var a := Offset(Files(ms), k);
    LaidInImage(image, ms, closing, k, a);
    LaidParts(ms[k]);
    HeaderInImage(image, a, ms[k], SizeDigits());
  }

  lemma ContentsInImage(image: seq<char>, a: nat, m: Member)
    requires GoodMember(m) && a + |Laid(m)| <= |image| && image[a..a + |Laid(m)|] == Laid(m)
    ensures a + 512 + |m.contents| <= |image| && image[a + 512..a + 512 + |m.contents|] == m.contents
  {
    LaidParts(m);
    SubSlice(image, a, Laid(m), 512, 512 + |m.contents|);
  }

  lemma HeaderInImage(image: seq<char>, a: nat, m: Member, k: nat)
    requires GoodMember(m) && k == SizeDigits() && |HeaderBlock(m)| == 512
    requires |Laid(m)| >= 512 && a + |Laid(m)| <= |image| && image[a..a + |Laid(m)|] == Laid(m)
    requires Laid(m)[..512] == HeaderBlock(m)
    ensures HeaderAt(image, a, File(m.name, |m.contents|))
  {
    HeaderParts(m, k);
    SubSlice(image, a, Laid(m), 0, 512);
    var h := HeaderBlock(m);
    SubSlice(image, a, h, 0, |m.name|);
    SubSlice(image, a, h, |m.name|, |m.name| + 1);
    assert image[a + |m.name|] == image[a + |m.name|..a + |m.name| + 1][0];
    SubSlice(image, a, h, 124, 135);
    OctRoundTrip(|m.contents|, k);
    OctTextIsOctal(|m.contents|, k);
  }

  /** What is laid out so is an archive in the sense of `initrd_open`. */
  lemma TarIsArchive(image: seq<char>, ms: seq<Member>, closing: seq<char>)
    requires IsTar(image, ms, closing)
    ensures Archive(image, Files(ms))
  {
    forall k | 0 <= k < |ms| ensures EntryAt(image, Files(ms), k) { MemberHeader(image, ms, closing, k); }
    TarLength(ms, |ms|);
  }

  /** k is the first member from 1 on with the given name. */
  ghost predicate FirstNamed(ms: seq<Member>, name: seq<char>, k: nat) {
    1 <= k < |ms| && ms[k].name == name && forall j :: 1 <= j < k ==> ms[j].name != name
  }

  /** Behind all earlier members and a block of 512, member k's contents are at a. */
  ghost predicate ContentsAt(image: seq<char>, ms: seq<Member>, k: nat, a: nat)
    requires GoodMembers(ms) && k < |ms|
  {
    && a == |Packed(ms, k)| + 512
    && a + |ms[k].contents| <= |image| && image[a..a + |ms[k].contents|] == ms[k].contents
  }

  /** `initrd_open` on a laid-out archive whose first member is empty.  For a name it returns the
      place behind the header block of the first later member of that name, where its contents are,
      and NULL if there is none. */
  method OpenMember(image: seq<char>, path: seq<char>, ghost ms: seq<Member>, ghost closing: seq<char>)
    returns (r: Option<nat>)
    requires IsTar(image, ms, closing) && ms != [] && ms[0].contents == []
    requires '\0' in path && 0 < |CStr(path)| < 0x1_0000_0000
    ensures r == None ==> forall j :: 1 <= j < |ms| ==> ms[j].name != CStr(path)
    ensures r.Some? ==>
              exists k :: FirstNamed(ms, CStr(path), k) && ContentsAt(image, ms, k, r.value)
  {
    TarIsArchive(image, ms, closing);
    r := Open(image, path, Files(ms));
    FindIsFirst(Files(ms), 1, CStr(path));
    ghost var found := Find(Files(ms), 1, CStr(path));
    if found.Some? {
      LaidInImage(image, ms, closing, found.value, Offset(Files(ms), found.value));
      ContentsInImage(image, Offset(Files(ms), found.value), ms[found.value]);
      TarLength(ms, found.value);
      assert FirstNamed(ms, CStr(path), found.value) && ContentsAt(image, ms, found.value, r.value);
    } else {
      NoneNamed(ms, CStr(path));
    }
  }

  lemma NoneNamed(ms: seq<Member>, name: seq<char>)
    requires ms != [] && forall j :: 1 <= j < |Files(ms)| ==> Files(ms)[j].name != name
    ensures forall j :: 1 <= j < |ms| ==> ms[j].name != name
  {
    forall j | 1 <= j < |ms| ensures ms[j].name != name { assert Files(ms)[j].name != name; }
  }
}
