/** sys/src/lib/string.c: number printing in place, the hexadecimal parser, and string
    comparison. */
module Strings {
  import opened Words

  // ---- C strings -------------------------------------------------------------------------------

  /** The characters before the first NUL. */
  function CStr(s: seq<char>): (t: seq<char>)
    ensures |t| <= |s| && t == s[..|t|] && '\0' !in t
    ensures '\0' in s ==> |t| < |s| && s[|t|] == '\0'
  {
    if s == [] || s[0] == '\0' then [] else [s[0]] + CStr(s[1..])
  }

  lemma {:induction false} CStrUnique(s: seq<char>, n: nat)
    requires n < |s| && s[n] == '\0' && '\0' !in s[..n]
    ensures CStr(s) == s[..n]
  {
  }

  /** `kstrlen` */
  method StrLen(str: seq<char>) returns (n: nat)
    requires '\0' in str
    ensures n == |CStr(str)|
  {
    var i := 0;
    while str[i] != '\0'
      invariant 0 <= i < |str| && '\0' !in str[..i]
      decreases |str| - i
    {
      assert str[..i + 1] == str[..i] + [str[i]];
      assert str[..i + 1] != str;
      i := i + 1;
    }
    CStrUnique(str, i);
    n := i;
  }

  /** `kstrcmp` returns 0 exactly for equal strings.  It keeps lengths in 32 bits. */
  method StrCmp(str1: seq<char>, str2: seq<char>) returns (r: nat)
    requires '\0' in str1 && '\0' in str2
    requires |CStr(str1)| < 0x1_0000_0000 && |CStr(str2)| < 0x1_0000_0000
    ensures r == 0 <==> CStr(str1) == CStr(str2)
    ensures r <= 1
  {
    var len1 := StrLen(str1);
    var len2 := StrLen(str2);
    if len1 != len2 {
      return 1;
    }
    var i := 0;
    while i < len1
      invariant 0 <= i <= len1
      invariant forall k :: 0 <= k < i ==> str1[k] == str2[k]
    {
      if str1[i] != str2[i] {
        assert CStr(str1)[i] == str1[i] && CStr(str2)[i] == str2[i];
        return 1;
      }
      i := i + 1;
    }
    assert CStr(str1) == CStr(str2);
    return 0;
  }

  // ---- reversing in place ------------------------------------------------------------------------

  function Reverse(s: seq<char>): (r: seq<char>)
    ensures |r| == |s|
  {
    if s == [] then [] else Reverse(s[1..]) + [s[0]]
  }

  lemma {:induction false} ReverseAt(s: seq<char>, k: nat)
    requires k < |s|
    ensures Reverse(s)[k] == s[|s| - 1 - k]
  {
    if k < |s| - 1 {
      ReverseAt(s[1..], k);
    }
  }

  lemma {:induction false} ReverseAppend(s: seq<char>, t: seq<char>)
    ensures Reverse(s + t) == Reverse(t) + Reverse(s)
  {
    if s == [] {
      assert s + t == t;
    } else {
      ReverseAppend(s[1..], t);
      assert (s + t)[1..] == s[1..] + t;
    }
  }

  /** Swapping ends until they meet: the tail loop of both printers. */
  method ReversePrefix(buf: array<char>, n: nat)
    requires n <= buf.Length
    modifies buf
    ensures buf[..n] == Reverse(old(buf[..n]))
    ensures forall k :: n <= k < buf.Length ==> buf[k] == old(buf[k])
  {
    if n == 0 { return; }
    ghost var before := buf[..n];
    var i, j := n - 1, 0;
    while j < i
      invariant 0 <= j <= i + 1 && i + j == n - 1
      invariant forall k :: 0 <= k < j ==> buf[k] == before[n - 1 - k]
      invariant forall k :: j <= k <= i ==> buf[k] == before[k]
      invariant forall k :: i < k < n ==> buf[k] == before[n - 1 - k]
      invariant forall k :: n <= k < buf.Length ==> buf[k] == old(buf[k])
    {
      var temp := buf[j];
      buf[j] := buf[i];
      buf[i] := temp;
      j, i := j + 1, i - 1;
    }
    forall k | 0 <= k < n ensures buf[k] == Reverse(before)[k] {
      ReverseAt(before, k);
    }
    assert buf[..n] == Reverse(before);
  }

  // ---- hexadecimal -------------------------------------------------------------------------------

  const HEX_DIGITS: seq<char> := "0123456789ABCDEF"

  /** Digits of n, least significant first; none for 0. */
  function HexRev(n: nat): seq<char> {
    if n == 0 then [] else [HEX_DIGITS[n % 16]] + HexRev(n / 16)
  }

  /** The text for n: at least two digits after the 0x. */
  function HexText(n: nat): seq<char> {
    "0x" + (if n < 16 then "0" else "") + (if n == 0 then "0" else Reverse(HexRev(n)))
  }

  /** What the buffer holds before it is reversed. */
  function HexBackwards(n: nat): seq<char> {
    (if n == 0 then "0" else HexRev(n)) + (if n < 16 then "0" else "") + "x0"
  }

  lemma ReverseTwo(a: char, b: char)
    ensures Reverse([a]) == [a] && Reverse([a, b]) == [b, a]
  {
  }

  lemma ReverseText(digits: seq<char>, pad: seq<char>)
    ensures Reverse(digits + pad + "x0") == "0x" + Reverse(pad) + Reverse(digits)
  {
    ReverseAppend(digits + pad, "x0");
    ReverseAppend(digits, pad);
    ReverseTwo('x', '0');
  }

  lemma HexTextIsReverse(n: nat)
    ensures Reverse(HexBackwards(n)) == HexText(n)
  {
    ReverseText(if n == 0 then "0" else HexRev(n), if n < 16 then "0" else "");
    ReverseTwo('0', '0');
    assert Reverse([]) == [];
  }

  lemma Pow2Step(j: nat)
    ensures Pow2(j + 4) == 16 * Pow2(j)
  {
    assert Pow2(j + 2) == 4 * Pow2(j);
    assert Pow2(j + 4) == 4 * Pow2(j + 2);
  }

  lemma {:induction false} HexRevLength(n: nat, k: nat)
    requires n < Pow2(4 * k)
    ensures |HexRev(n)| <= k
  {
    if n > 0 {
      Pow2Step(4 * (k - 1));
      HexRevLength(n / 16, k - 1);
    }
  }

  lemma {:induction false} HexRevNoNul(n: nat)
    ensures '\0' !in HexRev(n)
  {
    if n > 0 { HexRevNoNul(n / 16); }
  }

  lemma {:induction false} ReverseNoNul(s: seq<char>)
    requires '\0' !in s
    ensures '\0' !in Reverse(s)
  {
    if s != [] { ReverseNoNul(s[1..]); }
  }

  /** The digit loop appends the digits to the buffer. */
  method HexDigits(buf: array<char>, n: Word, start: nat) returns (i: nat)
    requires start + |HexRev(n)| <= buf.Length
    modifies buf
    ensures i == start + |HexRev(n)|
    ensures buf[..i] == old(buf[..start]) + HexRev(n)
  {
    i := start;
    var rest: nat := n;
    while rest > 0
      invariant start <= i && i + |HexRev(rest)| == start + |HexRev(n)|
      invariant buf[..i] + HexRev(rest) == old(buf[..start]) + HexRev(n)
      decreases rest
    {
      ghost var before := buf[..i];
      LowNibble(rest);
      buf[i] := HEX_DIGITS[And(rest, 15)];
      assert buf[..i] == before;
      assert buf[..i + 1] == before + [HEX_DIGITS[rest % 16]];
      assert before + HexRev(rest) == buf[..i + 1] + HexRev(rest / 16);
      rest := Shr(rest, 4);
      i := i + 1;
    }
  }

  lemma LowNibble(n: nat)
    ensures And(n, 15) == n % 16 && Shr(n, 4) == n / 16
  {
    assert Pow2(4) == 16;
    AndOnes(n, 4);
    LowIsMod(n, 4);
    ShrIsDiv(n, 4);
  }

  /** The part of `hex2str` before the reversal. */
  method FillBackwards(hexString: array<char>, n: Word) returns (i: nat)
    requires hexString.Length == 80
    modifies hexString
    ensures i < 80 && i == |HexBackwards(n)| && hexString[..i] == HexBackwards(n)
  {
    Pow2Values();
    HexRevLength(n, 16);
    i := 0;
    if n == 0 {
      hexString[0] := '0';
      i := 1;
    }
    var pad := n < 16;
    i := HexDigits(hexString, n, i);
    i := PadAndPrefix(hexString, i, pad, if n == 0 then "0" else HexRev(n));
  }

  /** The extra zero of a one-digit number, and `0x` backwards. */
  method PadAndPrefix(buf: array<char>, start: nat, pad: bool, ghost digits: seq<char>) returns (i: nat)
    requires start + 3 <= buf.Length && buf[..start] == digits
    modifies buf
    ensures i == start + (if pad then 3 else 2)
    ensures buf[..i] == digits + (if pad then "0" else "") + "x0"
  {
    i := start;
    if pad {
      buf[i] := '0';
      i := i + 1;
    }
    ghost var padded := digits + (if pad then "0" else "");
    assert buf[..i] == padded;
    buf[i] := 'x';
    buf[i + 1] := '0';
    i := i + 2;
    assert buf[..i] == padded + ['x', '0'];
  }

  /** `hex2str` leaves the text of n, NUL-terminated, in its static buffer. */
  method Hex2Str(hexString: array<char>, n: Word)
    requires hexString.Length == 80
    modifies hexString
    ensures CStr(hexString[..]) == HexText(n)
    ensures '\0' in hexString[..]
  {
    var i := FillBackwards(hexString, n);
    TerminateAndReverse(hexString, i, HexBackwards(n));
    HexTextIsReverse(n);
    HexTextNoNul(n);
    assert hexString[..][..i] == HexText(n);
    CStrUnique(hexString[..], i);
  }

  /** The NUL, then the swapping loop over everything before it. */
  method TerminateAndReverse(buf: array<char>, i: nat, ghost text: seq<char>)
    requires i < buf.Length && buf[..i] == text
    modifies buf
    ensures buf[..i] == Reverse(text) && buf[i] == '\0'
  {
    buf[i] := '\0';
    assert buf[..i] == text;
    ReversePrefix(buf, i);
  }

  lemma HexTextNoNul(n: nat)
    ensures '\0' !in HexText(n)
  {
    HexRevNoNul(n);
    ReverseNoNul(HexRev(n));
  }

  // ---- the hexadecimal parser --------------------------------------------------------------------

  /** The four bits a character contributes; the source takes any character. */
  function Nibble(c: char): nat {
    if '0' <= c <= '9' then c as int - '0' as int
    else if 'a' <= c <= 'f' then c as int - 'a' as int + 10
    else if 'A' <= c <= 'F' then c as int - 'A' as int + 10
    else c as int % 16
  }

  /** `val << 4` in 64 bits. */
  function ShiftIn(val: Word): (r: Word)
    ensures r % 16 == 0 && r <= WORD_LIMIT - 16
    ensures val < 0x1000_0000_0000_0000 ==> r == 16 * val
  {
    val % 0x1000_0000_0000_0000 * 16
  }

  /** Value of a digit string, in 64 bits. */
  function HexValue(s: seq<char>): Word {
    if s == [] then 0 else ShiftIn(HexValue(s[..|s| - 1])) + Nibble(s[|s| - 1])
  }

  /** Number of leading spaces. */
  function Spaces(s: seq<char>): (n: nat)
    ensures n <= |s|
  {
    if s == [] || s[0] != ' ' then 0 else 1 + Spaces(s[1..])
  }

  /** Where the digits start: after spaces and an optional 0x. */
  function Start(s: seq<char>): nat {
    var k := Spaces(s);
    if k + 1 < |s| && s[k] == '0' && s[k + 1] == 'x' then k + 2 else k
  }

  lemma {:induction false} SpacesAre(s: seq<char>, k: nat)
    requires k < |s| && s[k] != ' ' && forall i :: 0 <= i < k ==> s[i] == ' '
    ensures Spaces(s) == k
  {
    if k > 0 { SpacesAre(s[1..], k - 1); }
  }

  /** Behind k spaces the digits start at once, or after a 0x. */
  lemma StartIs(s: seq<char>, k: nat)
    requires k < |s| && s[k] != ' ' && forall i :: 0 <= i < k ==> s[i] == ' '
    ensures Start(s) == if |s| >= k + 2 && s[k..k + 2] == "0x" then k + 2 else k
  {
    SpacesAre(s, k);
    if |s| >= k + 2 {
      assert s[k..k + 2] == [s[k], s[k + 1]];
    }
  }

  lemma NibbleOr(val: nat, d: nat)
    requires val % 16 == 0 && d < 16
    ensures Or(val, And(d, 15)) == val + d
  {
    LowNibble(d);
    NibbleFits(val / 16, d, 4);
  }

  lemma NibbleFits(v: nat, d: nat, s: nat)
    requires s == 4 && d < 16
    ensures Or(16 * v, d) == 16 * v + d
  {
    assert Pow2(4) == 16;
    ShlIsMul(v, s);
    OrDisjoint(v, d, s);
  }

  /** `hex2int` parses len characters after spaces and an optional 0x. */
  method Hex2Int(hex: seq<char>, len: nat) returns (val: Word)
    requires '\0' in hex && Start(hex) + len <= |hex| && len < 0x8000_0000
    ensures val == HexValue(hex[Start(hex)..Start(hex) + len])
  {
    var p := SkipPrefix(hex);
    val := 0;
    var i := 0;
    ghost var digits := hex[p..p + len];
    while i < len
      invariant 0 <= i <= len && val == HexValue(digits[..i])
    {
      var c := hex[p + i];
      var byte := Nibble(c);
      NibbleOr(ShiftIn(val), byte);
      assert digits[..i + 1][..i] == digits[..i] && digits[..i + 1][i] == c;
      val := Or(ShiftIn(val), And(byte, 15));
      i := i + 1;
    }
    assert digits[..len] == digits;
  }

  method SkipPrefix(hex: seq<char>) returns (p: nat)
    requires '\0' in hex
    ensures p == Start(hex)
  {
    p := 0;
    while hex[p] == ' '
      invariant 0 <= p < |hex| && '\0' in hex[p..] && Spaces(hex) == p + Spaces(hex[p..])
      decreases |hex| - p
    {
      assert hex[p..][1..] == hex[p + 1..];
      assert '\0' in hex[p + 1..] by { assert hex[p..] == [hex[p]] + hex[p + 1..]; }
      p := p + 1;
    }
    if p + 1 < |hex| && hex[p] == '0' && hex[p + 1] == 'x' {
      p := p + 2;
    }
  }

  lemma DigitNibble(d: nat)
    requires d < 16
    ensures Nibble(HEX_DIGITS[d]) == d
  {
  }

  lemma HexSnoc(s: seq<char>, c: char)
    ensures HexValue(s + [c]) == ShiftIn(HexValue(s)) + Nibble(c)
  {
  }

  lemma ReverseCons(c: char, s: seq<char>)
    ensures Reverse([c] + s) == Reverse(s) + [c]
  {
  }

  lemma {:induction false} HexDigitsValue(n: Word)
    ensures HexValue(Reverse(HexRev(n))) == n
  {
    if n > 0 {
      var q, d := n / 16, n % 16;
      HexDigitsValue(q);
      ReverseCons(HEX_DIGITS[d], HexRev(q));
      HexSnoc(Reverse(HexRev(q)), HEX_DIGITS[d]);
      DigitNibble(d);
      assert HexValue(Reverse(HexRev(n))) == ShiftIn(q) + d;
    }
  }

  lemma PaddedValue(n: Word)
    ensures HexValue(HexText(n)[2..]) == n
  {
    HexDigitsValue(n);
    assert HexValue("0") == 0;
    if n < 16 {
      var digit := if n == 0 then "0" else Reverse(HexRev(n));
      assert HexText(n)[2..] == "0" + digit;
      OneDigit(n);
      assert ("0" + digit)[..1] == "0";
    } else {
      assert HexText(n)[2..] == Reverse(HexRev(n));
    }
  }

  lemma OneDigit(n: nat)
    requires n < 16
    ensures (if n == 0 then "0" else Reverse(HexRev(n))) == [HEX_DIGITS[n]]
  {
  }

  lemma TextStartsAtTwo(s: seq<char>, n: nat)
    requires CStr(s) == HexText(n) && '\0' in s
    ensures Start(s) == 2 && s[2..|CStr(s)|] == HexText(n)[2..] && 2 <= |CStr(s)|
  {
    assert HexText(n)[0] == '0' && HexText(n)[1] == 'x';
    assert s[0] == CStr(s)[0] && s[1] == CStr(s)[1];
    assert s[..|CStr(s)|][2..] == s[2..|CStr(s)|];
  }

  /** Round trip: for every 64-bit n, parsing all characters of `hex2str`'s result after its
      0x gives n back, padded one-digit numbers included. */
  method RoundTrip(buf: array<char>, n: Word) returns (r: Word)
    requires buf.Length == 80
    modifies buf
    ensures r == n
  {
    Hex2Str(buf, n);
    var len := StrLen(buf[..]);
    TextStartsAtTwo(buf[..], n);
    r := Hex2Int(buf[..], len - 2);
    PaddedValue(n);
  }

  // ---- what a hexadecimal numeral is -------------------------------------------------------------

  predicate IsUpperHex(c: char) { '0' <= c <= '9' || 'A' <= c <= 'F' }

  ghost predicate AllUpperHex(s: seq<char>) {
    forall k :: 0 <= k < |s| ==> IsUpperHex(s[k])
  }

  function HexDigitValue(c: char): int {
    if c <= '9' then c as int - '0' as int else c as int - 'A' as int + 10
  }

  /** The number a hexadecimal numeral stands for, without bound. */
  function HexNumber(s: seq<char>): int {
    if s == [] then 0 else 16 * HexNumber(s[..|s| - 1]) + HexDigitValue(s[|s| - 1])
  }

  /** "0x" and at least two digits from 0-9A-F, without leading zeros beyond that, of value n. */
  ghost predicate Hexadecimal(s: seq<char>, n: nat) {
    && |s| >= 4 && s[0] == '0' && s[1] == 'x' && AllUpperHex(s[2..]) && HexNumber(s[2..]) == n
    && (s[2] == '0' ==> |s| == 4)
  }

  lemma HexNumberSnoc(s: seq<char>, c: char)
    ensures HexNumber(s + [c]) == 16 * HexNumber(s) + HexDigitValue(c)
  {
  }

  lemma {:induction false} HexNumberPositive(s: seq<char>)
    requires s != [] && AllUpperHex(s)
    ensures HexNumber(s) >= 0 && (s[0] != '0' ==> HexNumber(s) > 0)
  {
    assert IsUpperHex(s[|s| - 1]);
    if |s| > 1 {
      var init := s[..|s| - 1];
      assert AllUpperHex(init) && init[0] == s[0];
      HexNumberPositive(init);
    } else {
      assert HexNumber(s[..0]) == 0;
    }
  }

  lemma DigitIsUpper(d: nat)
    requires d < 16
    ensures IsUpperHex(HEX_DIGITS[d]) && HexDigitValue(HEX_DIGITS[d]) == d && (HEX_DIGITS[d] == '0' ==> d == 0)
  {
  }

  lemma UpperIsDigit(c: char)
    requires IsUpperHex(c)
    ensures 0 <= HexDigitValue(c) < 16 && HEX_DIGITS[HexDigitValue(c)] == c
  {
  }

  /** A numeral of n that does not begin with 0. */
  ghost predicate HexMinimal(t: seq<char>, n: nat) {
    t != [] && AllUpperHex(t) && HexNumber(t) == n && t[0] != '0'
  }

  lemma HexMinimalSnoc(t: seq<char>, q: nat, d: nat)
    requires d < 16 && if q == 0 then t == [] && d > 0 else HexMinimal(t, q)
    ensures HexMinimal(t + [HEX_DIGITS[d]], 16 * q + d)
  {
    DigitIsUpper(d);
    HexNumberSnoc(t, HEX_DIGITS[d]);
    assert HexNumber([]) == 0;
  }

  lemma HexRevStep(n: nat, q: nat, d: nat)
    requires n > 0 && n == 16 * q + d && d < 16
    ensures Reverse(HexRev(n)) == Reverse(HexRev(q)) + [HEX_DIGITS[d]]
  {
    assert n / 16 == q && n % 16 == d;
    ReverseCons(HEX_DIGITS[d], HexRev(q));
  }

  lemma {:induction false} HexRevIsMinimal(n: nat)
    requires n > 0
    ensures HexMinimal(Reverse(HexRev(n)), n)
  {
    var q, d := n / 16, n % 16;
    HexRevStep(n, q, d);
    if q > 0 { HexRevIsMinimal(q); } else { assert Reverse(HexRev(0)) == []; }
    HexMinimalSnoc(Reverse(HexRev(q)), q, d);
  }

  lemma HexMinimalSplit(t: seq<char>, n: nat) returns (q: nat, d: nat)
    requires HexMinimal(t, n)
    ensures n > 0 && d < 16 && n == 16 * q + d && t == t[..|t| - 1] + [HEX_DIGITS[d]]
    ensures if |t| == 1 then q == 0 else HexMinimal(t[..|t| - 1], q)
  {
    var init, c := t[..|t| - 1], t[|t| - 1];
    assert IsUpperHex(c);
    UpperIsDigit(c);
    d := HexDigitValue(c);
    HexNumberPositive(t);
    if init == [] {
      q := 0;
    } else {
      assert AllUpperHex(init) && init[0] == t[0];
      HexNumberPositive(init);
      q := HexNumber(init);
    }
  }

  lemma {:induction false} HexMinimalUnique(t: seq<char>, n: nat)
    requires HexMinimal(t, n)
    ensures n > 0 && t == Reverse(HexRev(n)) && (|t| >= 2 <==> n >= 16)
    decreases |t|
  {
    var q, d := HexMinimalSplit(t, n);
    HexRevStep(n, q, d);
    if |t| > 1 { HexMinimalUnique(t[..|t| - 1], q); } else { assert Reverse(HexRev(0)) == []; }
  }

  lemma TwoDigits(t: seq<char>, n: nat)
    requires |t| == 2 && t[0] == '0' && IsUpperHex(t[1])
    ensures HexNumber(t) == n <==> n < 16 && t == ['0', HEX_DIGITS[n]]
  {
    assert t == [] + [t[0]] + [t[1]];
    HexNumberSnoc([], t[0]);
    HexNumberSnoc([t[0]], t[1]);
    UpperIsDigit(t[1]);
    if n < 16 { DigitIsUpper(n); }
  }

  function HexTail(n: nat): seq<char> {
    if n < 16 then ['0', HEX_DIGITS[n]] else Reverse(HexRev(n))
  }

  lemma TextIsTail(n: nat)
    ensures HexText(n) == "0x" + HexTail(n)
  {
    if n < 16 { OneDigit(n); }
  }

  /** The digits after the 0x. */
  ghost predicate HexTailFor(t: seq<char>, n: nat) {
    |t| >= 2 && AllUpperHex(t) && HexNumber(t) == n && (t[0] == '0' ==> |t| == 2)
  }

  lemma TailIsNumeral(n: nat)
    ensures HexTailFor(HexTail(n), n)
  {
    if n < 16 {
      DigitIsUpper(n);
      TwoDigits(HexTail(n), n);
    } else {
      HexRevIsMinimal(n);
      HexMinimalUnique(HexTail(n), n);
    }
  }

  lemma TailUnique(t: seq<char>, n: nat)
    requires HexTailFor(t, n)
    ensures t == HexTail(n)
  {
    assert IsUpperHex(t[1]);
    if t[0] == '0' { TwoDigits(t, n); } else { HexMinimalUnique(t, n); }
  }

  lemma PrefixTail(s: seq<char>, t: seq<char>)
    ensures s == "0x" + t <==> |s| >= 2 && s[0] == '0' && s[1] == 'x' && s[2..] == t
  {
    if |s| >= 2 && s[0] == '0' && s[1] == 'x' && s[2..] == t { assert s == "0x" + s[2..]; }
  }

  /** The text for n is its only numeral of this form. */
  lemma HexTextUnique(s: seq<char>, n: nat)
    ensures Hexadecimal(s, n) <==> s == HexText(n)
  {
    TextIsTail(n);
    TailIsNumeral(n);
    PrefixTail(s, HexTail(n));
    if Hexadecimal(s, n) { TailUnique(s[2..], n); }
  }

  /** What the parser makes of digits in either case. */
  lemma NibbleOfDigits(d: nat)
    requires d < 16
    ensures Nibble("0123456789ABCDEF"[d]) == d && Nibble("0123456789abcdef"[d]) == d
  {
  }

  /** The parser takes the number modulo 2^64. */
  lemma {:induction false} HexValueWraps(s: seq<char>)
    requires AllUpperHex(s)
    ensures HexValue(s) == HexNumber(s) % 0x1_0000_0000_0000_0000
  {
    if s != [] {
      var init, c := s[..|s| - 1], s[|s| - 1];
      assert AllUpperHex(init) && IsUpperHex(c);
      HexValueWraps(init);
      ShiftInWraps(HexNumber(init), HexDigitValue(c));
    }
  }

  lemma ShiftInWraps(x: int, d: int)
    requires 0 <= d < 16
    ensures ShiftIn(x % WORD_LIMIT) + d == (16 * x + d) % WORD_LIMIT
  {
    var q, r := x / WORD_LIMIT, x % WORD_LIMIT;
    var r1, r0 := r / 0x1000_0000_0000_0000, r % 0x1000_0000_0000_0000;
    assert 16 * x + d == WORD_LIMIT * (16 * q + r1) + (16 * r0 + d);
  }

  // ---- decimal -----------------------------------------------------------------------------------

  const DEC_DIGITS: seq<char> := "0123456789"
  const INT_MIN: int := -0x8000_0000
  const INT_MAX: int := 0x7FFF_FFFF

  function DecRev(n: nat): seq<char> {
    if n == 0 then [] else [DEC_DIGITS[n % 10]] + DecRev(n / 10)
  }

  /** The text `dec2str` is meant to print. */
  function DecText(n: int): seq<char> {
    if n == 0 then "0" else if n < 0 then "-" + Reverse(DecRev(-n)) else Reverse(DecRev(n))
  }

  /** The text it prints: negating the least int gives the least int again, so no digit. */
  function Printed(n: int): seq<char> {
    if n == INT_MIN then "-" else DecText(n)
  }

  lemma {:induction false} DecRevLength(n: nat, k: nat)
    requires n < Pow10(k)
    ensures |DecRev(n)| <= k
  {
    if n > 0 { DecRevLength(n / 10, k - 1); }
  }

  function Pow10(k: nat): nat { if k == 0 then 1 else 10 * Pow10(k - 1) }

  /** `number = -number`, in 32 bits.  C leaves it undefined for the least int; the model assumes
      that it wraps. */
  function Negate32(n: int): int
    requires INT_MIN <= n <= INT_MAX
  {
    if n == INT_MIN then INT_MIN else -n
  }

  method DecDigits(buf: array<char>, number: int, start: nat) returns (i: nat)
    requires start + |DecRev(if number > 0 then number else 0)| <= buf.Length
    modifies buf
    ensures var n := if number > 0 then number else 0;
            i == start + |DecRev(n)| && buf[..i] == old(buf[..start]) + DecRev(n)
  {
    ghost var n: nat := if number > 0 then number else 0;
    i := start;
    var rest := number;
    while rest > 0
      invariant start <= i && rest <= n && (rest <= 0 ==> n == 0 || rest == 0)
      invariant var m := if rest > 0 then rest else 0;
                i + |DecRev(m)| == start + |DecRev(n)| && buf[..i] + DecRev(m) == old(buf[..start]) + DecRev(n)
    {
      ghost var before := buf[..i];
      buf[i] := DEC_DIGITS[rest % 10];
      assert buf[..i + 1] == before + [DEC_DIGITS[rest % 10]];
      assert before + DecRev(rest) == buf[..i + 1] + DecRev(rest / 10);
      rest := rest / 10;
      i := i + 1;
    }
  }

  /** Everything `dec2str` stores before the NUL and the reversal. */
  function DecBackwards(n: int): seq<char> {
    if n == INT_MIN then "-" else if n == 0 then "0" else if n < 0 then DecRev(-n) + "-" else DecRev(n)
  }

  lemma PrintedIsReverse(n: int)
    ensures Reverse(DecBackwards(n)) == Printed(n)
  {
    assert Reverse("0") == "0" && Reverse("-") == "-";
    if n < 0 && n != INT_MIN {
      ReverseAppend(DecRev(-n), "-");
    }
  }

  method FillDecBackwards(buf: array<char>, number: int) returns (i: nat)
    requires buf.Length == 80 && INT_MIN <= number <= INT_MAX
    modifies buf
    ensures i < 80 && i == |DecBackwards(number)| && buf[..i] == DecBackwards(number)
  {
    assert Pow10(5) == 100000;
    assert Pow10(10) == 10000000000;
    var negative, rest := false, number;
    i := 0;
    if number == 0 {
      buf[0] := '0';
      i := 1;
    } else if number < 0 {
      negative := true;
      rest := Negate32(number);
    }
    ghost var m: nat := if rest > 0 then rest else 0;
    DecRevLength(m, 10);
    i := DecDigits(buf, rest, i);
    ghost var digits := if number == 0 then "0" else DecRev(m);
    assert buf[..i] == digits;
    if negative {
      buf[i] := '-';
      i := i + 1;
    }
    assert buf[..i] == digits + (if negative then "-" else "");
  }

  /** `dec2str` */
  method Dec2Str(decString: array<char>, number: int)
    requires decString.Length == 80 && INT_MIN <= number <= INT_MAX
    modifies decString
    ensures CStr(decString[..]) == Printed(number)
  {
    var i := FillDecBackwards(decString, number);
    TerminateAndReverse(decString, i, DecBackwards(number));
    PrintedIsReverse(number);
    PrintedNoNul(number);
    assert decString[..][..i] == Printed(number);
    CStrUnique(decString[..], i);
  }

  lemma {:induction false} DecRevNoNul(n: nat)
    ensures '\0' !in DecRev(n)
  {
    if n > 0 { DecRevNoNul(n / 10); }
  }

  lemma PrintedNoNul(n: int)
    ensures '\0' !in Printed(n)
  {
    var m := if n < 0 then -n else n;
    DecRevNoNul(m);
    ReverseNoNul(DecRev(m));
  }

  // ---- what a decimal numeral is -----------------------------------------------------------------

  predicate IsDigit(c: char) { '0' <= c <= '9' }

  ghost predicate AllDigits(s: seq<char>) {
    forall k :: 0 <= k < |s| ==> IsDigit(s[k])
  }

  function DecValue(s: seq<char>): int {
    if s == [] then 0 else 10 * DecValue(s[..|s| - 1]) + (s[|s| - 1] as int - '0' as int)
  }

  /** s is a numeral without leading zeros for the natural number n. */
  ghost predicate Minimal(s: seq<char>, n: nat) {
    s != [] && AllDigits(s) && DecValue(s) == n && (s[0] == '0' ==> |s| == 1)
  }

  /** s is the minimal decimal numeral of n. */
  ghost predicate Decimal(s: seq<char>, n: int) {
    if n >= 0 then Minimal(s, n) else s != [] && s[0] == '-' && Minimal(s[1..], -n)
  }

  lemma InitDigits(s: seq<char>)
    requires |s| > 1 && AllDigits(s)
    ensures AllDigits(s[..|s| - 1]) && s[..|s| - 1][0] == s[0] && IsDigit(s[|s| - 1])
  {
  }

  lemma {:induction false} ValueIsPositive(s: seq<char>)
    requires s != [] && AllDigits(s)
    ensures DecValue(s) >= 0 && (s[0] != '0' ==> DecValue(s) > 0)
  {
    if |s| > 1 {
      var init := s[..|s| - 1];
      InitDigits(s);
      ValueIsPositive(init);
    } else {
      assert DecValue(s[..0]) == 0;
    }
  }

  lemma DecSnoc(s: seq<char>, c: char)
    ensures DecValue(s + [c]) == 10 * DecValue(s) + (c as int - '0' as int)
  {
  }

  lemma {:induction false} DecRevMinimal(n: nat)
    requires n > 0
    ensures Minimal(Reverse(DecRev(n)), n) && Reverse(DecRev(n))[0] != '0'
  {
    var q, d := n / 10, n % 10;
    var c := DEC_DIGITS[d];
    assert c as int - '0' as int == d && IsDigit(c);
    ReverseCons(c, DecRev(q));
    DecSnoc(Reverse(DecRev(q)), c);
    if q > 0 {
      DecRevMinimal(q);
    } else {
      assert Reverse(DecRev(q)) == [] && DecValue([]) == 0;
    }
  }

  /** A positive number has only one numeral without leading zeros. */
  lemma {:induction false} MinimalUnique(s: seq<char>, n: nat)
    requires Minimal(s, n) && n > 0
    ensures s == Reverse(DecRev(n))
    decreases |s|
  {
    var init, c := s[..|s| - 1], s[|s| - 1];
    var d := c as int - '0' as int;
    assert s == init + [c];
    DecSnoc(init, c);
    assert IsDigit(c);
    if init == [] {
      assert DecRev(n / 10) == [];
    } else {
      InitDigits(s);
      ValueIsPositive(init);
      assert n / 10 == DecValue(init) && n % 10 == d;
      MinimalUnique(init, n / 10);
    }
    assert DEC_DIGITS[d] == c;
    ReverseCons(DEC_DIGITS[n % 10], DecRev(n / 10));
  }

  lemma ZeroUnique(s: seq<char>)
    requires Minimal(s, 0)
    ensures s == "0"
  {
    if s[0] != '0' {
      ValueIsPositive(s);
      assert false;
    }
  }

  /** The text for n is its minimal decimal numeral, and n has no other. */
  lemma DecTextUnique(s: seq<char>, n: int)
    ensures Decimal(s, n) <==> s == DecText(n)
  {
    if n == 0 {
      assert DecValue("0") == 10 * DecValue("0"[..0]) + 0;
      if Decimal(s, n) { ZeroUnique(s); }
    } else {
      DecRevMinimal(if n < 0 then -n else n);
      if n < 0 && s == DecText(n) {
        assert s[1..] == Reverse(DecRev(-n));
      }
      if Decimal(s, n) {
        if n > 0 {
          MinimalUnique(s, n);
        } else {
          MinimalUnique(s[1..], -n);
          assert s == "-" + s[1..];
        }
      }
    }
  }

  /** `dec2str` prints the minimal decimal numeral of every int except the least one. */
  lemma PrintedIsDecimal(n: int)
    requires INT_MIN <= n <= INT_MAX
    ensures Decimal(Printed(n), n) <==> n != INT_MIN
  {
    DecTextUnique(Printed(n), n);
    if n == INT_MIN {
      assert Printed(n)[1..] == [];
    }
  }
}
