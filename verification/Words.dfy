/** 64-bit machine words as natural numbers, with the C operators `&`, `|`, `& ~`, `<<`
    and `>>` defined bit by bit.  Every mask-and-shift expression of the kernel is turned
    into a division and a remainder by the lemmas of this module. */
module Words {

  type Word = w: nat | w < 0x1_0000_0000_0000_0000

  const WORD_LIMIT: nat := 0x1_0000_0000_0000_0000

  /** Arithmetic in size_t. */
  function Wrap64(x: int): Word {
    if 0 <= x < WORD_LIMIT then x else x % WORD_LIMIT
  }

  function Pow2(k: nat): (p: nat)
    ensures p > 0
  {
    if k == 0 then 1 else 2 * Pow2(k - 1)
  }

  /** `a & b` */
  function And(a: nat, b: nat): nat {
    if a == 0 then 0 else 2 * And(a / 2, b / 2) + (if a % 2 == 1 && b % 2 == 1 then 1 else 0)
  }

  /** `a | b` */
  function Or(a: nat, b: nat): nat
    decreases a + b
  {
    if a == 0 && b == 0 then 0 else 2 * Or(a / 2, b / 2) + (if a % 2 == 1 || b % 2 == 1 then 1 else 0)
  }

  /** `a & ~b` */
  function AndNot(a: nat, b: nat): nat {
    if a == 0 then 0 else 2 * AndNot(a / 2, b / 2) + (if a % 2 == 1 && b % 2 == 0 then 1 else 0)
  }

  /** `a << s`, unbounded */
  function Shl(a: nat, s: nat): nat {
    if s == 0 then a else 2 * Shl(a, s - 1)
  }

  /** `a >> s` */
  function Shr(a: nat, s: nat): nat
    decreases s
  {
    if s == 0 then a else Shr(a / 2, s - 1)
  }

  /** The low n bits of a. */
  function Low(a: nat, n: nat): nat
    decreases n
  {
    if n == 0 then 0 else 2 * Low(a / 2, n - 1) + a % 2
  }

  /** Bit k of a. */
  predicate Bit(a: nat, k: nat)
    decreases k
  {
    if k == 0 then a % 2 == 1 else Bit(a / 2, k - 1)
  }

  lemma Pow2Values()
    ensures Pow2(9) == 512 && Pow2(12) == 4096 && Pow2(21) == 0x20_0000 && Pow2(30) == 0x4000_0000
    ensures Pow2(39) == 0x80_0000_0000 && Pow2(40) == 0x100_0000_0000 && Pow2(64) == WORD_LIMIT
  {
    assert Pow2(6) == 64;
    assert Pow2(12) == 4096;
    assert Pow2(21) == 0x20_0000;
    assert Pow2(30) == 0x4000_0000;
    assert Pow2(39) == 0x80_0000_0000;
    assert Pow2(48) == 0x1_0000_0000_0000;
    assert Pow2(56) == 0x100_0000_0000_0000;
  }

  // ---- shifts are divisions, low bits are remainders -----------------------------------

  lemma DivDiv(v: nat, p: nat)
    requires p > 0
    ensures v / 2 / p == v / (2 * p)
  {
    var q, h := v / 2 / p, v / 2;
    var r := h - q * p;
    assert 0 <= r < p;
    assert v == (2 * p) * q + (2 * r + v % 2);
    DivUnique(v, 2 * p, q, 2 * r + v % 2);
  }

  lemma DivUnique(v: nat, d: nat, q: nat, r: nat)
    requires d > 0 && r < d && v == d * q + r
    ensures v / d == q && v % d == r
  {
    var q', r' := v / d, v % d;
    assert v == d * q' + r';
    MulGap(d, q, q');
    MulGap(d, q', q);
  }

  lemma MulGap(d: nat, q: nat, q': nat)
    ensures q > q' ==> d * q >= d * q' + d
  {
    if q > q' {
      assert d * q == d * q' + d * (q - q');
      assert d * (q - q') == d + d * (q - q' - 1);
    }
  }

  lemma ModSplit(v: nat, p: nat)
    requires p > 0
    ensures v % (2 * p) == 2 * (v / 2 % p) + v % 2
  {
    var q, h := v / 2 / p, v / 2;
    var r := h % p;
    assert v == (2 * p) * q + (2 * r + v % 2);
    DivUnique(v, 2 * p, q, 2 * r + v % 2);
  }

  lemma {:induction false} ShlIsMul(a: nat, s: nat)
    ensures Shl(a, s) == a * Pow2(s)
  {
    if s > 0 {
      ShlIsMul(a, s - 1);
      assert 2 * (a * Pow2(s - 1)) == a * (2 * Pow2(s - 1));
    }
  }

  lemma {:induction false} ShrIsDiv(a: nat, s: nat)
    ensures Shr(a, s) == a / Pow2(s)
  {
    if s > 0 {
      ShrIsDiv(a / 2, s - 1);
      DivDiv(a, Pow2(s - 1));
    }
  }

  lemma {:induction false} LowIsMod(a: nat, n: nat)
    ensures Low(a, n) == a % Pow2(n)
  {
    if n > 0 {
      LowIsMod(a / 2, n - 1);
      ModSplit(a, Pow2(n - 1));
    }
  }

  // ---- masks select fields -------------------------------------------------------------

  lemma {:induction false} AndZero(v: nat)
    ensures And(v, 0) == 0
  {
    if v > 0 { AndZero(v / 2); }
  }

  lemma {:induction false} AndOnes(v: nat, n: nat)
    ensures And(v, Pow2(n) - 1) == Low(v, n)
  {
    if n > 0 {
      AndOnes(v / 2, n - 1);
      assert (Pow2(n) - 1) / 2 == Pow2(n - 1) - 1;
    } else {
      AndZero(v);
    }
  }

  lemma {:induction false} AndShl(v: nat, m: nat, s: nat)
    ensures And(v, Shl(m, s)) == Shl(And(Shr(v, s), m), s)
  {
    if s > 0 {
      AndShl(v / 2, m, s - 1);
      var l := Shl(m, s - 1);
      assert 2 * l / 2 == l && 2 * l % 2 == 0;
      assert And(v, 2 * l) == 2 * And(v / 2, l);
    }
  }

  /** `v & (ones << s)` is the n-bit field at bit s, left in place; shifting it down gives
      the field itself. */
  lemma AndField(v: nat, s: nat, n: nat)
    ensures And(v, Shl(Pow2(n) - 1, s)) == Shl(Low(Shr(v, s), n), s)
    ensures Shr(And(v, Shl(Pow2(n) - 1, s)), s) == Low(Shr(v, s), n)
  {
    AndShl(v, Pow2(n) - 1, s);
    AndOnes(Shr(v, s), n);
    ShrShl(Low(Shr(v, s), n), s);
  }

  lemma {:induction false} ShrShl(a: nat, s: nat)
    ensures Shr(Shl(a, s), s) == a
  {
    if s > 0 { ShrShl(a, s - 1); }
  }

  // ---- `|` and `& ~` act field by field --------------------------------------------------

  lemma {:induction false} OrZero(a: nat)
    ensures Or(a, 0) == a && Or(0, a) == a
  {
    if a > 0 { OrZero(a / 2); }
  }

  lemma {:induction false} OrAssoc(a: nat, b: nat, c: nat)
    ensures Or(Or(a, b), c) == Or(a, Or(b, c))
    decreases a + b + c
  {
    if a + b + c > 0 {
      OrAssoc(a / 2, b / 2, c / 2);
      OrHalf(a, b);
      OrHalf(b, c);
      OrHalf(Or(a, b), c);
      OrHalf(a, Or(b, c));
    }
  }

  lemma OrHalf(a: nat, b: nat)
    ensures Or(a, b) / 2 == Or(a / 2, b / 2)
    ensures Or(a, b) % 2 == 1 <==> a % 2 == 1 || b % 2 == 1
  {
  }

  /** `(a << s) | b` when b fits below bit s. */
  lemma {:induction false} OrDisjoint(a: nat, b: nat, s: nat)
    requires b < Pow2(s)
    ensures Or(Shl(a, s), b) == Shl(a, s) + b
    ensures Or(b, Shl(a, s)) == Shl(a, s) + b
  {
    if s == 0 {
      OrZero(a);
    } else {
      OrDisjoint(a, b / 2, s - 1);
    }
  }

  lemma {:induction false} OrShr(a: nat, b: nat, s: nat)
    ensures Shr(Or(a, b), s) == Or(Shr(a, s), Shr(b, s))
  {
    if s > 0 {
      OrShr(a / 2, b / 2, s - 1);
      assert Or(a, b) / 2 == Or(a / 2, b / 2);
    }
  }

  lemma {:induction false} OrLow(a: nat, b: nat, n: nat)
    ensures Low(Or(a, b), n) == Or(Low(a, n), Low(b, n))
  {
    if n > 0 {
      OrLow(a / 2, b / 2, n - 1);
      assert Or(a, b) / 2 == Or(a / 2, b / 2);
    }
  }

  lemma {:induction false} AndNotShr(a: nat, b: nat, s: nat)
    ensures Shr(AndNot(a, b), s) == AndNot(Shr(a, s), Shr(b, s))
  {
    if s > 0 {
      AndNotShr(a / 2, b / 2, s - 1);
      assert AndNot(a, b) / 2 == AndNot(a / 2, b / 2);
    }
  }

  lemma {:induction false} AndNotLow(a: nat, b: nat, n: nat)
    ensures Low(AndNot(a, b), n) == AndNot(Low(a, n), Low(b, n))
  {
    if n > 0 {
      AndNotLow(a / 2, b / 2, n - 1);
      assert AndNot(a, b) / 2 == AndNot(a / 2, b / 2);
    }
  }

  lemma {:induction false} AndNotZero(a: nat)
    ensures AndNot(a, 0) == a
  {
    if a > 0 { AndNotZero(a / 2); }
  }

  lemma {:induction false} OrBound(a: nat, b: nat, n: nat)
    requires a < Pow2(n) && b < Pow2(n)
    ensures Or(a, b) < Pow2(n)
  {
    if n > 0 { OrBound(a / 2, b / 2, n - 1); }
  }

  lemma {:induction false} AndNotBound(a: nat, b: nat)
    ensures AndNot(a, b) <= a
  {
    if a > 0 { AndNotBound(a / 2, b / 2); }
  }

  // ---- single bits: `1 << j` -------------------------------------------------------------

  /** `a & (1 << j)` is non-zero exactly when bit j of a is set. */
  lemma {:induction false} AndBit(a: nat, j: nat)
    ensures And(a, Pow2(j)) == if Bit(a, j) then Pow2(j) else 0
  {
    if a == 0 {
      BitZero(j);
    } else if j == 0 {
      AndZero(a / 2);
    } else {
      AndBit(a / 2, j - 1);
    }
  }

  lemma {:induction false} BitZero(k: nat)
    ensures !Bit(0, k)
  {
    if k > 0 { BitZero(k - 1); }
  }

  /** `a | (1 << j)` sets bit j and changes no other. */
  lemma {:induction false} OrBit(a: nat, j: nat, k: nat)
    ensures Bit(Or(a, Pow2(j)), k) <==> k == j || Bit(a, k)
  {
    if j == 0 {
      OrZero(a / 2);
    } else if k > 0 {
      OrBit(a / 2, j - 1, k - 1);
    }
  }

  /** `a & ~(1 << j)` clears bit j and changes no other. */
  lemma {:induction false} AndNotBit(a: nat, j: nat, k: nat)
    ensures Bit(AndNot(a, Pow2(j)), k) <==> k != j && Bit(a, k)
  {
    if a == 0 {
      BitZero(k);
    } else {
      var o := AndNot(a, Pow2(j));
      assert o / 2 == AndNot(a / 2, Pow2(j) / 2);
      if j == 0 {
        AndNotZero(a / 2);
      } else {
        assert o % 2 == a % 2;
        if k > 0 { AndNotBit(a / 2, j - 1, k - 1); }
      }
    }
  }

  // ---- whole words bit by bit --------------------------------------------------------------

  lemma {:induction false} OrBits(a: nat, b: nat, k: nat)
    ensures Bit(Or(a, b), k) <==> Bit(a, k) || Bit(b, k)
  {
    OrHalf(a, b);
    if k > 0 { OrBits(a / 2, b / 2, k - 1); }
  }

  lemma {:induction false} AndNotBits(a: nat, b: nat, k: nat)
    ensures Bit(AndNot(a, b), k) <==> Bit(a, k) && !Bit(b, k)
  {
    if a == 0 {
      BitZero(k);
    } else if k > 0 {
      AndNotBits(a / 2, b / 2, k - 1);
      assert AndNot(a, b) / 2 == AndNot(a / 2, b / 2);
    }
  }

  lemma {:induction false} OneBit(j: nat, k: nat)
    ensures Bit(Pow2(j), k) <==> k == j
  {
    OrBit(0, j, k);
    OrZero(Pow2(j));
    BitZero(k);
  }

  /** Bit k is the k-th binary digit. */
  lemma {:induction false} BitIsDiv(a: nat, k: nat)
    ensures Bit(a, k) <==> a / Pow2(k) % 2 == 1
  {
    if k > 0 {
      BitIsDiv(a / 2, k - 1);
      DivDiv(a, Pow2(k - 1));
    }
  }
}
