/** Bitwise operations on machine words, written on natural numbers digit by digit. */
module Bits {

  function Pow2(k: nat): (r: nat)
    ensures r >= 1
  {
    if k == 0 then 1 else 2 * Pow2(k - 1)
  }

  /** Number of values of a 64-bit word. */
  const WORD: nat := 0x1_0000_0000_0000_0000
  const ISIZE_MAX: nat := 0x7fff_ffff_ffff_ffff

  type Word = w: nat | w < WORD

  lemma {:induction false} WordIsPow2()
    ensures Pow2(64) == WORD
  {
    assert Pow2(4) == 16 by { assert Pow2(2) == 4; }
    Pow2Sum(4, 4);
    Pow2Sum(8, 8);
    Pow2Sum(16, 16);
    Pow2Sum(32, 32);
  }

  lemma {:induction false} Pow2Sum(j: nat, k: nat)
    ensures Pow2(j + k) == Pow2(j) * Pow2(k)
  {
    if j > 0 {
      Pow2Sum(j - 1, k);
      assert 2 * (Pow2(j - 1) * Pow2(k)) == (2 * Pow2(j - 1)) * Pow2(k);
    }
  }

  function Bit(a: nat, i: nat): (b: bool)
  {
    if i == 0 then a % 2 == 1 else Bit(a / 2, i - 1)
  }

  function And(a: nat, b: nat): (r: nat)
    ensures r <= a && r <= b
  {
    if a == 0 || b == 0 then 0
    else 2 * And(a / 2, b / 2) + (if a % 2 == 1 && b % 2 == 1 then 1 else 0)
  }

  function Or(a: nat, b: nat): (r: nat)
    ensures r >= a && r >= b
  {
    if a == 0 then b
    else if b == 0 then a
    else 2 * Or(a / 2, b / 2) + (if a % 2 == 1 || b % 2 == 1 then 1 else 0)
  }

  /** Complement within a word of `width` bits. */
  function Not(width: nat, a: nat): (r: nat)
    requires a < Pow2(width)
  {
    Pow2(width) - 1 - a
  }

  lemma {:induction false} ZeroBit(i: nat)
    ensures !Bit(0, i)
  {
    if i > 0 { ZeroBit(i - 1); }
  }

  lemma {:induction false} PowBit(k: nat, i: nat)
    ensures Bit(Pow2(k), i) <==> i == k
  {
    if k == 0 {
      if i > 0 { ZeroBit(i - 1); }
    } else {
      if i > 0 { PowBit(k - 1, i - 1); }
    }
  }

  /** `And` is the bitwise conjunction. */
  lemma {:induction false} AndBit(a: nat, b: nat, i: nat)
    ensures Bit(And(a, b), i) <==> Bit(a, i) && Bit(b, i)
  {
    if a == 0 || b == 0 {
      ZeroBit(i);
    } else {
      var half, low := And(a / 2, b / 2), if a % 2 == 1 && b % 2 == 1 then 1 else 0;
      assert And(a, b) == 2 * half + low;
      assert And(a, b) / 2 == half && And(a, b) % 2 == low;
      if i > 0 { AndBit(a / 2, b / 2, i - 1); }
    }
  }

  /** `Or` is the bitwise disjunction. */
  lemma {:induction false} OrBit(a: nat, b: nat, i: nat)
    ensures Bit(Or(a, b), i) <==> Bit(a, i) || Bit(b, i)
  {
    if a == 0 || b == 0 {
      ZeroBit(i);
    } else {
      var half, low := Or(a / 2, b / 2), if a % 2 == 1 || b % 2 == 1 then 1 else 0;
      assert Or(a, b) == 2 * half + low;
      assert Or(a, b) / 2 == half && Or(a, b) % 2 == low;
      if i > 0 { OrBit(a / 2, b / 2, i - 1); }
    }
  }

  /** The complement flips every bit of the word. */
  lemma {:induction false} NotBit(width: nat, a: nat, i: nat)
    requires a < Pow2(width) && i < width
    ensures Bit(Not(width, a), i) <==> !Bit(a, i)
  {
    var h, low := a / 2, a % 2;
    assert Not(width, a) == 2 * Not(width - 1, h) + (1 - low) by {
      assert Pow2(width) == 2 * Pow2(width - 1) && a == 2 * h + low;
    }
    HalfOf(Not(width - 1, h), 1 - low);
    if i > 0 { NotBit(width - 1, a / 2, i - 1); }
  }

  /** Two numbers with the same bits are equal. */
  lemma {:induction false} SameBits(a: nat, b: nat)
    requires forall i: nat :: Bit(a, i) <==> Bit(b, i)
    ensures a == b
    decreases a + b
  {
    assert Bit(a, 0) <==> Bit(b, 0);
    if a != 0 || b != 0 {
      forall i: nat
        ensures Bit(a / 2, i) <==> Bit(b / 2, i)
      {
        assert Bit(a, i + 1) <==> Bit(b, i + 1);
      }
      SameBits(a / 2, b / 2);
    }
  }

  lemma {:induction false} HalfOf(h: nat, low: nat)
    requires low < 2
    ensures (2 * h + low) / 2 == h && (2 * h + low) % 2 == low
  {
  }

  lemma {:induction false} ModDouble(x: nat, m: nat)
    requires m > 0
    ensures x % (2 * m) == 2 * ((x / 2) % m) + x % 2
  {
    var h := x / 2;
    var q, r := h / m, h % m;
    assert h == q * m + r;
    assert x == q * (2 * m) + (2 * r + x % 2);
    DivModUnique(x, 2 * m, q, 2 * r + x % 2);
  }

  lemma {:induction false} DivModUnique(x: nat, m: nat, q: nat, r: nat)
    requires m > 0 && r < m && x == q * m + r
    ensures x / m == q && x % m == r
  {
    var q', r' := x / m, x % m;
    assert x == q' * m + r';
    if q' < q {
      assert q * m - q' * m == (q - q') * m;
      TimesAtLeast(q - q', m);
    } else if q < q' {
      assert q' * m - q * m == (q' - q) * m;
      TimesAtLeast(q' - q, m);
    }
  }

  lemma {:induction false} TimesAtLeast(c: nat, m: nat)
    requires c >= 1
    ensures c * m >= m
  {
  }

  lemma {:induction false} AndEven(x: nat, half: nat)
    ensures And(x, 2 * half) == 2 * And(x / 2, half)
  {
    HalfOf(half, 0);
  }

  lemma {:induction false} AndOdd(x: nat, half: nat)
    ensures And(x, 2 * half + 1) == 2 * And(x / 2, half) + x % 2
  {
    HalfOf(half, 1);
  }

  /** Testing a single bit by a mask. */
  lemma {:induction false} AndPow(x: nat, k: nat)
    ensures And(x, Pow2(k)) != 0 <==> Bit(x, k)
  {
    if k == 0 {
      AndOdd(x, 0);
    } else {
      AndEven(x, Pow2(k - 1));
      AndPow(x / 2, k - 1);
    }
  }

  lemma {:induction false} MaskAll(x: nat, width: nat)
    requires x < Pow2(width)
    ensures And(x, Pow2(width) - 1) == x
  {
    if width > 0 {
      MaskAll(x / 2, width - 1);
      AndOdd(x, Pow2(width - 1) - 1);
    }
  }

  lemma {:induction false} ModOne(x: nat)
    ensures x % 1 == 0
  {
  }

  lemma {:induction false} MaskUp(x: nat, mask: nat, p: nat, half: nat, m: nat)
    requires m > 0 && And(x / 2, half) == x / 2 - (x / 2) % m && mask == 2 * half && p == 2 * m
    ensures And(x, mask) == x - x % p
  {
    var rest := (x / 2) % m;
    AndEven(x, half);
    ModDouble(x, m);
    assert x % (2 * m) == 2 * rest + x % 2;
  }

  /** Masking with the complement of `2^k - 1` drops the remainder modulo `2^k`. */
  lemma {:induction false} AndMask(x: nat, width: nat, k: nat)
    requires k <= width && x < Pow2(width)
    ensures Pow2(k) <= Pow2(width)
    ensures And(x, Pow2(width) - Pow2(k)) == x - x % Pow2(k)
    decreases width
  {
    Pow2Monotone(k, width);
    if k == 0 {
      MaskAll(x, width);
      assert Pow2(k) == 1;
      ModOne(x);
    } else {
      AndMask(x / 2, width - 1, k - 1);
      MaskUp(x, Pow2(width) - Pow2(k), Pow2(k), Pow2(width - 1) - Pow2(k - 1), Pow2(k - 1));
    }
  }

  lemma {:induction false} Pow2Monotone(j: nat, k: nat)
    requires j <= k
    ensures Pow2(j) <= Pow2(k)
  {
    if j < k { Pow2Monotone(j, k - 1); }
  }

  /** Among powers of two, being smaller means being a divisor. */
  lemma {:induction false} Pow2Divides(j: nat, k: nat)
    requires Pow2(j) <= Pow2(k)
    ensures Pow2(k) % Pow2(j) == 0
  {
    if j > k {
      Pow2Monotone(k + 1, j);
    } else if j < k {
      Pow2Monotone(j, k - 1);
      Pow2Divides(j, k - 1);
      MultipleTimes(Pow2(k - 1), Pow2(j), 2);
    } else {
      DivModUnique(Pow2(k), Pow2(j), 1, 0);
    }
  }

  lemma {:induction false} MultipleTimes(x: nat, m: nat, c: nat)
    requires m > 0 && x % m == 0
    ensures (c * x) % m == 0
  {
    var q := x / m;
    assert c * x == (c * q) * m + 0 by {
      assert x == q * m;
      assert c * (q * m) == (c * q) * m;
    }
    DivModUnique(c * x, m, c * q, 0);
  }

  lemma {:induction false} MultipleSum(x: nat, y: nat, m: nat)
    requires m > 0 && x % m == 0 && y % m == 0
    ensures (x + y) % m == 0
  {
    var p, q := x / m, y / m;
    assert x + y == (p + q) * m + 0 by { assert x == p * m && y == q * m; }
    DivModUnique(x + y, m, p + q, 0);
  }

  /** A multiple of a multiple is a multiple. */
  lemma {:induction false} MultipleTrans(x: nat, m: nat, d: nat)
    requires m > 0 && d > 0 && x % m == 0 && m % d == 0
    ensures x % d == 0
  {
    MultipleTimes(m, d, x / m);
    assert x == (x / m) * m;
  }
}
