/** Powers of two and the bitwise operators of C on non-negative numbers of any width. */
module Bits {

  function Pow2(n: nat): (r: nat)
    ensures r > 0
  {
    if n == 0 then 1 else 2 * Pow2(n - 1)
  }

  /** C's `x & y`. */
  function BitAnd(x: nat, y: nat): nat {
    if x == 0 || y == 0 then 0
    else 2 * BitAnd(x / 2, y / 2) + (if x % 2 == 1 && y % 2 == 1 then 1 else 0)
  }

  /** C's `x | y`. */
  function BitOr(x: nat, y: nat): nat {
    if x == 0 then y
    else if y == 0 then x
    else 2 * BitOr(x / 2, y / 2) + (if x % 2 == 1 || y % 2 == 1 then 1 else 0)
  }

  /** C's `x >> n`. */
  function Shr(x: nat, n: nat): nat {
    if n == 0 then x else Shr(x / 2, n - 1)
  }

  /** Reduction to the range of an unsigned type with `m` values. */
  function Wrap(x: nat, m: nat): nat
    requires m > 0
  {
    if x < m then x else Wrap(x - m, m)
  }

  /** Number of significant bits: 0 for 0. */
  function BitLength(x: nat): nat {
    if x == 0 then 0 else 1 + BitLength(x / 2)
  }

  /** Index of the lowest set bit. */
  function LowestBit(x: nat): nat
    requires x > 0
  {
    if x % 2 == 1 then 0 else 1 + LowestBit(x / 2)
  }

  lemma MulMonotone(a: int, b: int, m: nat)
    requires a <= b
    ensures a * m <= b * m
  {
    assert (b - a) * m >= 0;
    assert (b - a) * m == b * m - a * m;
  }

  lemma DivModUnique(x: nat, m: nat, q: nat, r: nat)
    requires m > 0 && x == q * m + r && r < m
    ensures x / m == q && x % m == r
  {
    DivMod(x, m);
    RemainderUnique(m, q, r, x / m, x % m);
  }

  lemma DivMod(x: nat, m: nat)
    requires m > 0
    ensures x == (x / m) * m + x % m && x % m < m
  {
  }

  lemma RemainderUnique(m: nat, q: nat, r: nat, q': nat, r': nat)
    requires r < m && r' < m && q * m + r == q' * m + r'
    ensures q == q' && r == r'
  {
    if q < q' {
      MulMonotone(q + 1, q', m);
      assert false;
    } else if q' < q {
      MulMonotone(q' + 1, q, m);
      assert false;
    }
  }

  /** One binary digit of division by an even number. */
  lemma HalfDivMod(x: nat, m: nat)
    requires m > 0
    ensures x / (2 * m) == (x / 2) / m
    ensures x % (2 * m) == 2 * ((x / 2) % m) + x % 2
  {
    var q, r := (x / 2) / m, (x / 2) % m;
    assert x / 2 == q * m + r;
    assert x == 2 * (q * m + r) + x % 2;
    assert x == q * (2 * m) + (2 * r + x % 2);
    DivModUnique(x, 2 * m, q, 2 * r + x % 2);
  }

  lemma {:induction false} Pow2Add(a: nat, b: nat)
    ensures Pow2(a + b) == Pow2(a) * Pow2(b)
  {
    if a > 0 { Pow2Add(a - 1, b); }
  }

  lemma {:induction false} Pow2Monotone(a: nat, b: nat)
    requires a <= b
    ensures Pow2(a) <= Pow2(b)
  {
    if a < b { Pow2Monotone(a, b - 1); }
  }

  /** Shift and mask take a number apart. */
  lemma {:induction false} ShrSplit(x: nat, n: nat)
    ensures BitAnd(x, Pow2(n) - 1) < Pow2(n)
    ensures x == Shr(x, n) * Pow2(n) + BitAnd(x, Pow2(n) - 1)
  {
    if n > 0 {
      ShrSplit(x / 2, n - 1);
      AndOdd(x, Pow2(n - 1) - 1);
      DoubleProduct(Shr(x, n), Pow2(n - 1));
    }
  }

  lemma DoubleProduct(x: nat, y: nat)
    ensures x * (2 * y) == 2 * (x * y)
  {
  }

  lemma MaskIdentity(x: nat, n: nat)
    requires x < Pow2(n)
    ensures BitAnd(x, Pow2(n) - 1) == x
  {
    ShrSplit(x, n);
    ShrPositive(x, n);
  }

  lemma AndOdd(x: nat, y: nat)
    ensures BitAnd(x, 2 * y + 1) == 2 * BitAnd(x / 2, y) + x % 2
  {
    assert (2 * y + 1) / 2 == y && (2 * y + 1) % 2 == 1;
  }

  lemma AndMask(x: nat, n: nat)
    ensures BitAnd(x, Pow2(n) - 1) == x % Pow2(n)
  {
    ShrSplit(x, n);
    DivModUnique(x, Pow2(n), Shr(x, n), BitAnd(x, Pow2(n) - 1));
  }

  lemma AndEven(x: nat, y: nat)
    ensures BitAnd(x, 2 * y) == 2 * BitAnd(x / 2, y)
  {
    assert (2 * y) / 2 == y && (2 * y) % 2 == 0;
  }

  lemma {:induction false} AndNotMask(x: nat, n: nat, w: nat)
    requires n <= w && x < Pow2(w)
    ensures Pow2(n) <= Pow2(w)
    ensures BitAnd(x, Pow2(w) - Pow2(n)) == x - x % Pow2(n)
  {
    Pow2Monotone(n, w);
    if n == w {
      DivModUnique(x, Pow2(n), 0, x);
    } else if n == 0 {
      AndMask(x, w);
      DivModUnique(x, Pow2(w), 0, x);
    } else {
      AndNotMask(x / 2, n - 1, w - 1);
      AndEven(x, Pow2(w - 1) - Pow2(n - 1));
      HalfDivMod(x, Pow2(n - 1));
    }
  }

  lemma {:induction false} OrDisjoint(x: nat, y: nat, n: nat)
    requires x % Pow2(n) == 0 && y < Pow2(n)
    ensures BitOr(x, y) == x + y
  {
    if n > 0 && x > 0 && y > 0 {
      HalfDivMod(x, Pow2(n - 1));
      OrDisjoint(x / 2, y / 2, n - 1);
    }
  }

  /** `x & -x` on a `w`-bit word isolates the lowest set bit. */
  lemma {:induction false} AndNeg(x: nat, w: nat)
    requires 0 < x < Pow2(w)
    ensures BitAnd(x, Pow2(w) - x) == Pow2(LowestBit(x))
  {
    if x % 2 == 1 {
      AndComplement(x / 2, w - 1);
      assert (Pow2(w) - x) / 2 == Pow2(w - 1) - 1 - x / 2;
    } else {
      AndNeg(x / 2, w - 1);
    }
  }

  lemma {:induction false} AndComplement(x: nat, w: nat)
    requires x < Pow2(w)
    ensures BitAnd(x, Pow2(w) - 1 - x) == 0
  {
    if x > 0 && w > 0 {
      AndComplement(x / 2, w - 1);
      assert (Pow2(w) - 1 - x) / 2 == Pow2(w - 1) - 1 - x / 2;
    }
  }

  lemma {:induction false} BitLengthBounds(x: nat)
    requires x > 0
    ensures Pow2(BitLength(x) - 1) <= x < Pow2(BitLength(x))
  {
    if x > 1 { BitLengthBounds(x / 2); }
  }

  /** Bit length splits at any shift that leaves a non-zero head. */
  lemma {:induction false} BitLengthShift(x: nat, n: nat)
    requires Shr(x, n) > 0
    ensures BitLength(x) == BitLength(Shr(x, n)) + n
  {
    if n > 0 {
      BitLengthShift(x / 2, n - 1);
      ShrPositive(x, n);
    }
  }

  lemma {:induction false} BitLengthPow2(n: nat)
    ensures BitLength(Pow2(n)) == n + 1
  {
    if n > 0 { BitLengthPow2(n - 1); }
  }

  lemma {:induction false} LowestBitBound(x: nat, w: nat)
    requires 0 < x < Pow2(w)
    ensures LowestBit(x) < w
  {
    if x % 2 == 0 { LowestBitBound(x / 2, w - 1); }
  }

  lemma {:induction false} ShrBound(x: nat, a: nat, b: nat)
    requires x < Pow2(a + b)
    ensures Shr(x, a) < Pow2(b)
  {
    if a > 0 { ShrBound(x / 2, a - 1, b); }
  }

  lemma {:induction false} ShrPositive(x: nat, n: nat)
    ensures Shr(x, n) > 0 <==> x >= Pow2(n)
  {
    if n > 0 { ShrPositive(x / 2, n - 1); }
  }

  lemma {:induction false} WrapIsMod(x: nat, m: nat)
    requires m > 0
    ensures Wrap(x, m) == x % m
    decreases x
  {
    if x < m {
      DivModUnique(x, m, 0, x);
    } else {
      WrapIsMod(x - m, m);
      DivMod(x - m, m);
      assert ((x - m) / m + 1) * m == ((x - m) / m) * m + m;
      DivModUnique(x, m, (x - m) / m + 1, (x - m) % m);
    }
  }

  lemma {:induction false} AndBit(x: nat, n: nat)
    ensures BitAnd(x, Pow2(n)) == if Shr(x, n) % 2 == 1 then Pow2(n) else 0
  {
    if n > 0 {
      AndBit(x / 2, n - 1);
      AndEven(x, Pow2(n - 1));
    } else {
      AndOdd(x, 0);
    }
  }

  lemma {:induction false} OrCommutes(x: nat, y: nat)
    ensures BitOr(x, y) == BitOr(y, x)
  {
    if x > 0 && y > 0 { OrCommutes(x / 2, y / 2); }
  }

  /** Scaling both sides of a reduction. */
  lemma {:induction false} WrapScale(x: nat, m: nat, f: nat)
    requires m > 0 && f > 0
    ensures m * f > 0 && Wrap(x * f, m * f) == Wrap(x, m) * f
    decreases x
  {
    MulMonotone(1, m, f);
    if x < m {
      MulMonotone(x + 1, m, f);
      DistributeMul(x, 1, f);
    } else {
      WrapScale(x - m, m, f);
      DistributeMul(x - m, m, f);
    }
  }

  lemma DistributeMul(x: int, y: int, f: int)
    ensures (x + y) * f == x * f + y * f
  {
  }

  lemma {:induction false} WrapBelow(x: nat, m: nat)
    requires m > 0
    ensures Wrap(x, m) < m
    decreases x
  {
    if x >= m { WrapBelow(x - m, m); }
  }

  /** Setting bits above the ones in use: `y | x << s` in a `w`-bit type is addition. */
  lemma OrShifted(y: nat, x: nat, s: nat, w: nat)
    requires y < Pow2(s) && s < w
    ensures BitOr(y, Wrap(x * Pow2(s), Pow2(w))) == Wrap(y + x * Pow2(s), Pow2(w))
  {
    Pow2Add(w - s, s);
    WrapScale(x, Pow2(w - s), Pow2(s));
    var k := Wrap(x, Pow2(w - s));
    WrapBelow(x, Pow2(w - s));
    DivModUnique(k * Pow2(s), Pow2(s), k, 0);
    OrCommutes(y, k * Pow2(s));
    OrDisjoint(k * Pow2(s), y, s);
    MulMonotone(k + 1, Pow2(w - s), Pow2(s));
    DistributeMul(k, 1, Pow2(s));
    WrapAdd(y, x * Pow2(s), Pow2(w));
  }

  lemma {:induction false} WrapAdd(y: nat, x: nat, m: nat)
    requires m > 0 && y + Wrap(x, m) < m
    ensures Wrap(y + x, m) == y + Wrap(x, m)
    decreases x
  {
    if x >= m { WrapAdd(y, x - m, m); }
  }
}
