/**
 Double-word arithmetic on wrapping machine words (`longlong.h`, the portable C macros).

 A word has `2 * h` bits for any half-word width `h`; every operator is the wrapping
 operator of the C unsigned type.  The specifications are over unbounded integers.
 */
module LongLong {
  import opened Bits

  /** The number of word values, 2^W. */
  function Modulus(h: nat): nat { Pow2(2 * h) }

  lemma ModulusIsSquare(h: nat)
    ensures Modulus(h) == Pow2(h) * Pow2(h)
  {
    Pow2Add(h, h);
  }

  // The wrapping operators on values of an unsigned type with `m` values.

  function WAdd(m: nat, a: nat, b: nat): (r: nat)
    requires a < m && b < m
    ensures r < m
  {
    if a + b < m then a + b else a + b - m
  }

  function WSub(m: nat, a: nat, b: nat): (r: nat)
    requires a < m && b < m
    ensures r < m
  {
    if a >= b then a - b else a - b + m
  }

  function WMul(m: nat, a: nat, b: nat): nat
    requires m > 0
  {
    Wrap(a * b, m)
  }

  function LowPart(h: nat, t: nat): nat { BitAnd(t, Pow2(h) - 1) }

  function HighPart(h: nat, t: nat): nat { Shr(t, h) }

  lemma Halves(h: nat, t: nat)
    requires t < Modulus(h)
    ensures t == HighPart(h, t) * Pow2(h) + LowPart(h, t)
    ensures HighPart(h, t) < Pow2(h) && LowPart(h, t) < Pow2(h)
  {
    ShrSplit(t, h);
    assert h + h == 2 * h;
    ShrBound(t, h, h);
  }

  /** Placing a half word above another: `x * B | y`. */
  lemma Join(h: nat, x: nat, y: nat)
    requires x < Pow2(h) && y < Pow2(h)
    ensures 0 <= x * Pow2(h) <= x * Pow2(h) + y < Modulus(h)
    ensures WMul(Modulus(h), x, Pow2(h)) == x * Pow2(h)
    ensures BitOr(x * Pow2(h), y) == x * Pow2(h) + y
  {
    JoinFits(Pow2(h), x, y);
    ModulusIsSquare(h);
    DivModUnique(x * Pow2(h), Pow2(h), x, 0);
    OrDisjoint(x * Pow2(h), y, h);
  }

  lemma JoinFits(b: nat, x: nat, y: nat)
    requires x < b && y < b
    ensures 0 <= x * b <= x * b + y < b * b
  {
    MulMonotone(x + 1, b, b);
    assert (x + 1) * b == x * b + b;
  }

  // ---------------------------------------------------------------- addition and subtraction

  /** Double-word addition; the carry out of the high word is lost. */
  method AddSsaaaa(h: nat, ah: nat, al: nat, bh: nat, bl: nat) returns (sh: nat, sl: nat)
    requires h > 0
    requires ah < Modulus(h) && al < Modulus(h) && bh < Modulus(h) && bl < Modulus(h)
    ensures sh < Modulus(h) && sl < Modulus(h)
    ensures (ah * Modulus(h) + al) + (bh * Modulus(h) + bl) - (sh * Modulus(h) + sl)
            in {0, Modulus(h) * Modulus(h)}
  {
    var m := Modulus(h);
    var x := WAdd(m, al, bl);
    sh := WAdd(m, WAdd(m, ah, bh), if x < al then 1 else 0);
    sl := x;
    ghost var c := if al + bl < m then 0 else 1;
    CarryIdentity(m, ah + bh, c, al + bl, sh, sl);
    Distribute(ah, bh, m);
  }

  lemma CarryIdentity(m: nat, hi: nat, c: nat, lo: nat, sh: nat, sl: nat)
    requires sl == lo - c * m && (sh == hi + c || sh == hi + c - m)
    ensures hi * m + lo - (sh * m + sl) == 0 || hi * m + lo - (sh * m + sl) == m * m
  {
    Distribute(hi, c, m);
    Distribute(sh, m, m);
  }

  /** Double-word subtraction; the borrow out of the high word is lost. */
  method SubDdmmss(h: nat, ah: nat, al: nat, bh: nat, bl: nat) returns (sh: nat, sl: nat)
    requires h > 0
    requires ah < Modulus(h) && al < Modulus(h) && bh < Modulus(h) && bl < Modulus(h)
    ensures sh < Modulus(h) && sl < Modulus(h)
    ensures (sh * Modulus(h) + sl) - ((ah * Modulus(h) + al) - (bh * Modulus(h) + bl))
            in {0, Modulus(h) * Modulus(h)}
  {
    var m := Modulus(h);
    var x := WSub(m, al, bl);
    sh := WSub(m, WSub(m, ah, bh), if x > al then 1 else 0);
    sl := x;
    ghost var c := if al < bl then 1 else 0;
    BorrowIdentity(m, ah - bh, c, al - bl, sh, sl);
    Distribute(ah - bh, bh, m);
  }

  lemma BorrowIdentity(m: nat, hi: int, c: int, lo: int, sh: nat, sl: nat)
    requires sl == lo + c * m && (sh == hi - c || sh == hi - c + m)
    ensures sh * m + sl - (hi * m + lo) == 0 || sh * m + sl - (hi * m + lo) == m * m
  {
    Distribute(hi - c, c, m);
    Distribute(hi - c, m, m);
  }

  // ---------------------------------------------------------------- division

  /**
   One quotient digit: estimate from the high half of `d`, then correct the estimate.
   The macro repeats this code for the upper and the lower digit.
   */
  method QuotientDigit(h: nat, n: nat, p: nat, d: nat) returns (q: nat, r: nat)
    requires h > 0 && Modulus(h) <= 2 * d && d < Modulus(h)
    requires n < d && p < Pow2(h)
    ensures n * Pow2(h) + p == q * d + r
    ensures r < d && q < Pow2(h)
  {
    var mod := Modulus(h);
    var d1, d0 := HighPart(h, d), LowPart(h, d);
    NormalizedHalves(h, d);
    q, r := DivRem(n, d1);
    EstimateOnWords(h, n, p, d, d1, d0, q, r);
    var m := WMul(mod, q, d0);
    r := BitOr(WMul(mod, r, Pow2(h)), p);
    q, r := Correct(mod, n * Pow2(h) + p, d, q, r, m);
    QuotientFits(n, p, d, Pow2(h), q, r);
  }

  /** The pair of C operators `n / d` and `n % d`. */
  method DivRem(n: nat, d: nat) returns (q: nat, r: nat)
    requires d > 0
    ensures n == q * d + r && r < d
  {
    q, r := n / d, n % d;
    DivMod(n, d);
  }

  lemma NormalizedHalves(h: nat, d: nat)
    requires h > 0 && Modulus(h) <= 2 * d && d < Modulus(h)
    ensures d == HighPart(h, d) * Pow2(h) + LowPart(h, d)
    ensures 0 < HighPart(h, d) < Pow2(h) <= 2 * HighPart(h, d)
    ensures LowPart(h, d) < Pow2(h)
  {
    Halves(h, d);
    ModulusIsSquare(h);
    NormalizedHigh(Pow2(h - 1), Pow2(h), HighPart(h, d), LowPart(h, d), d);
  }

  lemma EstimateOnWords(h: nat, n: nat, p: nat, d: nat, d1: nat, d0: nat, q: nat, r: nat)
    requires h > 0 && p < Pow2(h)
    requires d == d1 * Pow2(h) + d0 && d0 < Pow2(h) && 0 < d1 < Pow2(h) <= 2 * d1
    requires n < d && n == q * d1 + r && r < d1
    ensures q < Modulus(h) && 1 < Modulus(h)
    ensures 0 <= q * d0 < Modulus(h) && WMul(Modulus(h), q, d0) == q * d0
    ensures r < Pow2(h) && 0 <= r * Pow2(h) + p < d
    ensures BitOr(WMul(Modulus(h), r, Pow2(h)), p) == r * Pow2(h) + p
    ensures 0 <= n * Pow2(h) + p == q * d + (r * Pow2(h) + p) - q * d0
  {
    ModulusIsSquare(h);
    Estimate(Pow2(h), n, p, d, d1, d0, q, r);
    Join(h, r, p);
    MulMonotone(0, n, Pow2(h));
    MulMonotone(0, q, d0);
  }

  /** The two nested corrections: `n` is the dividend that `q * d + r - m` stands for. */
  method Correct(mod: nat, ghost n: int, d: nat, q0: nat, r0: nat, m: nat) returns (q: nat, r: nat)
    requires 1 < mod && d < mod <= 2 * d && r0 < d && m < mod && q0 < mod
    requires 0 <= n == q0 * d + r0 - m
    ensures n == q * d + r && r < d
  {
    q, r := q0, r0;
    Corrections(mod, n, d, q, r, m);
    if r < m {
      q, r := WSub(mod, q, 1), WAdd(mod, r, d);
      if r >= d { // the sum did not wrap
        if r < m {
          q, r := WSub(mod, q, 1), WAdd(mod, r, d);
        }
      }
    }
    r := WSub(mod, r, m);
  }

  lemma NormalizedHigh(half: nat, b: nat, d1: nat, d0: nat, d: nat)
    requires b == 2 * half && d == d1 * b + d0 && d0 < b && b * b <= 2 * d
    ensures half <= d1
  {
    if d1 < half {
      MulMonotone(d1 + 1, half, b);
      Distribute(d1, 1, b);
      Distribute(half, half, b);
      assert false;
    }
  }

  lemma Distribute(x: int, y: int, b: int)
    ensures (x + y) * b == x * b + y * b
  {
  }

  /** The estimate is at most B + 1, so its product with the low half does not wrap. */
  lemma Estimate(b: nat, n: nat, p: nat, d: nat, d1: nat, d0: nat, q: nat, r: nat)
    requires p < b && 2 <= b
    requires d == d1 * b + d0 && d0 < b && d1 < b <= 2 * d1
    requires n < d && n == q * d1 + r && r < d1
    ensures q <= b + 1 < b * b
    ensures q * d0 < b * b
    ensures r < d1 && r * b + p < d
    ensures n * b + p == q * d + (r * b + p) - q * d0
  {
    EstimateBound(b, n, d, d1, d0, q, r);
    EstimateProduct(b, q, d0);
    JoinBelow(b, d1, r, p);
    EstimateIdentity(b, n, d, d1, d0, q, r);
  }

  lemma EstimateProduct(b: nat, q: nat, d0: nat)
    requires 2 <= b && q <= b + 1 && d0 < b
    ensures q * d0 < b * b && b + 1 < b * b
  {
    MulMonotone(q, b + 1, d0);
    MulMonotone(d0, b - 1, b + 1);
    assert (b - 1) * (b + 1) == b * b - 1;
    MulMonotone(2, b, b);
  }

  lemma EstimateBound(b: nat, n: nat, d: nat, d1: nat, d0: nat, q: nat, r: nat)
    requires d == d1 * b + d0 && d0 < b <= 2 * d1 && n < d && n == q * d1 + r
    ensures q <= b + 1
  {
    if q >= b + 2 {
      MulMonotone(b + 2, q, d1);
      Distribute(b, 2, d1);
      assert false;
    }
  }

  lemma JoinBelow(b: nat, d1: nat, r: nat, p: nat)
    requires r < d1 && p < b
    ensures r * b + p < d1 * b
  {
    MulMonotone(r + 1, d1, b);
    Distribute(r, 1, b);
  }

  lemma EstimateIdentity(b: nat, n: nat, d: nat, d1: nat, d0: nat, q: nat, r: nat)
    requires d == d1 * b + d0 && n == q * d1 + r
    ensures n * b == q * d + r * b - q * d0
  {
    Distribute(q * d1, r, b);
    Distribute(d1 * b, d0, q);
    assert q * d1 * b == d1 * b * q;
  }

  /** What the two nested corrections leave, as exact integers. */
  lemma Corrections(mod: nat, n: nat, d: nat, q: nat, r: nat, m: nat)
    requires 1 < mod && d < mod <= 2 * d && r < d && m < mod && q < mod
    requires n == q * d + r - m
    ensures r < m ==> q >= 1 && n == (q - 1) * d + (r + d - m)
    ensures r + d < m ==> q >= 2 && n == (q - 2) * d + (r + 2 * d - m)
  {
    Distribute(q, -1, d);
    Distribute(q, -2, d);
    if r + d < m && q < 2 {
      MulMonotone(q, 1, d);
      assert false;
    }
  }

  lemma QuotientFits(n: nat, p: nat, d: nat, b: nat, q: nat, r: nat)
    requires n < d && p < b && n * b + p == q * d + r
    ensures q < b
  {
    if q >= b {
      MulMonotone(b, q, d);
      JoinBelow(b, d, n, p);
      assert false;
    }
  }

  /** `__udiv_qrnnd_c`: exact division of a double word by a normalized word. */
  method UdivQrnnd(h: nat, n1: nat, n0: nat, d: nat) returns (q: nat, r: nat)
    requires h > 0 && Modulus(h) <= 2 * d && d < Modulus(h)
    requires n1 < d && n0 < Modulus(h)
    ensures n1 * Modulus(h) + n0 == q * d + r
    ensures r < d && q < Modulus(h)
  {
    Halves(h, n0);
    var q1, r1 := QuotientDigit(h, n1, HighPart(h, n0), d);
    var q0, r0 := QuotientDigit(h, r1, LowPart(h, n0), d);
    Join(h, q1, q0);
    q := BitOr(WMul(Modulus(h), q1, Pow2(h)), q0);
    r := r0;
    ModulusIsSquare(h);
    TwoDigits(Pow2(h), n1, HighPart(h, n0), LowPart(h, n0), d, q1, r1, q0, r0);
  }

  lemma TwoDigits(b: nat, n1: nat, hi: nat, lo: nat, d: nat, q1: nat, r1: nat, q0: nat, r0: nat)
    requires n1 * b + hi == q1 * d + r1
    requires r1 * b + lo == q0 * d + r0
    ensures n1 * (b * b) + (hi * b + lo) == (q1 * b + q0) * d + r0
  {
    calc {
      n1 * (b * b) + (hi * b + lo);
      (n1 * b + hi) * b + lo;
      (q1 * d + r1) * b + lo;
      q1 * d * b + (r1 * b + lo);
      (q1 * b + q0) * d + r0;
    }
  }

  // ---------------------------------------------------------------- multiplication

  /** Plain-C `umul_ppmm`: four partial products and one carry. */
  method UmulPpmm(h: nat, u: nat, v: nat) returns (w1: nat, w0: nat)
    requires u < Modulus(h) && v < Modulus(h)
    ensures w1 * Modulus(h) + w0 == u * v
    ensures w1 < Modulus(h) && w0 < Modulus(h)
  {
    var b, m := Pow2(h), Modulus(h);
    ModulusIsSquare(h);
    var ul, uh, vl, vh := LowPart(h, u), HighPart(h, u), LowPart(h, v), HighPart(h, v);
    Halves(h, u); Halves(h, v);
    HalfProduct(b, ul, vl); HalfProduct(b, ul, vh); HalfProduct(b, uh, vl); HalfProduct(b, uh, vh);
    var x0, x1, x2, x3 := WMul(m, ul, vl), WMul(m, ul, vh), WMul(m, uh, vl), WMul(m, uh, vh);
    Halves(h, x0);
    x1 := WAdd(m, x1, HighPart(h, x0)); // stays below the modulus
    assert x1 == ul * vh + HighPart(h, x0);
    w1, w0 := JoinProducts(h, u, v, x0, x1, x2, x3);
  }

  /** The second half of the macro, from the addition that can carry. */
  method JoinProducts(h: nat, u: nat, v: nat, x0: nat, y: nat, x2: nat, y3: nat) returns (w1: nat, w0: nat)
    requires u < Modulus(h) && v < Modulus(h)
    requires x0 < Modulus(h) && y < Modulus(h) && x2 < Modulus(h) && y3 + Pow2(h) <= Modulus(h)
    requires LowPart(h, u) * LowPart(h, v) == x0
    requires LowPart(h, u) * HighPart(h, v) + HighPart(h, x0) == y
    requires HighPart(h, u) * LowPart(h, v) == x2
    requires HighPart(h, u) * HighPart(h, v) == y3
    ensures w1 * Modulus(h) + w0 == u * v
    ensures w1 < Modulus(h) && w0 < Modulus(h)
  {
    var b, m, x3 := Pow2(h), Modulus(h), y3;
    var x1 := WAdd(m, y, x2); // may wrap
    ghost var c := if y + x2 < m then 0 else 1;
    Halves(h, u); Halves(h, v); Halves(h, x0); Halves(h, x1);
    ModulusIsSquare(h);
    var h1, l1, l0 := HighPart(h, x1), LowPart(h, x1), LowPart(h, x0);
    Join(h, l1, l0);
    Schoolbook(b, HighPart(h, u), LowPart(h, u), HighPart(h, v), LowPart(h, v), HighPart(h, x0), l0, h1, l1, c);
    HighWordFits(m, u, v, x3 + c * b + h1, l1 * b + l0);
    if x1 < x2 {
      x3 := WAdd(m, x3, b);
    }
    w1 := WAdd(m, x3, h1);
    w0 := WAdd(m, WMul(m, l1, b), l0);
  }

  /** Products of half words leave room for one more half word. */
  lemma HalfProduct(b: nat, x: nat, y: nat)
    requires x < b && y < b
    ensures x * y + b <= b * b && WMul(b * b, x, y) == x * y && b <= b * b
  {
    MulMonotone(x, b - 1, y);
    MulMonotone(y, b, b - 1);
    assert (b - 1) * b == b * b - b;
    MulMonotone(1, b, b);
  }

  lemma Schoolbook(b: nat, uh: nat, ul: nat, vh: nat, vl: nat,
                   h0: nat, l0: nat, h1: nat, l1: nat, c: nat)
    requires ul * vl == h0 * b + l0
    requires ul * vh + h0 + uh * vl == c * (b * b) + h1 * b + l1
    ensures (uh * b + ul) * (vh * b + vl) == (uh * vh + c * b + h1) * (b * b) + (l1 * b + l0)
  {
    calc {
      (uh * b + ul) * (vh * b + vl);
      uh * b * (vh * b) + uh * b * vl + ul * (vh * b) + ul * vl;
      uh * vh * (b * b) + uh * vl * b + ul * vh * b + h0 * b + l0;
      uh * vh * (b * b) + (ul * vh + h0 + uh * vl) * b + l0;
      uh * vh * (b * b) + (c * (b * b) + h1 * b + l1) * b + l0;
      (uh * vh + c * b + h1) * (b * b) + (l1 * b + l0);
    }
  }

  lemma HighWordFits(m: nat, u: nat, v: nat, hi: int, lo: nat)
    requires u < m && v < m && lo < m && u * v == hi * m + lo
    ensures 0 <= hi < m
  {
    ProductBounds(m, u, v);
    if hi >= m {
      MulMonotone(m, hi, m);
      assert false;
    } else if hi < 0 {
      MulMonotone(hi, -1, m);
      assert false;
    }
  }

  lemma ProductBounds(m: nat, u: nat, v: nat)
    requires u < m && v < m
    ensures 0 <= u * v < m * m
  {
    MulMonotone(0, u, v);
    MulMonotone(u, m, v);
    MulMonotone(v + 1, m, m);
    Distribute(v, 1, m);
  }

  // ---------------------------------------------------------------- unsigned from signed

  /** The word read as a two's complement number. */
  function Signed(m: nat, x: nat): int
    requires x < m
  {
    if 2 * x >= m then x - m else x
  }

  /** `-(x >> (W - 1))`: all ones when the sign bit is set, else zero. */
  function SignMask(h: nat, x: nat): nat
    requires h > 0 && x < Modulus(h)
  {
    ShrBound(x, 2 * h - 1, 1);
    WSub(Modulus(h), 0, Shr(x, 2 * h - 1))
  }

  lemma SignMaskAnd(h: nat, x: nat, y: nat)
    requires h > 0 && x < Modulus(h) && y < Modulus(h)
    ensures BitAnd(SignMask(h, x), y) == if Signed(Modulus(h), x) < 0 then y else 0
  {
    ShrBound(x, 2 * h - 1, 1);
    ShrPositive(x, 2 * h - 1);
    AndCommutes(Modulus(h) - 1, y);
    MaskIdentity(y, 2 * h);
  }

  lemma {:induction false} AndCommutes(x: nat, y: nat)
    ensures BitAnd(x, y) == BitAnd(y, x)
  {
    if x > 0 && y > 0 { AndCommutes(x / 2, y / 2); }
  }

  /**
   `umul_ppmm` built on a signed multiply: `s1`, `s0` are the two words the signed
   multiply delivers, `s1` being the high word.
   */
  method UmulFromSmul(h: nat, u: nat, v: nat, s1: nat, s0: nat) returns (w1: nat, w0: nat)
    requires h > 0 && u < Modulus(h) && v < Modulus(h) && s1 < Modulus(h) && s0 < Modulus(h)
    requires Signed(Modulus(h), s1) * Modulus(h) + s0 == Signed(Modulus(h), u) * Signed(Modulus(h), v)
    ensures w1 * Modulus(h) + w0 == u * v
    ensures w1 < Modulus(h) && w0 < Modulus(h)
  {
    SignMaskAnd(h, u, v);
    SignMaskAnd(h, v, u);
    w1 := WAdd(Modulus(h), WAdd(Modulus(h), s1, BitAnd(SignMask(h, u), v)), BitAnd(SignMask(h, v), u));
    w0 := s0;
    SignCorrection(Modulus(h), u, v, s1, s0);
  }

  lemma SignCorrection(m: nat, u: nat, v: nat, s1: nat, s0: nat)
    requires u < m && v < m && s1 < m && s0 < m
    requires Signed(m, s1) * m + s0 == Signed(m, u) * Signed(m, v)
    ensures var a := if Signed(m, u) < 0 then v else 0;
            var b := if Signed(m, v) < 0 then u else 0;
            WAdd(m, WAdd(m, s1, a), b) * m + s0 == u * v
  {
    var a := if Signed(m, u) < 0 then v else 0;
    var b := if Signed(m, v) < 0 then u else 0;
    var k := if Signed(m, u) < 0 && Signed(m, v) < 0 then 1 else 0;
    SignedProduct(m, u, v, Signed(m, u), Signed(m, v), a, b, k);
    var hi := Signed(m, s1) + a + b - k * m;
    Distribute(Signed(m, s1), a + b - k * m, m);
    HighWordFits(m, u, v, hi, s0);
    WAddCongruent(m, s1, Signed(m, s1), a, b, k, hi);
  }

  /** Adding twice with wrap-around reaches the one word in range. */
  lemma WAddCongruent(m: nat, s1: nat, ss: int, a: nat, b: nat, k: nat, hi: int)
    requires s1 < m && a < m && b < m && k <= 1 && (ss == s1 || ss == s1 - m)
    requires hi == ss + a + b - k * m && 0 <= hi < m
    ensures WAdd(m, WAdd(m, s1, a), b) == hi
  {
  }

  /** Each operand whose sign bit is set contributes the other operand to the high word. */
  lemma SignedProduct(m: nat, u: nat, v: nat, su: int, sv: int, a: nat, b: nat, k: nat)
    requires su == u || su == u - m
    requires sv == v || sv == v - m
    requires a == if su == u then 0 else v
    requires b == if sv == v then 0 else u
    requires k == if su != u && sv != v then 1 else 0
    ensures u * v == su * sv + (a + b - k * m) * m
  {
    if su != u && sv != v {
      assert (u - m) * (v - m) == u * v - (v + u - m) * m;
    } else if su != u {
      assert (u - m) * v == u * v - v * m;
    } else if sv != v {
      assert u * (v - m) == u * v - u * m;
    }
  }

  // ---------------------------------------------------------------- counting zeros

  /** What the external `__clz_tab` holds: the bit length of each byte. */
  ghost predicate BitLengthTable(tab: seq<nat>) {
    |tab| == 256 && forall i :: 0 <= i < 256 ==> tab[i] == BitLength(i)
  }

  /** The shift found by either search leaves a head that fits the table and is not zero. */
  ghost predicate TopByteAt(x: nat, a: nat) {
    x < Pow2(a + 8) && (a == 0 || x >= Pow2(a))
  }

  /** The search of words of up to 32 bits: a comparison tree over quarters of the word. */
  method TopQuarter(w: nat, x: nat) returns (a: nat)
    requires w <= 32 && w % 4 == 0 && x < Pow2(w)
    ensures TopByteAt(x, a) && a <= w
  {
    var bits4 := w / 4;
    a := if x < Pow2(2 * bits4)
         then (if x < Pow2(bits4) then 0 else bits4)
         else (if x < Pow2(3 * bits4) then 2 * bits4 else 3 * bits4);
    assert x < Pow2(a + bits4) by { assert 3 * bits4 + bits4 == w; }
    Pow2Monotone(a + bits4, a + 8);
  }

  /** The search of wider words: byte by byte from the top. */
  method TopByte(w: nat, x: nat) returns (a: nat)
    requires w > 0 && w % 8 == 0 && x < Pow2(w)
    ensures TopByteAt(x, a) && a <= w
  {
    a := w - 8;
    while a > 0
      invariant a % 8 == 0 && x < Pow2(a + 8) && a + 8 <= w
    {
      ShrPositive(x, a);
      ShrBound(x, a, 8);
      MaskIdentity(Shr(x, a), 8);
      if BitAnd(Shr(x, a), 0xff) != 0 {
        break;
      }
      a := a - 8;
    }
  }

  /** Generic `count_leading_zeros` for words of `w` bits. */
  method CountLeadingZeros(w: nat, x: nat, tab: seq<nat>) returns (count: nat)
    requires w > 0 && BitLengthTable(tab) && x < Pow2(w)
    requires if w <= 32 then w % 4 == 0 else w % 8 == 0
    ensures count + BitLength(x) == w
  {
    var a;
    if w <= 32 {
      a := TopQuarter(w, x);
    } else {
      a := TopByte(w, x);
    }
    ShrBound(x, a, 8);
    ShrPositive(x, a);
    if a > 0 { BitLengthShift(x, a); }
    LengthAtMost(x, w);
    count := w - (tab[Shr(x, a)] + a);
  }

  lemma {:induction false} LengthAtMost(x: nat, w: nat)
    requires x < Pow2(w)
    ensures BitLength(x) <= w
  {
    if x > 0 { LengthAtMost(x / 2, w - 1); }
  }

  /** Generic `count_trailing_zeros`: counts the leading zeros of the isolated lowest bit. */
  method CountTrailingZeros(w: nat, x: nat, tab: seq<nat>) returns (count: nat)
    requires w > 0 && BitLengthTable(tab) && 0 < x < Pow2(w)
    requires if w <= 32 then w % 4 == 0 else w % 8 == 0
    ensures count == LowestBit(x)
  {
    AndNeg(x, w);
    LowestBitBound(x, w);
    Pow2Monotone(LowestBit(x) + 1, w);
    var c := CountLeadingZeros(w, BitAnd(x, WSub(Pow2(w), 0, x)), tab);
    BitLengthPow2(LowestBit(x));
    count := w - 1 - c;
  }

  /** `LowestBit` is what its name says: 2^LowestBit divides `x` and no larger power does. */
  lemma {:induction false} LowestBitDivides(x: nat)
    requires x > 0
    ensures x % Pow2(LowestBit(x)) == 0 && x % Pow2(LowestBit(x) + 1) != 0
  {
    if x % 2 == 0 {
      LowestBitDivides(x / 2);
      HalfDivMod(x, Pow2(LowestBit(x / 2)));
      HalfDivMod(x, Pow2(LowestBit(x / 2) + 1));
    }
  }
}
