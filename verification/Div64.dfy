/**
 * 64-by-32 division through a reciprocal multiplication (include/div64.h).
 *
 * Every 64-bit operation that could overflow is written with its wrap-around
 * (`Wrap64`); that none of them spoils the quotient is what is proved.
 */
module Div64 {
  import opened Words

  /** Addition and multiplication of u64 values keep 64 bits. */
  function Wrap64(x: int): (r: u64) {
    if 0 <= x < B64 then x else x % B64
  }

  /** The widening product of two u32 values always fits. */
  function Mul32(a: u32, b: u32): (r: u64)
    ensures r == a * b <= (B32 - 1) * (B32 - 1)
  {
    MulBounds(a, B32 - 1, b, B32 - 1);
    a * b
  }

  /** Bits 63 and 31, the ones that can make the cross product overflow. */
  const OVERFLOW_BITS := 0x8000_0000_8000_0000

  /** A divisor of a power of two is a power of two. */
  lemma {:induction false} Pow2Factor(b: nat, m: nat, j: nat)
    requires b * m == Pow2(j)
    ensures IsPow2(b)
    decreases b + m + j
  {
    if b == 0 || m == 0 {
    } else if b % 2 == 0 {
      var h := b / 2;
      Regroup(2, h, m);
      MulStep(0, h, m);
      Pow2Factor(h, m, j - 1);
      assert Log2(b) == 1 + Log2(h);
    } else if j > 0 {
      OddTimesOdd(b, m);
      var h := m / 2;
      Regroup(b, h, 2);
      Pow2Factor(b, h, j - 1);
    } else {
      MulMonotone(1, m, b);
    }
  }

  lemma OddTimesOdd(b: nat, m: nat)
    requires b % 2 == 1 && (b * m) % 2 == 0
    ensures m % 2 == 0
  {
    var c := b / 2;
    Distribute(2 * c, 1, m);
    Regroup(2, c, m);
    EvenDifference(b * m, c * m, m);
  }

  lemma EvenDifference(x: int, t: int, m: int)
    requires x == 2 * t + m && x % 2 == 0
    ensures m % 2 == 0
  {
  }

  // ----- the 128-bit product in 64-bit pieces

  lemma Columns(bm: nat, ll: nat, mid: nat, hh: nat, prod: nat)
    requires prod == hh * B64 + mid * B32 + ll
    ensures (bm + prod) / B64 == hh + ((bm + ll) / B32 + mid) / B32
  {
    var c := (bm + ll) / B32 + mid;
    assert bm + prod == (hh * B32 + c) * B32 + (bm + ll) % B32;
    assert (bm + prod) / B32 == hh * B32 + c;
    DivDiv(bm + prod, B32, B32);
  }

  lemma ProductExpansion(ml: u32, mh: u32, nl: u32, nh: u32)
    ensures (mh * B32 + ml) * (nh * B32 + nl)
         == (mh * nh) * B64 + (ml * nh + mh * nl) * B32 + ml * nl
  {
    var n := nh * B32 + nl;
    Distribute(mh * B32, ml, n);
    Regroup(mh, B32, n);
    Distribute(nh * B32, nl, mh);
    Regroup(nh, B32, mh);
    Distribute(nh * B32, nl, ml);
    Regroup(nh, B32, ml);
  }

  /** High word of `bm + m * n`, column by column. */
  lemma ProductColumns(m: u64, n: u64, bm: u64, ml: u32, mh: u32, nl: u32, nh: u32)
    requires m == mh * B32 + ml && n == nh * B32 + nl
    ensures (bm + m * n) / B64 == mh * nh + ((bm + ml * nl) / B32 + ml * nh + mh * nl) / B32
    ensures 0 <= (bm + m * n) / B64 < B64
  {
    ProductExpansion(ml, mh, nl, nh);
    MulBounds(m, B64 - 1, n, B64 - 1);
    Columns(bm, Mul32(ml, nl), Mul32(ml, nh) + Mul32(mh, nl), Mul32(mh, nh), m * n);
  }

  /** A multiplier with bits 63 and 31 clear has two halves below 2^31. */
  lemma HalvesSmall(m: u64)
    requires And(m, OVERFLOW_BITS) == 0
    ensures m / B32 < 0x8000_0000 && m % B32 < 0x8000_0000
  {
    OverflowBitsClear(m);
    Pow2Values();
    BitDiv(m, 63);
    BitDiv(m, 31);
  }

  lemma OverflowBit(i: nat)
    ensures Bit(OVERFLOW_BITS, i) <==> i == 63 || i == 31
  {
    Pow2Values();
    var k := 31;
    if i < k {
      BitMod(OVERFLOW_BITS, k, i);
      BitZero(i);
    } else {
      ShrDiv(OVERFLOW_BITS, k);
      BitShift(OVERFLOW_BITS, k, i - k);
      var half := 0x1_0000_0001;
      if i > k {
        BitOfPow2(31, i - k - 1);
      }
    }
  }

  lemma OverflowBitsClear(m: nat)
    ensures And(m, OVERFLOW_BITS) == 0 <==> !Bit(m, 63) && !Bit(m, 31)
  {
    var a := And(m, OVERFLOW_BITS);
    forall i ensures Bit(a, i) <==> Bit(m, i) && (i == 63 || i == 31) {
      AndBit(m, OVERFLOW_BITS, i);
      OverflowBit(i);
    }
    if a == 0 {
      BitZero(63);
      BitZero(31);
    } else {
      Log2TopBit(a, 0);
    }
  }

  /** A sum below 2^65 is recovered from its wrapped value by comparing with an addend. */
  lemma AddWithCarry(a: u64, c: u64)
    ensures var res := Wrap64(a + c);
            res / B32 + (if res < a then B32 else 0) == (a + c) / B32
  {
    if a + c >= B64 {
      assert Wrap64(a + c) == a + c - B64;
    }
  }

  /** The largest product of two u32 values, and of two when one is below 2^31. */
  const FULL_PRODUCT := 0xffff_ffff * 0xffff_ffff
  const HALF_PRODUCT := 0x7fff_ffff * 0xffff_ffff

  /** The exact carry out of the low column, `ll` being the product of the low halves. */
  method LowColumn(m: u64, ll: u64, bias: bool, mayOverflow: bool) returns (res: u64)
    requires ll <= FULL_PRODUCT
    requires !mayOverflow ==> m / B32 < 0x8000_0000 && ll <= HALF_PRODUCT
    ensures res == ((if bias then m else 0) + ll) / B32 <= 2 * B32 - 2
    ensures !mayOverflow ==> res < B32
  {
    if !bias {
      res := ll / B32;
    } else if !mayOverflow {
      // both summands are below 2^63
      res := Wrap64(m + ll) / B32;
    } else {
      AddWithCarry(m, ll);
      res := Wrap64(m + ll);
      var tmp := if res < m then B32 else 0;
      res := Wrap64(res / B32 + tmp);
    }
  }

  /** The exact sum of the carry and the two middle columns, without its low half. */
  method MiddleColumns(carry: u64, lh: u64, hl: u64, mayOverflow: bool) returns (res: u64)
    requires carry <= 2 * B32 - 2 && lh <= FULL_PRODUCT && hl <= FULL_PRODUCT
    requires !mayOverflow ==> carry < B32 && lh <= HALF_PRODUCT && hl <= HALF_PRODUCT
    ensures res == (carry + lh + hl) / B32
  {
    res := Wrap64(carry + lh);
    if !mayOverflow {
      // with bits 63 and 31 of m clear the three summands stay below 2^64
      res := Wrap64(res + hl);
      res := res / B32;
    } else {
      var tmp := res;
      AddWithCarry(tmp, hl);
      res := Wrap64(res + hl);
      tmp := if res < tmp then B32 else 0;
      res := Wrap64(res / B32 + tmp);
    }
  }

  /**
   * `__arch_xprod_64`: the scaled 128-bit product for every multiplier,
   * dividend and bias, whichever carry strategy is taken.
   */
  method XProd64(m: u64, n: u64, bias: bool) returns (res: u64)
    ensures res == ((if bias then m else 0) + m * n) / B64
  {
    var mLo: u32, mHi: u32 := m % B32, m / B32;
    var nLo: u32, nHi: u32 := n % B32, n / B32;
    var mayOverflow := And(m, OVERFLOW_BITS) != 0;
    if !mayOverflow {
      HalvesSmall(m);
      MulBounds(mLo, 0x7fff_ffff, nLo, 0xffff_ffff);
      MulBounds(mLo, 0x7fff_ffff, nHi, 0xffff_ffff);
      MulBounds(mHi, 0x7fff_ffff, nLo, 0xffff_ffff);
    }
    ProductColumns(m, n, if bias then m else 0, mLo, mHi, nLo, nHi);
    res := LowColumn(m, Mul32(mLo, nLo), bias, mayOverflow);
    res := MiddleColumns(res, Mul32(mLo, nHi), Mul32(mHi, nLo), mayOverflow);
    res := Wrap64(res + Mul32(mHi, nHi));
  }

  /** The same product as computed on the test dividend (lines 78-84). */
  method TestProduct(m: u64, x: u64) returns (res: u64)
    ensures res == (m * x) / B64
  {
    var mLo: u32, mHi: u32 := m % B32, m / B32;
    var xLo: u32, xHi: u32 := x % B32, x / B32;
    ProductColumns(m, x, 0, mLo, mHi, xLo, xHi);
    res := Mul32(mLo, xLo) / B32;
    res := MiddleColumns(res, Mul32(mLo, xHi), Mul32(mHi, xLo), true);
    res := Wrap64(res + Mul32(mHi, xHi));
  }

  // ----- reciprocals

  /** `m` is the reciprocal of `b` scaled by `2^64 p` and rounded up, with error `e`. */
  ghost predicate RoundedUp(b: int, p: int, m: int, e: int) {
    0 < e < b && p <= b < 2 * p && m * b == B64 * p + e
  }

  /** A quotient by the scale, pinned by the two bounds multiplied by the divisor. */
  lemma ScaledQuotient(a: int, P: int, b: int, q: int, lo: int)
    requires P > 0 && b > 0
    requires lo == (q * P) * b && lo <= a * b < lo + P * b
    ensures a / P == q
  {
    Distribute(q * P, P, b);
    ScaleOrder(q * P, a, b);
    ScaleOrder(a, q * P + P, b);
    QuotientIs(a, P, q);
  }

  /** With `n = q b + r`: the lower bound `(q P) b` in terms of `n` and `r`. */
  lemma LowerBound(n: int, q: int, b: int, r: int, P: int)
    requires n == q * b + r
    ensures (q * P) * b == n * P - r * P
  {
    Regroup(q, P, b);
    Regroup(q, b, P);
    Distribute(n, r, P);
  }

  /** The largest 64-bit dividend that leaves remainder `b - 1`. */
  function TestDividend(b: u32): (x: u64)
    requires b > 0
    ensures x + 1 == ((B64 - 1) / b) * b
  {
    TestDividendRange(b);
    (B64 - 1) / b * b - 1
  }

  lemma TestDividendRange(b: u32)
    requires b > 0
    ensures 1 <= (B64 - 1) / b && b <= ((B64 - 1) / b) * b < B64
  {
    var Q := (B64 - 1) / b;
    assert Q * b + (B64 - 1) % b == B64 - 1;
    if Q < 1 { MulMonotone(Q, 0, b); }
    MulMonotone(1, Q, b);
  }

  lemma TestDividendIsLargest(n: u64, b: u32)
    requires b > 0 && !IsPow2(b) && n % b == b - 1
    ensures n <= TestDividend(b)
  {
    var q, Q := n / b, (B64 - 1) / b;
    assert n == q * b + (b - 1);
    Distribute(q, 1, b);
    NoExactReciprocal(b, q + 1, 0);
    Euclid(B64 - 1, b);
    if Q < q + 1 { MulStep(Q, q + 1, b); }
    MulMonotone(q + 1, Q, b);
  }

  lemma ErrorTerm(m: int, n: int, b: int, P: int, e: int)
    requires m * b == P + e
    ensures (m * n) * b == n * P + n * e
  {
    Regroup(m, n, b);
    Distribute(P, e, n);
  }

  /** Rounding up is exact for every dividend once the error at the test dividend is below one. */
  lemma RoundUpExact(n: u64, b: u32, p: u32, m: u64, e: nat)
    requires RoundedUp(b, p, m, e) && !IsPow2(b)
    requires TestDividend(b) * e < B64 * p
    ensures (m * n) / (B64 * p) == n / b
  {
    var P, q, r := B64 * p, n / b, n % b;
    assert n == q * b + r;
    ErrorTerm(m, n, b, P, e);
    LowerBound(n, q, b, r, P);
    ErrorBelowGap(n, b, p, e, r);
    MulBounds(n, n, e, e);
    MulBounds(r, r, P, P);
    ScaledQuotient(m * n, P, b, q, n * P - r * P);
  }

  lemma ErrorBelowGap(n: u64, b: u32, p: u32, e: nat, r: nat)
    requires 0 < e < b < 2 * p && !IsPow2(b) && r == n % b
    requires TestDividend(b) * e < B64 * p
    ensures n * e < (B64 * p) * b - r * (B64 * p)
  {
    var P := B64 * p;
    Distribute(b, r, P);
    if r == b - 1 {
      TestDividendIsLargest(n, b);
      MulMonotone(n, TestDividend(b), e);
    } else {
      MulBounds(n, B64 - 1, e, 2 * p - 1);
      MulMonotone(2, b - r, P);
    }
  }

  /** Rounding down with a bias is exact while the error stays within one. */
  lemma RoundDownExact(n: u64, b: nat, P: nat, m: nat, f: nat)
    requires b > 0 && P > 0 && f > 0
    requires m * b == P - f && (n + 1) * f <= P
    ensures (m + m * n) / P == n / b
  {
    var q, r := n / b, n % b;
    assert n == q * b + r;
    LowerBound(n, q, b, r, P);
    var a, nP, rP, err := m + m * n, n * P, r * P, (n + 1) * f;
    assert a * b == nP + P - err by {
      ErrorTerm(m, n + 1, b, P, 0 - f);
      Distribute(n, 1, m);
      Distribute(n, 1, P);
    }
    assert 0 < err <= P by { MulStep(0, n + 1, f); }
    assert 0 <= rP && rP + P <= P * b by {
      MulMonotone(r + 1, b, P);
      Distribute(r, 1, P);
      MulBounds(r, r, P, P);
    }
    ScaledQuotient(a, P, b, q, nP - rP);
  }

  /** One dividend decides: the test passes exactly when its error is below one. */
  lemma TestIsDecisive(b: u32, p: u32, m: u64, e: nat)
    requires RoundedUp(b, p, m, e)
    ensures (m * TestDividend(b)) / (B64 * p) == TestDividend(b) / b <==> TestDividend(b) * e < B64 * p
  {
    var P, Q, x := B64 * p, (B64 - 1) / b, TestDividend(b);
    Distribute(Q, 1, b);
    QuotientIs(x, b, Q - 1);
    ErrorTerm(m, x, b, P, e);
    LowerBound(x, Q - 1, b, b - 1, P);
    MulBounds(x, x, e, e);
    MulMonotone(0, b - 1, P);
    Distribute(b, 1, P);
    var lo := ((Q - 1) * P) * b;
    if x * e < P {
      ScaledQuotient(m * x, P, b, Q - 1, lo);
    } else {
      Distribute(Q, 1, P);
      Distribute((Q - 1) * P, P, b);
      ScaleOrder(m * x, Q * P, b);
      var k := (m * x) / P;
      assert m * x < k * P + P;
      if k == Q - 1 { assert false; }
    }
  }

  /**
   * The single test dividend stands for all of them: the rounded-up
   * reciprocal is exact on every 64-bit dividend if and only if it is exact
   * on the test dividend.
   */
  lemma OneDividendDecides(b: u32, p: u32, m: u64, e: nat)
    requires RoundedUp(b, p, m, e) && !IsPow2(b)
    ensures (forall n: u64 :: (m * n) / (B64 * p) == n / b)
       <==> (m * TestDividend(b)) / (B64 * p) == TestDividend(b) / b
  {
    TestIsDecisive(b, p, m, e);
    if TestDividend(b) * e < B64 * p {
      forall n: u64 ensures (m * n) / (B64 * p) == n / b {
        RoundUpExact(n, b, p, m, e);
      }
    }
  }

  /** The two-step computation of the reciprocal is exact up to a positive remainder. */
  lemma ReciprocalParts(b: u32, p: u32, j: nat, Q: nat, R: nat, c: nat, f: nat)
    requires b > 0 && !IsPow2(b) && p == Pow2(j)
    requires Q * b + R == B64 - 1 && R < b
    requires (R + 1) * p == c * b + f && f < b
    ensures 0 < f && (Q * p + c) * b == B64 * p - f
  {
    Distribute(Q * b, R + 1, p);
    Regroup(Q, b, p);
    Distribute(Q * p, c, b);
    if f == 0 { NoExactReciprocal(b, Q * p + c, j); }
  }

  lemma RoundUpDivision(w: int, b: int, c: int, f: int)
    requires 0 < f < b && w == c * b + f
    ensures (w + b - 1) / b == c + 1
  {
    Distribute(c, 1, b);
    QuotientIs(w + b - 1, b, c + 1);
  }

  lemma NoExactReciprocal(b: u32, m: int, j: nat)
    requires b > 0 && !IsPow2(b)
    ensures m * b != B64 * Pow2(j)
  {
    if m * b == B64 * Pow2(j) {
      if m < 0 { MulStep(m, 0, b); }
      Pow2Values();
      Pow2Add(64, j);
      Pow2Factor(b, m, 64 + j);
    }
  }

  /** Both roundings of the reciprocal fit in 64 bits. */
  lemma ReciprocalFits(b: u32, p: u32, j: nat, Q: nat, c: nat, f: nat)
    requires b > 0 && !IsPow2(b) && p == Pow2(j) && p <= b < 2 * p
    requires 0 < f < b && (Q * p + c) * b == B64 * p - f
    ensures 0 <= Q * p && Q * p + c + 1 < B64
    ensures RoundedUp(b, p, Q * p + c + 1, b - f)
  {
    var m := Q * p + c + 1;
    MulMonotone(0, Q, p);
    Distribute(m - 1, 1, b);
    if p == b { Log2Unique(b, j); }
    ScaleOrder(m, B64, b);
  }

  /** The multiplier's trailing zeros never exceed those of its scale. */
  lemma TrailingZerosWithinScale(b: u32, p: u32, j: nat, m: u64, e: nat)
    requires RoundedUp(b, p, m, e) && p == Pow2(j)
    ensures m > 0 && TrailingZeros(m) <= j
  {
    if m == 0 { MulMonotone(m, 0, b); }
    var k := TrailingZeros(m);
    if j < k {
      TrailingZerosDivides(m);
      Pow2Divides(m, j + 1, k);
      var d := 2 * p;
      var h := m / d;
      assert m == h * d;
      Regroup(h, d, b);
      Distribute(h * b, B64 / 2, d);
      var t := h * b - B64 / 2;
      assert e == t * d;
      if t <= 0 { MulMonotone(t, 0, d); } else { MulMonotone(1, t, d); }
    }
  }

  lemma TopBitSet(b: u32, p: u32, m: u64, e: nat)
    requires RoundedUp(b, p, m, e)
    ensures Bit(m, 63)
  {
    MulMonotone(b, 2 * p, m);
    ScaleOrder(B64, 2 * m, p);
    Regroup(2, m, p);
    Pow2Values();
    BitDiv(m, 63);
  }

  // ----- shortening the multiplier

  lemma {:induction false} OnesBit(w: nat, k: nat, i: nat)
    requires k <= w
    ensures Pow2(k) <= Pow2(w) && Bit(Pow2(w) - Pow2(k), i) == (k <= i < w)
  {
    Pow2Monotone(k, w);
    if k > 0 {
      Pow2Monotone(k - 1, w - 1);
      if i > 0 { OnesBit(w - 1, k - 1, i - 1); }
    } else {
      NotBit(0, w, i);
      BitZero(i);
    }
  }

  lemma LowestBit64(m: u64)
    requires m > 0
    ensures And(m, B64 - m) == Pow2(TrailingZeros(m)) < B64
    ensures TrailingZeros(m) < 64
  {
    Pow2Values();
    LowestSetBit(m, 64);
    TrailingZerosDivides(m);
    if TrailingZeros(m) >= 64 { Pow2Monotone(64, TrailingZeros(m)); }
  }

  /**
   * The candidate shifts of lines 113-115. Bit `s` of the result says that
   * shifting by `s` loses no set bit and clears bit 31.
   */
  function ShiftCandidates(m: u64): (bits: u32)
    requires m > 0
    ensures forall s: nat :: s < 32 ==>
              (Bit(bits, s) <==> 1 <= s <= TrailingZeros(m) && !Bit(m, 31 + s))
  {
    LowestBit64(m);
    var low := And(m, B64 - m);
    var negated: u32 := (B64 - low) % B32;
    ComplementFits(negated, m / B32);
    var bits: u32 := Or(negated, m / B32);
    var bits: u32 := (2 * (B32 - 1 - bits)) % B32;
    CandidateBits(m, low, bits);
    bits
  }

  lemma ComplementFits(x: u32, y: u32)
    ensures Or(x, y) < B32
  {
    Pow2Values();
    OrBound(x, y, 32);
  }

  lemma CandidateBits(m: u64, low: nat, bits: u32)
    requires m > 0 && low == Pow2(TrailingZeros(m)) < B64 && TrailingZeros(m) < 64
    requires Or((B64 - low) % B32, m / B32) < B32
    requires bits == (2 * (B32 - 1 - Or((B64 - low) % B32, m / B32))) % B32
    ensures forall s: nat :: s < 32 ==>
              (Bit(bits, s) <==> 1 <= s <= TrailingZeros(m) && !Bit(m, 31 + s))
  {
    forall s: nat | s < 32
      ensures Bit(bits, s) <==> 1 <= s <= TrailingZeros(m) && !Bit(m, 31 + s)
    {
      var negated, hi := (B64 - low) % B32, m / B32;
      DoubledComplementBit(Or(negated, hi), s);
      if s > 0 {
        OrBit(negated, hi, s - 1);
        NegatedPow2Bit(TrailingZeros(m), low, s - 1);
        HighHalfBit(m, s - 1);
      }
    }
  }

  lemma DoubledComplementBit(all: u32, s: nat)
    requires s < 32
    ensures Bit((2 * (B32 - 1 - all)) % B32, s) <==> s > 0 && !Bit(all, s - 1)
  {
    Pow2Values();
    BitMod(2 * (B32 - 1 - all), 32, s);
    if s > 0 { NotBit(all, 32, s - 1); }
  }

  lemma NegatedPow2Bit(k: nat, low: nat, i: nat)
    requires k < 64 && i < 32 && low == Pow2(k) < B64
    ensures Bit((B64 - low) % B32, i) <==> k <= i
  {
    Pow2Values();
    OnesBit(64, k, i);
    BitMod(B64 - low, 32, i);
  }

  lemma HighHalfBit(m: u64, i: nat)
    ensures Bit(m / B32, i) == Bit(m, i + 32)
  {
    Pow2Values();
    ShrDiv(m, 32);
    BitShift(m, 32, i);
  }

  lemma LosslessShift(m: nat, s: nat)
    requires m % Pow2(s) == 0
    ensures m == Shr(m, s) * Pow2(s) && Shr(m, s) == m / Pow2(s) <= m
  {
    ShrDiv(m, s);
    Euclid(m, Pow2(s));
  }

  /** A shift of a multiplier and its scale that loses nothing. */
  lemma ShiftBoth(m: u64, p: u32, j: nat, s: nat)
    requires m > 0 && p == Pow2(j) && s <= TrailingZeros(m) && s <= j
    ensures m == Shr(m, s) * Pow2(s) && p == Shr(p, s) * Pow2(s) && Shr(p, s) > 0
    ensures Shr(m, s) == m / Pow2(s) <= m && Shr(p, s) == p / Pow2(s) <= p
  {
    TrailingZerosDivides(m);
    Pow2Divides(m, s, TrailingZeros(m));
    LosslessShift(m, s);
    Pow2DividesPow2(s, j);
    LosslessShift(p, s);
    assert p > 0;
  }

  lemma Pow2DividesPow2(s: nat, j: nat)
    requires s <= j
    ensures Pow2(j) % Pow2(s) == 0
  {
    Pow2Add(j - s, s);
    ModMultiple(Pow2(j - s), Pow2(s));
  }

  /** Shifting by `t` leaves no overflow bit exactly when bits `31 + t` and `63 + t` were clear. */
  lemma OverflowAfterShift(m: u64, t: nat)
    ensures And(Shr(m, t), OVERFLOW_BITS) == 0 <==> !Bit(m, 31 + t) && !Bit(m, 63 + t)
  {
    OverflowBitsClear(Shr(m, t));
    BitShift(m, t, 31);
    BitShift(m, t, 63);
  }

  /**
   * Lines 113-128: shift the multiplier and its scale right together. No set
   * bit is lost, the scale stays positive, and the cross product is made
   * overflow-free whenever some lossless shift can do so.
   */
  method ReduceMultiplier(m: u64, p: u32, ghost j: nat) returns (m': u64, p': u32, ghost s: nat)
    requires m > 0 && p == Pow2(j) && TrailingZeros(m) <= j < 32 && Bit(m, 63)
    ensures m == m' * Pow2(s) && p == p' * Pow2(s) && p' > 0
    ensures And(m', OVERFLOW_BITS) == 0 <==>
            exists t: nat :: t <= TrailingZeros(m) && And(Shr(m, t), OVERFLOW_BITS) == 0
  {
    var bits := ShiftCandidates(m);
    LowestBit64(m);
    if bits == 0 {
      var low := And(m, B64 - m);
      s := TrailingZeros(m);
      ShiftBoth(m, p, j, s);
      p' := p / low;
      m' := m / low;
      NoShiftHelps(m);
    } else {
      s := Log2(bits);
      BestShift(bits, s, m);
      ShiftBoth(m, p, j, s);
      p' := Shr(p, Log2(bits));
      m' := Shr(m, Log2(bits));
    }
  }

  lemma BestShift(bits: u32, s: nat, m: u64)
    requires m > 0 && bits == ShiftCandidates(m) && bits > 0 && s == Log2(bits)
    ensures 1 <= s <= TrailingZeros(m) && And(Shr(m, s), OVERFLOW_BITS) == 0
  {
    Log2TopBit(bits, 0);
    Log2Bounds(bits);
    Pow2Values();
    if s >= 32 { Pow2Monotone(32, s); }
    OverflowAfterShift(m, s);
    NoBitAbove(m, 64, 63 + s);
  }

  lemma NoShiftHelps(m: u64)
    requires m > 0 && ShiftCandidates(m) == 0 && TrailingZeros(m) < 32 && Bit(m, 63)
    ensures forall t: nat :: t <= TrailingZeros(m) ==> And(Shr(m, t), OVERFLOW_BITS) != 0
  {
    forall t: nat | t <= TrailingZeros(m) ensures And(Shr(m, t), OVERFLOW_BITS) != 0 {
      OverflowAfterShift(m, t);
      BitZero(t);
    }
  }

  // ----- the division

  /** Dividing by the shortened multiplier and scale is dividing by the original ones. */
  lemma ReducedQuotient(m: nat, n: nat, p: nat, m': nat, p': nat, t: nat)
    requires t > 0 && p' > 0 && m == m' * t && p == p' * t
    ensures (m' * n) / B64 / p' == (m * n) / (B64 * p)
  {
    MulBounds(m', m', n, n);
    DivDiv(m' * n, B64, p');
    Regroup(m', t, n);
    Regroup(B64, p', t);
    DivScale(m' * n, B64 * p', t);
  }

  /** `-1 % (b / (b & -b)) == 0`: the odd part divides 2^64 - 1. */
  lemma ExactOddPart(n: u64, b: u32, t: nat, c: nat, m: nat)
    requires b > 0 && t > 0 && c > 0 && b == t * c && m * c == B64 - 1
    ensures (m + m * (n / t)) / B64 == n / b
  {
    QuotientBelow(n, t);
    RoundDownExact(n / t, c, B64, m, 1);
    DivDiv(n, t, c);
  }

  lemma LowestBit32(b: u32)
    requires b > 0
    ensures And(b, B32 - b) == Pow2(TrailingZeros(b)) <= b
    ensures b == And(b, B32 - b) * (b / And(b, B32 - b)) && b / And(b, B32 - b) > 0
  {
    IsolatesLowestBit32(b);
    TrailingZerosDivides(b);
    ShrDiv(b, TrailingZeros(b));
  }

  lemma IsolatesLowestBit32(b: u32)
    requires b > 0
    ensures And(b, B32 - b) == Pow2(TrailingZeros(b))
  {
    Pow2Values();
    LowestSetBit(b, 32);
  }

  lemma ReciprocalDigits(b: u32, p: u32, Q: nat, R: nat, c: nat, f: nat)
    requires b > 0 && !IsPow2(b) && p == Pow2(Log2(b))
    requires Q * b + R == B64 - 1 && R < b
    requires (R + 1) * p == c * b + f && f < b
    ensures 0 <= (R + 1) * p < B64 - B32 && 0 <= Q * p < B64
    ensures ((R + 1) * p) / b == c && ((R + 1) * p + b - 1) / b == c + 1
    ensures (Q * p + c) * b == B64 * p - f
    ensures Q * p + c + 1 < B64 && RoundedUp(b, p, Q * p + c + 1, b - f)
  {
    Log2Bounds(b);
    MulBounds(R + 1, B32 - 1, p, B32 - 1);
    ReciprocalParts(b, p, Log2(b), Q, R, c, f);
    QuotientIs((R + 1) * p, b, c);
    RoundUpDivision((R + 1) * p, b, c, f);
    ReciprocalFits(b, p, Log2(b), Q, c, f);
  }

  lemma DigitsOf(b: u32, p: u32, Q: nat, R: nat) returns (c: nat, f: nat)
    requires b > 0 && !IsPow2(b) && p == Pow2(Log2(b))
    requires Q == (B64 - 1) / b && R == (B64 - 1) % b
    ensures 0 <= (R + 1) * p < B64 - B32 && 0 <= Q * p < B64
    ensures ((R + 1) * p) / b == c && ((R + 1) * p + b - 1) / b == c + 1
    ensures 0 < f < b && (Q * p + c) * b == B64 * p - f
    ensures Q * p + c + 1 < B64 && RoundedUp(b, p, Q * p + c + 1, b - f)
  {
    Euclid(B64 - 1, b);
    MulBounds(R + 1, R + 1, p, p);
    c, f := NatDivision((R + 1) * p, b);
    ReciprocalDigits(b, p, Q, R, c, f);
  }

  lemma NatDivision(x: nat, d: nat) returns (q: nat, r: nat)
    requires d > 0
    ensures x == q * d + r && r < d
  {
    Euclid(x, d);
    q, r := x / d, x % d;
  }

  /** The rounded-up reciprocal in 64-bit arithmetic (lines 71-73). */
  method RoundUpReciprocal(b: u32, p: u32) returns (m: u64, ghost e: nat)
    requires b > 0 && !IsPow2(b) && p == Pow2(Log2(b))
    ensures RoundedUp(b, p, m, e)
    ensures m == (B64 * p) / b + 1
  {
    QuotientBelow(B64 - 1, b);
    var Q: u64, R: u32 := (B64 - 1) / b, (B64 - 1) % b;
    ghost var c, f := DigitsOf(b, p, Q, R);
    e := b - f;
    m := RoundedSum(Q * p, (R + 1) * p, b - 1, b, c + 1);
    ReciprocalIs(B64 * p, b, m - 1, f);
  }

  lemma ReciprocalIs(scale: nat, b: u32, q: int, f: nat)
    requires b > 0 && f < b && (q + 1) * b == scale + (b - f)
    ensures scale / b == q
  {
    Distribute(q, 1, b);
    QuotientIs(scale, b, q);
  }

  /** The rounded-down reciprocal in 64-bit arithmetic (lines 104-106). */
  method RoundDownReciprocal(b: u32, p: u32) returns (m: u64, ghost f: nat)
    requires b > 0 && !IsPow2(b) && p == Pow2(Log2(b))
    ensures RoundedUp(b, p, m + 1, b - f) && m * b == B64 * p - f
    ensures m == (B64 * p) / b
  {
    QuotientBelow(B64 - 1, b);
    var Q: u64, R: u32 := (B64 - 1) / b, (B64 - 1) % b;
    ghost var c;
    c, f := DigitsOf(b, p, Q, R);
    m := RoundedSum(Q * p, (R + 1) * p, 0, b, c);
    ReciprocalIs(B64 * p, b, m, f);
  }

  /** `m = a; m += (w + round) / b`, in 64-bit arithmetic. */
  method RoundedSum(a: nat, w: nat, round: nat, b: u32, ghost c: nat) returns (m: u64)
    requires b > 0 && w + round < B64 && a + c < B64 && (w + round) / b == c
    ensures m == a + c
  {
    m := Wrap64(a);
    var sum := Wrap64(Wrap64(w) + round);
    m := Wrap64(m + sum / b);
  }

  /**
   * The constants chosen for divisor `b` give the exact quotient of every
   * 64-bit dividend: divide by `pre`, multiply, add the bias, drop 64 bits
   * and divide by `p`.
   */
  ghost predicate Divides(b: u32, pre: nat, m: nat, p: nat, bias: bool)
    requires b > 0
  {
    pre > 0 && p > 0 &&
    forall n: u64 :: ((if bias then m else 0) + m * (n / pre)) / B64 / p == n / b
  }

  lemma DividesAt(b: u32, pre: u32, m: u64, p: u32, bias: bool, n: u64, high: u64)
    requires b > 0 && Divides(b, pre, m, p, bias) && high == ((if bias then m else 0) + m * (n / pre)) / B64
    ensures 0 <= high / p == n / b <= n
  {
    QuotientBelow(n, b);
  }

  /** Does the test dividend accept the rounded-up reciprocal? (lines 75-85, 94) */
  method TestAccepts(b: u32, p: u32, m: u64, ghost e: nat) returns (ok: bool)
    requires b > 0 && p > 0 && RoundedUp(b, p, m, e)
    ensures ok <==> TestDividend(b) * e < B64 * p
  {
    var x := TestDividend(b);
    var res := TestProduct(m, x);
    res := res / p;
    MulBounds(m, m, x, x);
    DivDiv(m * x, B64, p);
    TestIsDecisive(b, p, m, e);
    ok := res == x / b;
  }

  /** Lines 68-131, the part evaluated at compile time. */
  method ChooseMultiplier(b: u32) returns (pre: u32, m: u64, p: u32, bias: bool)
    requires b != 0 && !IsPow2(b)
    ensures Divides(b, pre, m, p, bias)
  {
    Log2Bounds(b);
    p := Pow2(Log2(b));
    ghost var e;
    m, e := RoundUpReciprocal(b, p);
    var ok := TestAccepts(b, p, m, e);
    LowestBit32(b);
    var low: u32 := And(b, B32 - b);
    if (B64 - 1) % (b / low) == 0 {
      pre, p, bias := low, 1, true;
      m := ExactMultiplier(b, low);
    } else if !ok {
      pre, bias := 1, true;
      ghost var up := m;
      ghost var f;
      m, f := RoundDownReciprocal(b, p);
      BiasDivides(b, p, m, f, up, e);
    } else {
      pre, bias := 1, false;
      m, p := UnbiasedMultiplier(b, m, p, e);
    }
  }

  method ExactMultiplier(b: u32, low: u32) returns (m: u64)
    requires b > 0 && low > 0 && b / low > 0 && b == low * (b / low)
    requires (B64 - 1) % (b / low) == 0
    ensures Divides(b, low, m, 1, true)
  {
    m := (B64 - 1) / (b / low);
    QuotientBelow(B64 - 1, b / low);
    Euclid(B64 - 1, b / low);
    forall n: u64 ensures (m + m * (n / low)) / B64 / 1 == n / b {
      ExactOddPart(n, b, low, b / low, m);
    }
  }

  lemma BiasDivides(b: u32, p: u32, m: u64, f: nat, up: u64, e: nat)
    requires p > 0 && RoundedUp(b, p, up, e) && TestDividend(b) * e >= B64 * p
    requires RoundedUp(b, p, m + 1, b - f) && m * b == B64 * p - f
    ensures Divides(b, 1, m, p, true)
  {
    forall n: u64 ensures (m + m * (n / 1)) / B64 / p == n / b {
      BiasSuffices(n, b, p, m, f, up, e);
    }
  }

  method UnbiasedMultiplier(b: u32, m: u64, p: u32, ghost e: nat) returns (m': u64, p': u32)
    requires b > 0 && !IsPow2(b) && p == Pow2(Log2(b))
    requires RoundedUp(b, p, m, e) && TestDividend(b) * e < B64 * p
    ensures Divides(b, 1, m', p', false)
  {
    TrailingZerosWithinScale(b, p, Log2(b), m, e);
    TopBitSet(b, p, m, e);
    Log2Below32(b);
    ghost var s;
    m', p', s := ReduceMultiplier(m, p, Log2(b));
    forall n: u64 ensures (0 + m' * (n / 1)) / B64 / p' == n / b {
      RoundUpExact(n, b, p, m, e);
      ReducedQuotient(m, n, p, m', p', Pow2(s));
    }
  }

  /**
   * `__div64_const32`: the exact quotient for every dividend and every
   * divisor that is neither zero nor a power of two, whichever of the three
   * strategies the divisor selects.
   */
  method Div64Const32(n: u64, b: u32) returns (res: u64)
    requires b != 0 && !IsPow2(b)
    ensures res == n / b
  {
    var pre, m, p, bias := ChooseMultiplier(b);
    QuotientBelow(n, pre);
    var high := XProd64(m, n / pre, bias);
    DividesAt(b, pre, m, p, bias, n, high);
    res := high / p;
  }

  lemma Log2Below32(b: u32)
    requires b > 0
    ensures Log2(b) < 32
  {
    Log2Bounds(b);
    Pow2Values();
    if Log2(b) >= 32 { Pow2Monotone(32, Log2(b)); }
  }

  /** When the test dividend rejects the rounded-up reciprocal, the biased rounded-down one is exact. */
  lemma BiasSuffices(n: u64, b: u32, p: u32, m: u64, f: nat, up: u64, e: nat)
    requires RoundedUp(b, p, up, e) && TestDividend(b) * e >= B64 * p
    requires RoundedUp(b, p, m + 1, b - f) && m * b == B64 * p - f
    ensures (m + m * n) / B64 / p == n / b
  {
    UniqueRounding(b, p, up, e, m + 1, b - f);
    if e <= p { MulBounds(TestDividend(b), B64 - 1, e, p); }
    MulBounds(n + 1, B64, f, p);
    RoundDownExact(n, b, B64 * p, m, f);
    MulBounds(m, m, n, n);
    DivDiv(m + m * n, B64, p);
  }

  lemma UniqueRounding(b: int, p: int, m: int, e: int, m': int, e': int)
    requires RoundedUp(b, p, m, e) && RoundedUp(b, p, m', e')
    ensures m == m' && e == e'
  {
    Distribute(m, m', b);
    if m < m' { MulStep(m, m', b); } else if m' < m { MulStep(m', m, b); }
  }

  /** Lines 208-211: shift and mask. */
  method DivByPow2(n: u64, base: u32) returns (q: u64, rem: u32)
    requires IsPow2(base)
    ensures q == n / base && rem == n % base
  {
    LowBitsMask(n, Log2(base));
    Euclid(n, base);
    rem := And(n, base - 1);
    q := Shr(n, Log2(base));
  }

  /** Lines 212-219: the quotient by reciprocal, the remainder from the low halves. */
  method DivByConstant(n: u64, base: u32) returns (q: u64, rem: u32)
    requires base != 0 && !IsPow2(base)
    ensures q == n / base && rem == n % base
  {
    var nLo: u32 := n % B32;
    q := Div64Const32(n, base);
    var resLo: u32 := q % B32;
    RemainderFromLowHalves(n, base, q);
    rem := (nLo - Mul32(resLo, base) % B32) % B32;
  }

  /**
   * `do_div` for a constant base, and for a variable base with a dividend of
   * 32 bits: the new dividend is the quotient and the result the remainder.
   */
  method DoDiv(n: u64, base: u32, isConstant: bool) returns (q: u64, rem: u32)
    requires base != 0
    requires isConstant || n < B32
    ensures q == n / base && rem == n % base
  {
    if isConstant && IsPow2(base) {
      q, rem := DivByPow2(n, base);
    } else if isConstant {
      q, rem := DivByConstant(n, base);
    } else {
      QuotientBelow(n, base);
      Euclid(n, base);
      rem := n % base;
      q := n / base;
    }
  }

  /** The remainder is recovered from the low halves alone. */
  lemma RemainderFromLowHalves(n: u64, base: u32, q: u64)
    requires base > 0 && q == n / base
    ensures (n % B32 - ((q % B32) * base) % B32) % B32 == n % base
  {
    var r, ql := n % base, q % B32;
    assert n == q * base + r;
    var qh := q / B32;
    Distribute(qh * B32, ql, base);
    Regroup(qh, B32, base);
    LowHalfDifference(n, ql * base, qh * base, r);
  }

  lemma LowHalfDifference(n: int, lo: int, hi: int, r: int)
    requires n == B32 * hi + lo + r && 0 <= r < B32
    ensures (n % B32 - lo % B32) % B32 == r
  {
  }

  /** `lldiv`: the quotient alone. */
  method LlDiv(dividend: u64, divisor: u32, isConstant: bool) returns (q: u64)
    requires divisor != 0
    requires isConstant || dividend < B32
    ensures q == dividend / divisor
  {
    var rem;
    q, rem := DoDiv(dividend, divisor, isConstant);
  }
}
