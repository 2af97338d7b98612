/**
 * Machine words as natural numbers: powers of two, and C's bitwise operators
 * defined by recursion on binary digits.
 */
module Words {

  const B32 := 0x1_0000_0000
  const B64 := 0x1_0000_0000_0000_0000

  type u32 = x: int | 0 <= x < 0x1_0000_0000
  type u64 = x: int | 0 <= x < 0x1_0000_0000_0000_0000

  function Pow2(k: nat): (r: nat)
    ensures r > 0
  {
    if k == 0 then 1 else 2 * Pow2(k - 1)
  }

  /** Binary digit `i` of `x`. */
  predicate Bit(x: nat, i: nat) {
    if i == 0 then x % 2 == 1 else Bit(x / 2, i - 1)
  }

  function And(x: nat, y: nat): nat {
    if x == 0 then 0
    else 2 * And(x / 2, y / 2) + (if x % 2 == 1 && y % 2 == 1 then 1 else 0)
  }

  function Or(x: nat, y: nat): nat
    decreases x + y
  {
    if x == 0 && y == 0 then 0
    else 2 * Or(x / 2, y / 2) + (if x % 2 == 1 || y % 2 == 1 then 1 else 0)
  }

  /** `~x` on words of `w` bits. */
  function Not(x: nat, w: nat): (r: nat)
    requires x < Pow2(w)
    ensures r < Pow2(w)
  {
    Pow2(w) - 1 - x
  }

  /** `-x` on words of `w` bits. */
  function Neg(x: nat, w: nat): (r: nat)
    requires x < Pow2(w)
    ensures r < Pow2(w)
  {
    if x == 0 then 0 else Pow2(w) - x
  }

  /** `x >> s`. */
  function Shr(x: nat, s: nat): (r: nat) {
    if s == 0 then x else Shr(x / 2, s - 1)
  }

  /** The position of the most significant set bit. */
  function Log2(x: nat): nat
    requires x > 0
  {
    if x == 1 then 0 else 1 + Log2(x / 2)
  }

  /** The position of the least significant set bit. */
  function TrailingZeros(x: nat): nat
    requires x > 0
  {
    if x % 2 == 1 then 0 else 1 + TrailingZeros(x / 2)
  }

  predicate IsPow2(x: nat) {
    x > 0 && Pow2(Log2(x)) == x
  }

  // ----- powers of two

  lemma {:induction false} Pow2Add(i: nat, j: nat)
    ensures Pow2(i + j) == Pow2(i) * Pow2(j)
  {
    if i > 0 {
      Pow2Add(i - 1, j);
      assert Pow2(i + j) == 2 * (Pow2(i - 1) * Pow2(j));
    }
  }

  lemma {:induction false} Pow2Monotone(i: nat, j: nat)
    requires i <= j
    ensures Pow2(i) <= Pow2(j)
  {
    if i < j { Pow2Monotone(i, j - 1); }
  }

  lemma Pow2Strict(i: nat, j: nat)
    requires i < j
    ensures 2 * Pow2(i) <= Pow2(j)
  {
    Pow2Monotone(i + 1, j);
  }

  lemma {:induction false} Log2Bounds(x: nat)
    requires x > 0
    ensures Pow2(Log2(x)) <= x < 2 * Pow2(Log2(x))
  {
    if x > 1 { Log2Bounds(x / 2); }
  }

  lemma {:induction false} Log2Unique(x: nat, k: nat)
    requires Pow2(k) <= x < 2 * Pow2(k)
    ensures Log2(x) == k
  {
    if k > 0 { Log2Unique(x / 2, k - 1); }
  }

  lemma Pow2Values()
    ensures Pow2(16) == 0x1_0000
    ensures Pow2(31) == 0x8000_0000 && Pow2(32) == B32
    ensures Pow2(63) == 0x8000_0000_0000_0000 && Pow2(64) == B64
  {
    assert Pow2(8) == 0x100;
    Pow2Add(8, 8);
    Pow2Add(16, 16);
    Pow2Add(32, 32);
  }

  // ----- digits of the operators

  lemma {:induction false} BitZero(i: nat)
    ensures !Bit(0, i)
  {
    if i > 0 { BitZero(i - 1); }
  }

  lemma {:induction false} AndBit(x: nat, y: nat, i: nat)
    ensures Bit(And(x, y), i) == (Bit(x, i) && Bit(y, i))
  {
    if x == 0 {
      BitZero(i);
    } else if i > 0 {
      AndBit(x / 2, y / 2, i - 1);
    }
  }

  lemma {:induction false} OrBit(x: nat, y: nat, i: nat)
    ensures Bit(Or(x, y), i) == (Bit(x, i) || Bit(y, i))
  {
    if x == 0 && y == 0 {
      BitZero(i);
    } else if i > 0 {
      OrBit(x / 2, y / 2, i - 1);
    }
  }

  lemma NotHalf(x: nat, w: nat)
    requires w > 0 && x < Pow2(w)
    ensures x / 2 < Pow2(w - 1) && Not(x, w) / 2 == Not(x / 2, w - 1) && Not(x, w) % 2 == 1 - x % 2
  {
    var p := Pow2(w - 1);
    assert Not(x, w) == 2 * (p - 1 - x / 2) + (1 - x % 2);
  }

  lemma {:induction false} NotBit(x: nat, w: nat, i: nat)
    requires x < Pow2(w)
    ensures Bit(Not(x, w), i) == (i < w && !Bit(x, i))
  {
    if w == 0 {
      BitZero(i);
    } else if i > 0 {
      NotHalf(x, w);
      NotBit(x / 2, w - 1, i - 1);
    } else {
      NotHalf(x, w);
    }
  }

  /** A bit is a digit of the quotient by a power of two. */
  lemma {:induction false} BitDiv(x: nat, i: nat)
    ensures Bit(x, i) == ((x / Pow2(i)) % 2 == 1)
  {
    if i > 0 {
      BitDiv(x / 2, i - 1);
      DivDiv(x, 2, Pow2(i - 1));
    }
  }

  /** Shifting right divides by a power of two. */
  lemma {:induction false} ShrDiv(x: nat, s: nat)
    ensures Shr(x, s) == x / Pow2(s) <= x
  {
    if s > 0 {
      ShrDiv(x / 2, s - 1);
      DivDiv(x, 2, Pow2(s - 1));
    }
  }

  /** Shifting right moves every digit down. */
  lemma {:induction false} BitShift(x: nat, s: nat, i: nat)
    ensures Bit(Shr(x, s), i) == Bit(x, i + s)
  {
    if s > 0 { BitShift(x / 2, s - 1, i); }
  }

  /** The digits below `w` are those of the remainder. */
  lemma {:induction false} BitMod(x: nat, w: nat, i: nat)
    ensures Bit(x % Pow2(w), i) == (i < w && Bit(x, i))
  {
    if w == 0 {
      BitZero(i);
    } else {
      ModHalf(x, Pow2(w - 1));
      if i > 0 { BitMod(x / 2, w - 1, i - 1); }
    }
  }

  lemma {:induction false} NoBitAbove(x: nat, w: nat, i: nat)
    requires x < Pow2(w) && w <= i
    ensures !Bit(x, i)
  {
    if w == 0 {
      BitZero(i);
    } else {
      NoBitAbove(x / 2, w - 1, i - 1);
    }
  }

  lemma {:induction false} OrBound(x: nat, y: nat, w: nat)
    requires x < Pow2(w) && y < Pow2(w)
    ensures Or(x, y) < Pow2(w)
  {
    if w > 0 && (x > 0 || y > 0) { OrBound(x / 2, y / 2, w - 1); }
  }

  lemma {:induction false} BitOfPow2(k: nat, i: nat)
    ensures Bit(Pow2(k), i) == (i == k)
  {
    if k == 0 {
      if i > 0 { BitZero(i - 1); }
    } else if i > 0 {
      BitOfPow2(k - 1, i - 1);
    }
  }

  /** The top digit is set and there is none above it. */
  lemma {:induction false} Log2TopBit(x: nat, i: nat)
    requires x > 0
    ensures Bit(x, Log2(x))
    ensures i > Log2(x) ==> !Bit(x, i)
  {
    if x == 1 {
      if i > 0 { BitZero(i - 1); }
    } else {
      Log2TopBit(x / 2, if i > 0 then i - 1 else 0);
    }
  }

  // ----- the least significant set bit

  lemma {:induction false} AndComplement(x: nat, w: nat)
    requires x < Pow2(w)
    ensures And(x, Pow2(w) - 1 - x) == 0
  {
    if w > 0 && x > 0 {
      assert (Pow2(w) - 1 - x) / 2 == Pow2(w - 1) - 1 - x / 2;
      AndComplement(x / 2, w - 1);
    }
  }

  /** `x & -x` isolates the least significant set bit. */
  lemma {:induction false} LowestSetBit(x: nat, w: nat)
    requires 0 < x < Pow2(w)
    ensures And(x, Neg(x, w)) == Pow2(TrailingZeros(x))
  {
    if x % 2 == 1 {
      assert (Pow2(w) - x) / 2 == Pow2(w - 1) - 1 - x / 2;
      AndComplement(x / 2, w - 1);
    } else {
      assert (Pow2(w) - x) / 2 == Pow2(w - 1) - x / 2;
      LowestSetBit(x / 2, w - 1);
    }
  }

  lemma {:induction false} TrailingZerosDivides(x: nat)
    requires x > 0
    ensures x == Shr(x, TrailingZeros(x)) * Pow2(TrailingZeros(x))
    ensures Shr(x, TrailingZeros(x)) % 2 == 1
    ensures x % Pow2(TrailingZeros(x)) == 0
    ensures Pow2(TrailingZeros(x)) <= x
  {
    if x % 2 == 0 {
      TrailingZerosDivides(x / 2);
      var t := Pow2(TrailingZeros(x / 2));
      Regroup(Shr(x / 2, TrailingZeros(x / 2)), t, 2);
      ModHalf(x, t);
    }
  }

  /** A smaller power of two divides every multiple of a larger one. */
  lemma Pow2Divides(x: nat, s: nat, k: nat)
    requires s <= k && x % Pow2(k) == 0
    ensures x % Pow2(s) == 0
  {
    var t, d := Pow2(k), Pow2(s);
    var q, r := x / t, Pow2(k - s);
    Pow2Add(k - s, s);
    assert x == q * t && t == r * d;
    Regroup(q, r, d);
    ModMultiple(q * r, d);
  }

  /** Masking with `2^k - 1` takes the remainder. */
  lemma {:induction false} LowBitsMask(n: nat, k: nat)
    ensures And(n, Pow2(k) - 1) == n % Pow2(k)
    ensures Shr(n, k) == n / Pow2(k) <= n
  {
    ShrDiv(n, k);
    if k == 0 || n == 0 {
      AndZero(n);
    } else {
      assert (Pow2(k) - 1) / 2 == Pow2(k - 1) - 1;
      LowBitsMask(n / 2, k - 1);
      ModHalf(n, Pow2(k - 1));
    }
  }

  lemma {:induction false} AndZero(n: nat)
    ensures And(n, 0) == 0
  {
    if n > 0 { AndZero(n / 2); }
  }

  // ----- division facts the solver does not find by itself

  lemma MulStep(a: int, b: int, d: int)
    requires a < b && d > 0
    ensures a * d + d <= b * d
    decreases b - a
  {
    assert b * d == (b - 1) * d + d;
    if a + 1 < b { MulStep(a, b - 1, d); }
  }

  lemma MulMonotone(a: int, b: int, d: int)
    requires a <= b && d >= 0
    ensures a * d <= b * d
  {
    if a < b && d > 0 { MulStep(a, b, d); }
  }

  lemma MulBounds(a: nat, amax: nat, b: nat, bmax: nat)
    requires a <= amax && b <= bmax
    ensures 0 <= a * b <= amax * bmax
  {
    MulMonotone(a, amax, b);
    MulMonotone(b, bmax, amax);
  }

  lemma Distribute(a: int, b: int, d: int)
    ensures (a + b) * d == a * d + b * d
    ensures (a - b) * d == a * d - b * d
  {
  }

  lemma Regroup(a: int, b: int, d: int)
    ensures (a * b) * d == a * (b * d) == (a * d) * b
  {
  }

  /** Comparing after scaling is comparing before. */
  lemma ScaleOrder(a: int, c: int, d: int)
    requires d > 0
    ensures a * d < c * d <==> a < c
    ensures a * d <= c * d <==> a <= c
    ensures a * d == c * d <==> a == c
  {
    if a < c { MulStep(a, c, d); } else if c < a { MulStep(c, a, d); }
  }

  /** `q` is the quotient exactly when the remainder it leaves is in range. */
  lemma QuotientIs(x: int, d: int, q: int)
    requires d > 0 && q * d <= x < q * d + d
    ensures x / d == q && x % d == x - q * d
  {
    var q' := x / d;
    assert q' * d + x % d == x;
    if q' < q {
      MulStep(q', q, d);
    } else if q < q' {
      MulStep(q, q', d);
    }
  }

  lemma ModMultiple(q: int, d: int)
    requires d > 0
    ensures (q * d) % d == 0 && (q * d) / d == q
  {
    QuotientIs(q * d, d, q);
  }

  lemma MulRegroup(q: int, s: int, a: int, b: int)
    ensures (q * b + s) * a == q * (a * b) + s * a
  {
  }

  lemma DivDiv(x: nat, a: nat, b: nat)
    requires a > 0 && b > 0
    ensures a * b > 0 && x / a / b == x / (a * b)
  {
    var n := x / a;
    var q, s := n / b, n % b;
    MulRegroup(q, s, a, b);
    MulStep(s, b, a);
    var ab := a * b;
    assert n == q * b + s;
    assert x == n * a + x % a;
    assert x == q * ab + s * a + x % a;
    QuotientIs(x, ab, q);
  }

  lemma ModHalf(x: nat, h: nat)
    requires h > 0
    ensures (x % (2 * h)) % 2 == x % 2
    ensures (x % (2 * h)) / 2 == (x / 2) % h
  {
    var n := x / 2;
    var q, s := n / h, n % h;
    assert n == q * h + s;
    MulRegroup(q, s, 2, h);
    QuotientIs(x, 2 * h, q);
  }

  lemma QuotientBelow(m: nat, d: nat)
    requires d > 0
    ensures 0 <= m / d <= m
  {
    var q := m / d;
    if q > m { MulStep(m, q, d); MulStep(0, d, m); }
  }

  lemma DivScale(a: nat, d: nat, t: nat)
    requires d > 0 && t > 0
    ensures d * t > 0 && (a * t) / (d * t) == a / d
  {
    var q := a / d;
    assert q * d <= a < q * d + d;
    ScaleOrder(q * d, a, t);
    ScaleOrder(a, q * d + d, t);
    Distribute(q * d, d, t);
    Regroup(q, d, t);
    MulStep(0, d, t);
    QuotientIs(a * t, d * t, q);
  }

  lemma Euclid(x: int, d: int)
    requires d > 0
    ensures x == (x / d) * d + x % d && 0 <= x % d < d
  {
  }
}
