/** Counting and finding bits in a word (include/linux/bitops.h, include/asm-generic/bitops/__ffs.h). */
module Bitops {
  import opened Words

  // ----- the lowest set bit

  /** Halving the word below its trailing zeros. */
  lemma {:induction false} ShiftZeros(x: nat, h: nat)
    requires x > 0 && x % Pow2(h) == 0
    ensures x / Pow2(h) > 0 && TrailingZeros(x) == h + TrailingZeros(x / Pow2(h))
    decreases h
  {
    if h > 0 {
      var p := Pow2(h - 1);
      ModHalf(x, p);
      assert x % 2 == 0;
      ShiftZeros(x / 2, h - 1);
      DivDiv(x, 2, p);
    }
  }

  lemma {:induction false} FewZeros(x: nat, h: nat)
    requires x > 0 && x % Pow2(h) != 0
    ensures TrailingZeros(x) < h
    decreases h
  {
    if h > 0 && x % 2 == 0 {
      ModHalf(x, Pow2(h - 1));
      FewZeros(x / 2, h - 1);
    }
  }

  /** One round of `__ffs`: the zeros among the lowest `h` bits. */
  method FfsRound(num: nat, word: u64, h: nat, ghost all: nat) returns (num': nat, word': u64)
    requires word > 0 && all == num + TrailingZeros(word) && TrailingZeros(word) < 2 * h
    ensures word' > 0 && all == num' + TrailingZeros(word') && TrailingZeros(word') < h
  {
    LowBitsMask(word, h);
    num', word' := num, word;
    if And(word, Pow2(h) - 1) == 0 {
      ShiftZeros(word, h);
      num', word' := num + h, Shr(word, h);
    } else {
      FewZeros(word, h);
    }
  }

  lemma {:induction false} TrailingZerosSmall(x: nat, w: nat)
    requires 0 < x < Pow2(w)
    ensures TrailingZeros(x) < w
  {
    if x % 2 == 0 { TrailingZerosSmall(x / 2, w - 1); }
  }

  /** The bit at `TrailingZeros` is set and those below it are clear. */
  lemma {:induction false} LowestBit(x: nat, i: nat)
    requires x > 0
    ensures Bit(x, TrailingZeros(x)) && (i < TrailingZeros(x) ==> !Bit(x, i))
  {
    if x % 2 == 0 { LowestBit(x / 2, if i > 0 then i - 1 else 0); }
  }

  /** `__ffs`: the position of the lowest set bit. */
  method Ffs(word: u64) returns (num: nat)
    requires word != 0
    ensures num < 64 && num == TrailingZeros(word)
  {
    Pow2Values();
    TrailingZerosSmall(word, 64);
    ghost var all := TrailingZeros(word);
    var w;
    num, w := FfsRound(0, word, 32, all);
    num, w := FfsRound(num, w, 16, all);
    num, w := FfsRound(num, w, 8, all);
    num, w := FfsRound(num, w, 4, all);
    num, w := FfsRound(num, w, 2, all);
    if w % 2 == 0 { num := num + 1; }
  }

  // ----- the number of set bits

  /** `x % 2^b`, on binary digits. */
  ghost function Low(x: nat, b: nat): nat
    decreases b, x
  {
    if b == 0 then 0 else x % 2 + 2 * Low(x / 2, b - 1)
  }

  /** `x * 2^b`, on binary digits. */
  ghost function Shl(x: nat, b: nat): nat
    decreases b, x
  {
    if b == 0 then x else 2 * Shl(x, b - 1)
  }

  /** `2^b - 1`. */
  ghost function Ones(b: nat): nat {
    if b == 0 then 0 else 1 + 2 * Ones(b - 1)
  }

  /** The sum of the `n` lowest fields of `k` bits. */
  ghost function Fields(x: nat, k: nat, n: nat): nat
    decreases n, x
  {
    if n == 0 then 0 else Low(x, k) + Fields(Shr(x, k), k, n - 1)
  }

  /** `n` fields of `2 * k` bits with the lower half of each set. */
  ghost function HalfMask(k: nat, n: nat): nat
    decreases n
  {
    if n == 0 then 0 else Ones(k) + Shl(HalfMask(k, n - 1), 2 * k)
  }

  /** A round of the count: the two halves of each field are added. */
  function Fold(x: nat, k: nat, mask: nat): nat {
    And(x, mask) + And(Shr(x, k), mask)
  }

  lemma {:induction false} OnesSmall(k: nat, b: nat)
    requires k <= b
    ensures Ones(k) < Pow2(b)
  {
    if k > 0 { OnesSmall(k - 1, b - 1); }
  }

  lemma AndStep(x: nat, y: nat)
    ensures And(x, y) == 2 * And(x / 2, y / 2) + (if x % 2 == 1 && y % 2 == 1 then 1 else 0)
  {
  }

  lemma {:induction false} AndOnes(x: nat, k: nat)
    ensures And(x, Ones(k)) == Low(x, k)
    decreases k
  {
    if k == 0 {
      AndZero(x);
    } else {
      AndStep(x, Ones(k));
      AndOnes(x / 2, k - 1);
    }
  }

  lemma {:induction false} LowLow(x: nat, k: nat, b: nat)
    requires k <= b
    ensures Low(Low(x, b), k) == Low(x, k) && Low(x, k) < Pow2(k)
    decreases k
  {
    if k > 0 { LowLow(x / 2, k - 1, b - 1); }
  }

  /** Masking works block by block. */
  lemma {:induction false} AndBlocks(x: nat, low: nat, high: nat, b: nat)
    requires low < Pow2(b)
    ensures And(x, low + Shl(high, b)) == And(Low(x, b), low) + Shl(And(Shr(x, b), high), b)
    decreases b
  {
    if b > 0 {
      AndBlocks(x / 2, low / 2, high, b - 1);
      var y, l := low + Shl(high, b), Low(x, b);
      assert y / 2 == low / 2 + Shl(high, b - 1) && y % 2 == low % 2;
      assert l / 2 == Low(x / 2, b - 1) && l % 2 == x % 2;
      AndStep(x, y);
      AndStep(l, low);
    }
  }

  lemma {:induction false} Unblock(low: nat, high: nat, b: nat)
    requires low < Pow2(b)
    ensures Low(low + Shl(high, b), b) == low && Shr(low + Shl(high, b), b) == high
    decreases b
  {
    if b > 0 {
      Unblock(low / 2, high, b - 1);
      assert (low + Shl(high, b)) / 2 == low / 2 + Shl(high, b - 1);
    }
  }

  lemma {:induction false} ShlAdd(x: nat, y: nat, b: nat)
    ensures Shl(x, b) + Shl(y, b) == Shl(x + y, b)
    decreases b
  {
    if b > 0 { ShlAdd(x, y, b - 1); }
  }

  lemma {:induction false} ShrShr(x: nat, a: nat, b: nat)
    ensures Shr(Shr(x, a), b) == Shr(x, a + b)
    decreases a
  {
    if a > 0 { ShrShr(x / 2, a - 1, b); }
  }

  lemma MaskedBlocks(x: nat, k: nat, m: nat)
    ensures And(x, Ones(k) + Shl(m, 2 * k)) == Low(x, k) + Shl(And(Shr(x, 2 * k), m), 2 * k)
  {
    OnesSmall(k, 2 * k);
    AndBlocks(x, Ones(k), m, 2 * k);
    AndOnes(Low(x, 2 * k), k);
    LowLow(x, k, 2 * k);
  }

  /** The halves of the lowest field, and a round over the others. */
  lemma FoldBlocks(x: nat, k: nat, n: nat)
    requires n > 0
    ensures var c := Low(x, k) + Low(Shr(x, k), k);
            c < 2 * Pow2(k)
            && Fold(x, k, HalfMask(k, n)) == c + Shl(Fold(Shr(x, 2 * k), k, HalfMask(k, n - 1)), 2 * k)
  {
    var m := HalfMask(k, n - 1);
    MaskedBlocks(x, k, m);
    MaskedBlocks(Shr(x, k), k, m);
    LowLow(x, k, k);
    LowLow(Shr(x, k), k, k);
    ShrShr(x, k, 2 * k);
    ShrShr(x, 2 * k, k);
    ShlAdd(And(Shr(x, 2 * k), m), And(Shr(Shr(x, 2 * k), k), m), 2 * k);
  }

  /** A round halves the number of fields and keeps their sum. */
  lemma {:induction false} FoldKeepsSum(x: nat, k: nat, n: nat)
    requires k > 0
    ensures Fields(Fold(x, k, HalfMask(k, n)), 2 * k, n) == Fields(x, k, 2 * n)
    decreases n
  {
    if n > 0 {
      var c, r := Low(x, k) + Low(Shr(x, k), k), Fold(Shr(x, 2 * k), k, HalfMask(k, n - 1));
      FoldBlocks(x, k, n);
      Pow2Monotone(k + 1, 2 * k);
      Unblock(c, r, 2 * k);
      FoldKeepsSum(Shr(x, 2 * k), k, n - 1);
      ShrShr(x, k, k);
      TwoFields(x, k, 2 * n);
    }
  }

  lemma TwoFields(x: nat, k: nat, n: nat)
    requires n >= 2
    ensures Fields(x, k, n) == Low(x, k) + (Low(Shr(x, k), k) + Fields(Shr(Shr(x, k), k), k, n - 2))
  {
  }

  lemma {:induction false} MaskAppend(k: nat, m: nat, n: nat, b: nat)
    requires b == m * (2 * k)
    ensures HalfMask(k, m + n) == HalfMask(k, m) + Shl(HalfMask(k, n), b)
    decreases m
  {
    if m > 0 {
      var w := 2 * k;
      assert b - w == (m - 1) * w && b - w >= 0 by { MulMonotone(1, m, w); }
      MaskAppend(k, m - 1, n, b - w);
      ShlShl(HalfMask(k, n), b - w, w);
      ShlAdd(HalfMask(k, m - 1), Shl(HalfMask(k, n), b - w), w);
    }
  }

  lemma {:induction false} ShlShl(x: nat, a: nat, b: nat)
    ensures Shl(Shl(x, a), b) == Shl(x, a + b)
    decreases b
  {
    if b > 0 { ShlShl(x, a, b - 1); }
  }

  lemma {:induction false} ShlIs(x: nat, b: nat)
    ensures Shl(x, b) == x * Pow2(b)
    decreases b
  {
    if b > 0 { ShlIs(x, b - 1); }
  }

  lemma {:induction false} OnesIs(b: nat)
    ensures Ones(b) == Pow2(b) - 1
  {
    if b > 0 { OnesIs(b - 1); }
  }

  /** A mask of one field, two, four and so on. */
  lemma MaskDouble(k: nat, n: nat, mask: nat, b: nat, shifted: nat)
    requires mask == HalfMask(k, n) && b == n * (2 * k) && shifted == mask * Pow2(b)
    ensures HalfMask(k, n + n) == mask + shifted
  {
    MaskAppend(k, n, n, b);
    ShlIs(mask, b);
  }

  lemma MaskOne(k: nat)
    ensures HalfMask(k, 1) == Pow2(k) - 1
  {
    OnesIs(k);
    ShlIs(0, 2 * k);
  }

  lemma SmallPowers()
    ensures Pow2(1) == 2 && Pow2(2) == 4 && Pow2(4) == 0x10 && Pow2(8) == 0x100 && Pow2(16) == 0x1_0000
  {
    assert Pow2(4) == 4 * Pow2(2) && Pow2(8) == 0x10 * Pow2(4);
    Pow2Values();
  }

  lemma Mask1()
    ensures HalfMask(1, 16) == 0x5555_5555
  {
    SmallPowers();
    MaskOne(1);
    MaskDouble(1, 1, 1, 2, 0x4);
    MaskDouble(1, 2, 5, 4, 0x50);
    MaskDouble(1, 4, 0x55, 8, 0x5500);
    MaskDouble(1, 8, 0x5555, 16, 0x55550000);
  }

  lemma Mask2()
    ensures HalfMask(2, 8) == 0x3333_3333
  {
    SmallPowers();
    MaskOne(2);
    MaskDouble(2, 1, 3, 4, 0x30);
    MaskDouble(2, 2, 0x33, 8, 0x3300);
    MaskDouble(2, 4, 0x3333, 16, 0x33330000);
  }

  lemma Masks()
    ensures HalfMask(4, 4) == 0x0F0F_0F0F && HalfMask(8, 2) == 0x00FF_00FF && HalfMask(16, 1) == 0xFFFF
  {
    SmallPowers();
    MaskOne(4);
    MaskDouble(4, 1, 0xF, 8, 0xF00);
    MaskDouble(4, 2, 0x0F0F, 16, 0xF0F0000);
    MaskOne(8);
    MaskDouble(8, 1, 0xFF, 16, 0xFF0000);
    MaskOne(16);
  }

  lemma {:induction false} AndLe(x: nat, y: nat)
    ensures And(x, y) <= y
  {
    if x > 0 { AndLe(x / 2, y / 2); }
  }

  /** A line of `generic_hweight32`; the sum does not overflow. */
  method Round(x: u32, k: nat, mask: u32, ghost n: nat) returns (res: u32)
    requires k > 0 && mask == HalfMask(k, n) && mask < 0x8000_0000
    ensures Fields(res, 2 * k, n) == Fields(x, k, 2 * n)
  {
    FoldKeepsSum(x, k, n);
    AndLe(x, mask);
    AndLe(Shr(x, k), mask);
    res := And(x, mask) + And(Shr(x, k), mask);
  }

  lemma {:induction false} LowSame(x: nat, b: nat)
    requires x < Pow2(b)
    ensures Low(x, b) == x
  {
    if b > 0 { LowSame(x / 2, b - 1); }
  }

  lemma OneField(x: u32)
    ensures Fields(x, 32, 1) == x
  {
    Pow2Values();
    LowSame(x, 32);
    assert Fields(Shr(x, 32), 32, 0) == 0;
  }

  /** `generic_hweight32`: the number of set bits. */
  method Hweight32(w: u32) returns (res: u32)
    ensures res == Count(w, 32)
  {
    FieldsCount(w, 32);
    Mask1();
    Mask2();
    Masks();
    res := Round(w, 1, 0x5555_5555, 16);
    res := Round(res, 2, 0x3333_3333, 8);
    res := Round(res, 4, 0x0F0F_0F0F, 4);
    res := Round(res, 8, 0x00FF_00FF, 2);
    res := Round(res, 16, 0x0000_FFFF, 1);
    OneField(res);
  }

  /** The set bits among the lowest `n`. */
  ghost function Count(x: nat, n: nat): nat
    decreases n, x
  {
    if n == 0 then 0 else Count(x, n - 1) + (if Bit(x, n - 1) then 1 else 0)
  }

  lemma {:induction false} CountFromBelow(x: nat, n: nat)
    requires n > 0
    ensures Count(x, n) == x % 2 + Count(x / 2, n - 1)
    decreases n
  {
    if n > 1 { CountFromBelow(x, n - 1); }
  }

  /** Fields of one bit are bits. */
  lemma {:induction false} FieldsCount(x: nat, n: nat)
    ensures Fields(x, 1, n) == Count(x, n)
    decreases n
  {
    if n > 0 {
      CountFromBelow(x, n);
      assert Low(x, 1) == x % 2 + 2 * Low(x / 2, 0) && Shr(x, 1) == Shr(x / 2, 0) == x / 2;
      FieldsCount(x / 2, n - 1);
    }
  }

  lemma {:induction false} CountSplit(x: nat, m: nat, n: nat)
    ensures Count(x, m + n) == Count(x, m) + Count(Shr(x, m), n)
    decreases n
  {
    if n > 0 {
      CountSplit(x, m, n - 1);
      BitShift(x, m, n - 1);
    }
  }

  lemma {:induction false} CountMod(x: nat, w: nat, n: nat)
    requires n <= w
    ensures x % Pow2(w) >= 0 && Count(x % Pow2(w), n) == Count(x, n)
    decreases n
  {
    if n > 0 {
      CountMod(x, w, n - 1);
      BitMod(x, w, n - 1);
    }
  }

  lemma Halves(w: u64)
    ensures Shr(w, 32) < B32 && Count(w, 64) == Count(Shr(w, 32), 32) + Count(w % B32, 32)
  {
    Pow2Values();
    ShrDiv(w, 32);
    CountSplit(w, 32, 32);
    CountMod(w, 32, 32);
  }

  /** `generic_hweight64`: the number of set bits. */
  method Hweight64(w: u64) returns (res: nat)
    ensures res == Count(w, 64)
  {
    Halves(w);
    var high: int := Hweight32(Shr(w, 32));
    var low: int := Hweight32(w % B32);
    res := high + low;
  }
}
