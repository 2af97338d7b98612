/** What `number` of lib/vsprintf.c writes for a magnitude: the one numeral it has in a base. */
module PrintfNumerals {
  import opened Words
  import opened Numerals
  import opened PrintfSpec
  import Strto

  const UPPER: string := "0123456789ABCDEF"
  const LOWER: string := "0123456789abcdef"

  /** Digits out of `letters` worth `v`, the first of several not a zero. */
  ghost predicate IsNumeral(n: string, v: nat, base: nat, letters: string)
    requires base <= 16 && |letters| == 16
  {
    && |n| > 0 && (|n| > 1 ==> n[0] != '0') && Worth(n, base) == v
    && forall k :: 0 <= k < |n| ==> DigitValue(n[k]) < base && n[k] == letters[DigitValue(n[k])]
  }

  /** The digits in lower or upper case. */
  function Letters(small: bool): (letters: string)
    ensures |letters| == 16 && letters[0] == '0'
  {
    if small then LOWER else UPPER
  }

  lemma HexTable(d: nat, small: bool)
    requires d < 16
    ensures HexChar(d, small) == Letters(small)[d] && DigitValue(Letters(small)[d]) == d
  {
  }

  /** A digit of a numeral is the character for its value. */
  lemma DigitAt(ds: seq<nat>, small: bool, k: nat)
    requires HexBelow(ds) && k < |ds|
    ensures var c := Characters(ds, small)[k];
            DigitValue(c) == ds[|ds| - 1 - k] && c == Letters(small)[ds[|ds| - 1 - k]]
  {
    HexTable(ds[|ds| - 1 - k], small);
  }

  /** What `number` writes for a magnitude is its numeral. */
  lemma NumeralIs(v: nat, base: nat, small: bool)
    requires ValidBase(base)
    ensures IsNumeral(Numeral(v, base, small), v, base, Letters(small))
  {
    var ds, letters := Digits(v, base), Letters(small);
    DigitsValue(v, base);
    var n := Characters(ds, small);
    Strto.NumeralWorth(v, base, small);
    forall k | 0 <= k < |n| ensures DigitValue(n[k]) < base && n[k] == letters[DigitValue(n[k])] {
      DigitAt(ds, small, k);
    }
    DigitAt(ds, small, 0);
  }

  lemma {:induction false} WorthPositive(s: string, base: nat)
    requires base > 0 && s != "" && AllDigits(s, base) && DigitValue(s[0]) > 0
    ensures Worth(s, base) > 0
  {
    if |s| > 1 {
      var t := s[..|s| - 1];
      assert t[0] == s[0];
      WorthPositive(t, base);
      MulStep(0, Worth(t, base), base);
    }
  }

  /** Neither empty nor with a leading zero, or empty. */
  predicate Led(s: string) {
    s != "" ==> DigitValue(s[0]) > 0
  }

  /** Texts of digits without leading zeros are worth the same only if they agree digit by digit. */
  lemma {:induction false} SameWorth(a: string, b: string, base: nat)
    requires base > 0 && AllDigits(a, base) && AllDigits(b, base) && Led(a) && Led(b)
    requires Worth(a, base) == Worth(b, base)
    ensures |a| == |b| && forall k :: 0 <= k < |a| ==> DigitValue(a[k]) == DigitValue(b[k])
    decreases |a|
  {
    if a == "" || b == "" {
      if a != "" { WorthPositive(a, base); }
      if b != "" { WorthPositive(b, base); }
    } else {
      var s, t := a[..|a| - 1], b[..|b| - 1];
      var c, d := DigitValue(a[|a| - 1]), DigitValue(b[|b| - 1]);
      assert s != "" ==> s[0] == a[0];
      assert t != "" ==> t[0] == b[0];
      QuotientIs(Worth(a, base), base, Worth(s, base));
      QuotientIs(Worth(b, base), base, Worth(t, base));
      SameWorth(s, t, base);
      forall k | 0 <= k < |a| ensures DigitValue(a[k]) == DigitValue(b[k]) {
        if k < |s| { assert s[k] == a[k] && t[k] == b[k]; }
      }
    }
  }

  lemma SoleDigit(n: string, base: nat)
    requires |n| == 1
    ensures Worth(n, base) == DigitValue(n[0])
  {
    assert n[..0] == "" && Worth("", base) == 0;
  }

  lemma NumeralLed(n: string, v: nat, base: nat, letters: string)
    requires 0 < base <= 16 && |letters| == 16 && letters[0] == '0' && IsNumeral(n, v, base, letters)
    ensures if v == 0 then n == "0" else Led(n)
  {
    if |n| == 1 {
      SoleDigit(n, base);
    } else {
      WorthPositive(n, base);
    }
  }

  /** There is one numeral to a number. */
  lemma OneNumeral(m: string, n: string, v: nat, base: nat, letters: string)
    requires 0 < base <= 16 && |letters| == 16 && letters[0] == '0'
    requires IsNumeral(m, v, base, letters) && IsNumeral(n, v, base, letters)
    ensures m == n
  {
    NumeralLed(m, v, base, letters);
    NumeralLed(n, v, base, letters);
    if v > 0 {
      SameWorth(m, n, base);
    }
  }
}
