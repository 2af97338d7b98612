/** Positional numerals, least significant digit first. */
module Numerals {
  import opened Words

  /** The canonical digits of `v`: no leading zero, and one digit for zero. */
  ghost function Digits(v: nat, base: nat): (ds: seq<nat>)
    requires base >= 2
    ensures |ds| > 0
    decreases v
  {
    if v < base then [v]
    else
      QuotientLess(v, base);
      [v % base] + Digits(v / base, base)
  }

  lemma QuotientLess(v: nat, base: nat)
    requires base >= 2 && v > 0
    ensures 0 <= v / base < v
  {
    Euclid(v, base);
    QuotientBelow(v, base);
    if v / base == v { MulStep(1, base, v); }
  }

  /** What digits are worth. */
  ghost function Value(ds: seq<nat>, base: nat): nat {
    if ds == [] then 0 else ds[0] + Value(ds[1..], base) * base
  }

  ghost predicate Below(ds: seq<nat>, base: nat) {
    forall k :: 0 <= k < |ds| ==> ds[k] < base
  }

  ghost predicate Canonical(ds: seq<nat>, base: nat) {
    |ds| > 0 && Below(ds, base) && (|ds| > 1 ==> ds[|ds| - 1] != 0)
  }

  lemma {:induction false} DigitsValue(v: nat, base: nat)
    requires base >= 2
    ensures Canonical(Digits(v, base), base) && Value(Digits(v, base), base) == v
    ensures v > 0 ==> Digits(v, base)[|Digits(v, base)| - 1] != 0
    decreases v
  {
    if v < base {
      assert Value([v], base) == v + Value([], base) * base;
    } else {
      Euclid(v, base);
      QuotientLess(v, base);
      assert v / base > 0;
      DigitsValue(v / base, base);
      var rest := Digits(v / base, base);
      assert Digits(v, base)[1..] == rest;
      assert Digits(v, base)[|rest|] == rest[|rest| - 1];
    }
  }

  /** The canonical digits are the only canonical digits. */
  lemma {:induction false} DigitsUnique(ds: seq<nat>, base: nat)
    requires base >= 2 && Canonical(ds, base)
    ensures Digits(Value(ds, base), base) == ds
  {
    var rest := ds[1..];
    var w := Value(rest, base);
    if |ds| == 1 {
      assert rest == [];
    } else {
      assert forall k :: 0 <= k < |rest| ==> rest[k] == ds[k + 1];
      DigitsUnique(rest, base);
      assert Digits(0, base) == [0];
      MulStep(0, w, base);
      QuotientIs(Value(ds, base), base, w);
      assert ds == [ds[0]] + rest;
    }
  }

  ghost function Power(base: nat, k: nat): nat {
    if k == 0 then 1 else Power(base, k - 1) * base
  }

  lemma {:induction false} DigitsShort(v: nat, base: nat, k: nat)
    requires base >= 2 && k > 0 && v < Power(base, k)
    ensures |Digits(v, base)| <= k
    decreases k, v
  {
    if v >= base {
      assert k > 1;
      QuotientUnder(v, base, Power(base, k - 1));
      DigitsShort(v / base, base, k - 1);
    }
  }

  lemma QuotientUnder(v: nat, base: nat, p: nat)
    requires base > 0 && v < p * base
    ensures 0 <= v / base < p
  {
    Euclid(v, base);
    QuotientBelow(v, base);
    if p <= v / base { MulMonotone(p, v / base, base); }
  }
}
