/** The decimal conversion of lib/vsprintf.c, lines 52 to 139. */
module Decimal {
  import opened Words
  import opened Numerals
  import Div64

  function DigitChar(d: nat): char
    requires d < 10
  {
    ('0' as int + d) as char
  }

  /** `buf` holds the digits `ds` in characters from `at` on. */
  ghost predicate Holds(buf: seq<char>, at: nat, ds: seq<nat>) {
    at + |ds| <= |buf| && forall k :: 0 <= k < |ds| ==> ds[k] < 10 && buf[at + k] == DigitChar(ds[k])
  }

  /** The first `n` characters are the same. */
  ghost predicate Keeps(was: seq<char>, now: seq<char>, n: nat) {
    |was| == |now| >= n && forall k :: 0 <= k < n ==> now[k] == was[k]
  }

  // ----- the approximations

  lemma Tenth(x: nat)
    requires x < 1029
    ensures x * 0xCD / 0x800 == x / 10
  {
  }

  lemma SmallTenth(x: nat)
    requires x < 69
    ensures x * 0xD / 0x80 == x / 10
  {
  }

  /** 16 = 6 + 10, 256 = 6 + 50 + 200 and 4096 = 6 + 90 + 4000 (lines 55-59). */
  method SplitNibbles(q: nat) returns (x1: nat, x2: nat, x3: nat, d0: nat)
    requires q < 100000
    ensures q == d0 + 10 * (9 * x3 + 5 * x2 + x1) + 100 * (2 * x2) + 1000 * (4 * x3)
    ensures x1 < 16 && x2 < 16 && x3 <= 24 && d0 < 340
  {
    x1, x2, x3 := q / 16 % 16, q / 256 % 16, q / 4096;
    d0 := 6 * (x3 + x2 + x1) + q % 16;
    ghost var y, z := q / 16, q / 256;
    assert y / 16 == z && z / 16 == x3;
    assert q == 16 * y + q % 16 && y == 16 * z + x1 && z == 16 * x3 + x2;
  }

  lemma NextDigit(v: nat, d: nat, e: nat, e': nat)
    requires v == d + 10 * e && e' == d / 10 + e
    ensures d % 10 == v % 10 && e' == v / 10
  {
  }

  lemma DigitsStep(v: nat)
    requires v >= 10
    ensures Digits(v, 10) == [v % 10] + Digits(v / 10, 10)
  {
  }

  lemma DigitsLast(v: nat)
    requires v < 10
    ensures Digits(v, 10) == [v]
  {
  }

  // ----- put_dec_trunc

  /** `put_dec_trunc`: the canonical digits of a value of at most five digits. */
  method PutDecTrunc(buf: array<char>, at: nat, value: u32) returns (next: nat)
    requires value < 100000 && at + 5 <= buf.Length
    modifies buf
    ensures next == at + |Digits(value, 10)| <= buf.Length && Holds(buf[..], at, Digits(value, 10))
    ensures Keeps(old(buf[..]), buf[..], at)
  {
    var x1, x2, x3, d0 := SplitNibbles(value);
    Tenth(d0);
    var q := d0 * 0xCD / 0x800;
    var d1 := q + 9 * x3 + 5 * x2 + x1;
    NextDigit(value, d0, (9 * x3 + 5 * x2 + x1) + 10 * (2 * x2) + 100 * (4 * x3), d1 + 10 * (2 * x2) + 100 * (4 * x3));
    d0 := d0 - 10 * q;
    buf[at] := DigitChar(d0);
    if d1 == 0 { DigitsLast(value); return at + 1; }
    DigitsStep(value);
    next := TruncSecond(buf, at + 1, d1, x2, x3, value / 10);
  }

  /** Lines 64-84, for `v`, the value without its last digit. */
  method TruncSecond(buf: array<char>, at: nat, s1: nat, x2: nat, x3: nat, ghost v: nat) returns (next: nat)
    requires s1 < 390 && x2 < 16 && x3 <= 24 && v == s1 + 10 * (2 * x2) + 100 * (4 * x3)
    requires 0 < v < 10000 && at + 4 <= buf.Length
    modifies buf
    ensures next == at + |Digits(v, 10)| <= buf.Length && Holds(buf[..], at, Digits(v, 10))
    ensures Keeps(old(buf[..]), buf[..], at)
  {
    Tenth(s1);
    var q := s1 * 0xCD / 0x800;
    var d1 := s1 - 10 * q;
    buf[at] := DigitChar(d1);
    var d2 := q + 2 * x2;
    NextDigit(v, s1, 2 * x2 + 10 * (4 * x3), d2 + 10 * (4 * x3));
    if d2 == 0 && x3 == 0 { DigitsLast(v); return at + 1; }
    DigitsStep(v);
    next := TruncThird(buf, at + 1, d2, x3, v / 10);
  }

  /** Lines 70-82. */
  method TruncThird(buf: array<char>, at: nat, s2: nat, x3: nat, ghost v: nat) returns (next: nat)
    requires x3 <= 24 && v == s2 + 10 * (4 * x3) && s2 < 69
    requires 0 < v < 1000 && at + 3 <= buf.Length
    modifies buf
    ensures next == at + |Digits(v, 10)| <= buf.Length && Holds(buf[..], at, Digits(v, 10))
    ensures Keeps(old(buf[..]), buf[..], at)
  {
    SmallTenth(s2);
    var q := s2 * 0xD / 0x80;
    var d2 := s2 - 10 * q;
    buf[at] := DigitChar(d2);
    var d3 := q + 4 * x3;
    NextDigit(v, s2, 4 * x3, d3);
    if d3 == 0 { DigitsLast(v); return at + 1; }
    DigitsStep(v);
    Tenth(d3);
    q := d3 * 0xCD / 0x800;
    var e3 := d3 - 10 * q;
    buf[at + 1] := DigitChar(e3);
    if q == 0 { DigitsLast(d3); return at + 2; }
    DigitsStep(d3);
    DigitsLast(q);
    buf[at + 2] := DigitChar(q);
    next := at + 3;
  }

  // ----- put_dec_full and put_dec

  /** The `n` lowest decimal digits. */
  ghost function Low(v: nat, n: nat): (ds: seq<nat>)
    ensures |ds| == n
    decreases n
  {
    if n == 0 then [] else [v % 10] + Low(v / 10, n - 1)
  }

  /** `put_dec_full`: always five digits. */
  method PutDecFull(buf: array<char>, at: nat, value: u32) returns (next: nat)
    requires value < 100000 && at + 5 <= buf.Length
    modifies buf
    ensures next == at + 5 && Holds(buf[..], at, Low(value, 5))
    ensures Keeps(old(buf[..]), buf[..], at)
  {
    var x1, x2, x3, d0 := SplitNibbles(value);
    Tenth(d0);
    var q := d0 * 0xCD / 0x800;
    var d1 := q + 9 * x3 + 5 * x2 + x1;
    NextDigit(value, d0, (9 * x3 + 5 * x2 + x1) + 10 * (2 * x2) + 100 * (4 * x3), d1 + 10 * (2 * x2) + 100 * (4 * x3));
    d0 := d0 - 10 * q;
    buf[at] := DigitChar(d0);
    LowStep(value, 5);
    next := FullSecond(buf, at + 1, d1, x2, x3, value / 10);
  }

  lemma LowStep(v: nat, n: nat)
    requires n > 0
    ensures Low(v, n) == [v % 10] + Low(v / 10, n - 1)
  {
  }

  /** Lines 112-126, for `v`, the value without its last digit. */
  method FullSecond(buf: array<char>, at: nat, s1: nat, x2: nat, x3: nat, ghost v: nat) returns (next: nat)
    requires s1 < 390 && x2 < 16 && x3 <= 24 && v == s1 + 10 * (2 * x2) + 100 * (4 * x3)
    requires v < 10000 && at + 4 <= buf.Length
    modifies buf
    ensures next == at + 4 && Holds(buf[..], at, Low(v, 4))
    ensures Keeps(old(buf[..]), buf[..], at)
  {
    Tenth(s1);
    var q := s1 * 0xCD / 0x800;
    var d1 := s1 - 10 * q;
    buf[at] := DigitChar(d1);
    var d2 := q + 2 * x2;
    NextDigit(v, s1, 2 * x2 + 10 * (4 * x3), d2 + 10 * (4 * x3));
    LowStep(v, 4);
    next := FullThird(buf, at + 1, d2, x3, v / 10);
  }

  /** Lines 117-126. */
  method FullThird(buf: array<char>, at: nat, s2: nat, x3: nat, ghost v: nat) returns (next: nat)
    requires x3 <= 24 && v == s2 + 10 * (4 * x3) && s2 < 69
    requires v < 1000 && at + 3 <= buf.Length
    modifies buf
    ensures next == at + 3 && Holds(buf[..], at, Low(v, 3))
    ensures Keeps(old(buf[..]), buf[..], at)
  {
    SmallTenth(s2);
    var q := s2 * 0xD / 0x80;
    var d2 := s2 - 10 * q;
    buf[at] := DigitChar(d2);
    var d3 := q + 4 * x3;
    NextDigit(v, s2, 4 * x3, d3);
    LowStep(v, 3);
    Tenth(d3);
    q := d3 * 0xCD / 0x800;
    var e3 := d3 - 10 * q;
    buf[at + 1] := DigitChar(e3);
    LowStep(d3, 2);
    buf[at + 2] := DigitChar(q);
    assert Low(q, 1) == [q % 10] + Low(q / 10, 0);
    next := at + 3;
  }

  /** The low digits only depend on the remainder. */
  lemma {:induction false} LowOfRemainder(v: nat, n: nat)
    ensures Power(10, n) > 0 && Low(v % Power(10, n), n) == Low(v, n)
    decreases n
  {
    if n > 0 {
      LowOfRemainder(v / 10, n - 1);
      RemainderTail(v, Power(10, n - 1));
    }
  }

  lemma RemainderTail(v: nat, p: nat)
    requires p > 0
    ensures v % (p * 10) % 10 == v % 10 && v % (p * 10) / 10 == v / 10 % p
  {
    var w, d := v / 10, v % 10;
    var q, r := w / p, w % p;
    Euclid(w, p);
    Distribute(q * p, r, 10);
    Regroup(q, p, 10);
    MulStep(r, p, 10);
    QuotientIs(v, p * 10, q);
    assert v % (p * 10) == r * 10 + d;
  }

  /** A number with more than `n` digits: its `n` lowest, then those of the quotient. */
  lemma {:induction false} SplitDigits(v: nat, n: nat)
    requires v >= Power(10, n)
    ensures Power(10, n) > 0 && Digits(v, 10) == Low(v, n) + Digits(v / Power(10, n), 10)
    decreases n
  {
    if n > 0 {
      LowOfRemainder(0, n - 1);
      var p := Power(10, n - 1);
      assert v / 10 >= p;
      SplitDigits(v / 10, n - 1);
      DivDiv(v, 10, p);
      DigitsStep(v);
      assert Low(v, n) + Digits(v / (p * 10), 10) == [v % 10] + (Low(v / 10, n - 1) + Digits(v / (p * 10), 10));
    }
  }

  lemma FiveMore(v: nat)
    requires v >= 100000
    ensures Digits(v, 10) == Low(v % 100000, 5) + Digits(v / 100000, 10)
  {
    assert Power(10, 5) == 100000;
    SplitDigits(v, 5);
    LowOfRemainder(v, 5);
  }

  lemma HoldsMore(was: seq<char>, now: seq<char>, start: nat, ds: seq<nat>, es: seq<nat>)
    requires Holds(was, start, ds) && Keeps(was, now, start + |ds|) && Holds(now, start + |ds|, es)
    ensures Holds(now, start, ds + es)
  {
    var at := start + |ds|;
    forall k | 0 <= k < |ds + es| ensures (ds + es)[k] < 10 && now[start + k] == DigitChar((ds + es)[k]) {
      if k >= |ds| { assert now[at + (k - |ds|)] == DigitChar(es[k - |ds|]); }
    }
  }

  lemma TwentyDigits(num: u64)
    ensures |Digits(num, 10)| <= 20
  {
    assert Power(10, 5) == 100000 && Power(10, 10) == 100000 * Power(10, 5);
    assert Power(10, 15) == 100000 * Power(10, 10) && Power(10, 20) == 100000 * Power(10, 15);
    DigitsShort(num, 10, 20);
  }

  /** Lines 136-137: five digits less to write. */
  method PutFive(buf: array<char>, start: nat, at: nat, num: u64, ghost done: seq<nat>, ghost all: seq<nat>)
    returns (next: nat, rest: u64)
    requires num >= 100000 && at == start + |done| && at + 5 <= buf.Length
    requires Holds(buf[..], start, done) && all == done + Digits(num, 10)
    modifies buf
    ensures next == at + 5 && rest < num && Holds(buf[..], start, done + Low(num % 100000, 5))
    ensures all == (done + Low(num % 100000, 5)) + Digits(rest, 10)
    ensures Keeps(old(buf[..]), buf[..], at)
  {
    FiveMore(num);
    var rem;
    rest, rem := Div64.DoDiv(num, 100000, true);
    Assoc(done, Low(num % 100000, 5), Digits(rest, 10));
    next := PutDecFull(buf, at, rem);
    HoldsMore(old(buf[..]), buf[..], start, done, Low(num % 100000, 5));
  }

  lemma KeepsTrans(a: seq<char>, b: seq<char>, c: seq<char>, n: nat, m: nat)
    requires n <= m && Keeps(a, b, n) && Keeps(b, c, m)
    ensures Keeps(a, c, n)
  {
  }

  /** `put_dec`: the canonical decimal digits, in at most twenty characters. */
  method PutDec(buf: array<char>, start: nat, value: u64) returns (next: nat)
    requires start + 20 <= buf.Length
    modifies buf
    ensures next == start + |Digits(value, 10)| <= start + 20 && Holds(buf[..], start, Digits(value, 10))
    ensures Keeps(old(buf[..]), buf[..], start)
  {
    TwentyDigits(value);
    var at, num := start, value;
    ghost var done: seq<nat> := [];
    while num >= 100000
      invariant Digits(value, 10) == done + Digits(num, 10) && |done| % 5 == 0
      invariant at == start + |done| && Holds(buf[..], start, done)
      invariant Keeps(old(buf[..]), buf[..], start)
    {
      ghost var before, low := buf[..], Low(num % 100000, 5);
      at, num := PutFive(buf, start, at, num, done, Digits(value, 10));
      KeepsTrans(old(buf[..]), before, buf[..], start, start + |done|);
      done := done + low;
    }
    ghost var before := buf[..];
    next := PutDecTrunc(buf, at, num);
    HoldsMore(before, buf[..], start, done, Digits(num, 10));
    KeepsTrans(old(buf[..]), before, buf[..], start, at);
  }

  lemma Assoc(s: seq<nat>, t: seq<nat>, u: seq<nat>)
    ensures s + (t + u) == (s + t) + u
  {
  }
}
