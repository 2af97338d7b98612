/** Number parsing (lib/strto.c), and what it makes of the numbers lib/vsprintf.c writes. */
module Strto {
  import opened Words
  import opened Numerals
  import opened PrintfSpec

  predicate IsX(c: char) {
    c == 'x' || c == 'X'
  }

  /** `_parse_integer_fixup_radix`: where the digits start, and the base. */
  function FixupRadix(s: string, base: u32): (r: (nat, u32))
    ensures r.0 <= |s|
  {
    var b: u32 := if base != 0 then base
                  else if CharAt(s, 0) != '0' then 10
                  else if IsX(CharAt(s, 1)) && DigitValue(CharAt(s, 2)) < 16 then 16
                  else 8;
    (if b == 16 && CharAt(s, 0) == '0' && IsX(CharAt(s, 1)) then 2 else 0, b)
  }

  /** The longest run of digits from `start` on is worth `result` modulo 2^64, and stops at `end`. */
  ghost predicate Reads(s: string, start: nat, radix: nat, result: u64, end: nat) {
    && start <= end <= |s| && AllDigits(s[start..end], radix) && DigitValue(CharAt(s, end)) >= radix
    && result == Worth(s[start..end], radix) % B64
  }

  predicate HexPrefixed(s: string) {
    |s| >= 2 && s[0] == '0' && (s[1] == 'x' || s[1] == 'X')
  }

  /**
   * What is promised to a caller. In a given base its digits are read, in base
   * 16 from behind a prefix if there is one. Without a base, digits are
   * decimal if the first is not a zero, hexadecimal behind a prefix that has a
   * hexadecimal digit behind it, and octal otherwise.
   */
  ghost predicate Parses(s: string, base: u32, result: u64, end: nat) {
    if base == 16 && HexPrefixed(s) then Reads(s, 2, 16, result, end)
    else if base != 0 then Reads(s, 0, base, result, end)
    else if |s| == 0 || s[0] != '0' then Reads(s, 0, 10, result, end)
    else if HexPrefixed(s) && |s| > 2 && DigitValue(s[2]) < 16 then Reads(s, 2, 16, result, end)
    else Reads(s, 0, 8, result, end)
  }

  /** The sixteen digits in either case, and nothing else. */
  lemma DigitTable(c: char, d: nat)
    requires d < 16
    ensures DigitValue(c) == d <==> c == "0123456789abcdef"[d] || c == "0123456789ABCDEF"[d]
  {
  }

  /** The digits from `i` on, added to what was read before. */
  function Scan(s: string, i: nat, base: u32, read: u64): (r: (u64, nat))
    decreases |s| - i
  {
    if DigitValue(CharAt(s, i)) >= base then (read, i)
    else Scan(s, i + 1, base, (read * base + DigitValue(CharAt(s, i))) % B64)
  }

  function Strtoull(s: string, base: u32): (u64, nat) {
    var r := FixupRadix(s, base);
    Scan(s, r.0, r.1, 0)
  }

  lemma WrapStep(x: nat, base: nat, d: nat)
    ensures (x % B64 * base + d) % B64 == (x * base + d) % B64
  {
    var q, r := x / B64, x % B64;
    Euclid(x, B64);
    Distribute(q * B64, r, base);
    Regroup(q, B64, base);
    ModShift(r * base + d, q * base);
  }

  lemma ModShift(y: nat, q: nat)
    ensures (y + q * B64) % B64 == y % B64
  {
    Euclid(y, B64);
    Distribute(y / B64, q, B64);
    QuotientIs(y + q * B64, B64, y / B64 + q);
  }

  lemma {:induction false} ScanParses(s: string, start: nat, i: nat, base: u32, read: u64)
    requires start <= i <= |s| && AllDigits(s[start..i], base) && read == Worth(s[start..i], base) % B64
    ensures var r := Scan(s, i, base, read);
            Reads(s, start, base, r.0, r.1)
    decreases |s| - i
  {
    if DigitValue(CharAt(s, i)) < base {
      RunExtends(s, start, i, base);
      WrapStep(Worth(s[start..i], base), base, DigitValue(s[i]));
      ScanParses(s, start, i + 1, base, (read * base + DigitValue(s[i])) % B64);
    }
  }

  /** What is read is what is promised. */
  lemma StrtoullParses(s: string, base: u32)
    ensures Parses(s, base, Strtoull(s, base).0, Strtoull(s, base).1)
  {
    var r := FixupRadix(s, base);
    assert s[r.0..r.0] == "";
    ScanParses(s, r.0, r.0, r.1, 0);
  }

  /** The promise leaves no choice. */
  lemma ParsesOneWay(s: string, base: u32, result: u64, end: nat)
    ensures Parses(s, base, result, end) <==> Strtoull(s, base) == (result, end)
  {
    StrtoullParses(s, base);
    if Parses(s, base, result, end) {
      var r := FixupRadix(s, base);
      assert Reads(s, r.0, r.1, result, end) && Reads(s, r.0, r.1, Strtoull(s, base).0, Strtoull(s, base).1);
      RunIs(s, r.0, end, r.1, Strtoull(s, base).1);
    }
  }

  /** `simple_strtoull`, and `simple_strtoul` where a long has 64 bits. */
  method SimpleStrtoull(cp: string, given: u32) returns (result: u64, end: nat)
    ensures (result, end) == Strtoull(cp, given) && Parses(cp, given, result, end)
  {
    var (start, base) := FixupRadix(cp, given);
    result, end := 0, start;
    while DigitValue(CharAt(cp, end)) < base
      invariant Scan(cp, end, base, result) == Scan(cp, start, base, 0)
      decreases |cp| - end
    {
      result := (result * base + DigitValue(CharAt(cp, end))) % B64;
      end := end + 1;
    }
    StrtoullParses(cp, given);
  }

  function Strtol(s: string, base: u32): (u64, nat) {
    if CharAt(s, 0) != '-' then Strtoull(s, base)
    else var r := Strtoull(s[1..], base); ((B64 - r.0) % B64, r.1 + 1)
  }

  lemma NegatedTwice(r: u64)
    ensures (B64 - (B64 - r) % B64) % B64 == r
  {
  }

  /** `simple_strtol`: a leading minus negates modulo 2^64. */
  method SimpleStrtol(cp: string, base: u32) returns (result: u64, end: nat)
    ensures (result, end) == Strtol(cp, base)
    ensures CharAt(cp, 0) != '-' ==> Parses(cp, base, result, end)
    ensures CharAt(cp, 0) == '-' ==> end > 0 && Parses(cp[1..], base, (B64 - result) % B64, end - 1)
  {
    if CharAt(cp, 0) == '-' {
      var r, e := SimpleStrtoull(cp[1..], base);
      NegatedTwice(r);
      result, end := (B64 - r) % B64, e + 1;
    } else {
      result, end := SimpleStrtoull(cp, base);
    }
  }

  // ----- numerals

  lemma HexDigitValue(d: nat, small: bool)
    requires d < 16
    ensures DigitValue(HexChar(d, small)) == d
  {
  }

  lemma CharactersStep(d: nat, es: seq<nat>, small: bool)
    requires d < 16 && HexBelow(es)
    ensures Characters([d] + es, small) == Characters(es, small) + [HexChar(d, small)]
  {
    var ds := [d] + es;
    var n, m := Characters(ds, small), Characters(es, small);
    forall k | 0 <= k < |es| ensures n[k] == m[k] {
      assert ds[|ds| - 1 - k] == es[|es| - 1 - k];
    }
  }

  /** Digits are worth their value. */
  lemma {:induction false} CharactersWorth(ds: seq<nat>, base: nat, small: bool)
    requires base <= 16 && Below(ds, base)
    ensures AllDigits(Characters(ds, small), base) && Worth(Characters(ds, small), base) == Value(ds, base)
  {
    var n := Characters(ds, small);
    if ds != [] {
      var es := ds[1..];
      assert ds == [ds[0]] + es;
      CharactersStep(ds[0], es, small);
      CharactersWorth(es, base, small);
      HexDigitValue(ds[0], small);
      assert n[..|n| - 1] == Characters(es, small);
    }
  }

  /** A numeral is worth its number. */
  lemma NumeralWorth(v: nat, base: nat, small: bool)
    requires ValidBase(base)
    ensures AllDigits(Numeral(v, base, small), base) && Worth(Numeral(v, base, small), base) == v
  {
    DigitsValue(v, base);
    CharactersWorth(Digits(v, base), base, small);
  }

  /** Leading zeros are worth nothing. */
  lemma {:induction false} ZerosWorth(k: nat, s: string, base: nat)
    requires base > 0 && AllDigits(s, base)
    ensures AllDigits(Repeat('0', k) + s, base) && Worth(Repeat('0', k) + s, base) == Worth(s, base)
    decreases |s|, k
  {
    var t := Repeat('0', k) + s;
    if s != "" {
      ZerosWorth(k, s[..|s| - 1], base);
      assert t[..|t| - 1] == Repeat('0', k) + s[..|s| - 1];
    } else if k > 0 {
      ZerosWorth(k - 1, s, base);
      assert t[..|t| - 1] == Repeat('0', k - 1) + s;
    }
  }

  lemma DigitInside(s: string, start: nat, stop: nat, k: nat, base: nat)
    requires start <= k < stop <= |s| && AllDigits(s[start..stop], base)
    ensures DigitValue(CharAt(s, k)) < base
  {
    assert s[start..stop][k - start] == s[k];
  }

  /** A run of digits ends where no digit follows. */
  lemma RunIs(s: string, start: nat, end: nat, base: nat, stop: nat)
    requires start <= end <= |s| && AllDigits(s[start..end], base) && DigitValue(CharAt(s, end)) >= base
    requires start <= stop <= |s| && AllDigits(s[start..stop], base) && DigitValue(CharAt(s, stop)) >= base
    ensures end == stop
  {
    if end < stop {
      DigitInside(s, start, stop, end, base);
    } else if stop < end {
      DigitInside(s, start, end, stop, base);
    }
  }

  // ----- reading back

  /** A single zero, with an x behind it that base 16 takes for a prefix. */
  predicate Misread(digits: string, base: nat, tail: string) {
    base == 16 && digits == "0" && IsX(CharAt(tail, 0))
  }

  lemma PrefixOf(digits: string, base: u32, tail: string)
    requires ValidBase(base) && digits != "" && AllDigits(digits, base)
    ensures base == 16 && HexPrefixed(digits + tail) <==> Misread(digits, base, tail)
  {
    var s := digits + tail;
    assert s[0] == digits[0];
    if |digits| > 1 {
      assert s[1] == digits[1] && DigitValue(digits[1]) < 16;
    } else {
      assert CharAt(s, 1) == CharAt(tail, 0);
    }
  }

  /** `text` is digits worth `v`. */
  ghost predicate Digital(text: string, base: nat, v: nat) {
    text != "" && AllDigits(text, base) && Worth(text, base) == v
  }

  /** `text` is read as `v` up to its end, unless it is misread. */
  predicate ReadBack(text: string, base: u32, tail: string, v: u64) {
    Strtoull(text + tail, base) == (v, |text|) <==> !Misread(text, base, tail)
  }

  /**
   * Digits with anything but a digit behind them are read as their worth up to
   * the position right behind them, unless a single hexadecimal zero is
   * followed by an x.
   */
  lemma ReadsBack(digits: string, base: u32, tail: string, v: u64)
    requires ValidBase(base) && Digital(digits, base, v) && DigitValue(CharAt(tail, 0)) >= base
    ensures ReadBack(digits, base, tail, v)
  {
    var s := digits + tail;
    PrefixOf(digits, base, tail);
    StrtoullParses(s, base);
    if !Misread(digits, base, tail) {
      assert s[0..|digits|] == digits;
      RunIs(s, 0, Strtoull(s, base).1, base, |digits|);
    }
  }

  /** The zeros and the numeral in a field of `number`. */
  ghost function Padded(v: u64, base: nat, small: bool, length: int): string
    requires ValidBase(base)
  {
    var n := Numeral(v, base, small);
    Repeat('0', length - |n|) + n
  }

  lemma PaddedWorth(v: u64, base: nat, small: bool, length: int)
    requires ValidBase(base)
    ensures Digital(Padded(v, base, small, length), base, v)
  {
    var n := Numeral(v, base, small);
    NumeralWorth(v, base, small);
    ZerosWorth(Max(length - |n|, 0), n, base);
    assert Repeat('0', length - |n|) == Repeat('0', Max(length - |n|, 0));
  }

  /** With zero padding, or none, a field is its head, zeros and the numeral. */
  lemma FieldOfHead(sign: string, prefix: string, n: string, width: int, precision: int, zeropad: bool, left: bool)
    requires (zeropad && !left) || width <= |sign| + |prefix| + Max(precision, |n|)
    ensures FieldText(sign, prefix, n, width, precision, zeropad, left) ==
            (sign + prefix) + (Repeat('0', Max(width - |sign| - |prefix|, precision) - |n|) + n)
  {
    var head, z := sign + prefix, Repeat('0', precision - |n|);
    var room := width - |head| - (|z| + |n|);
    if zeropad && !left {
      ZerosJoin(head, room, precision - |n|, n);
    } else {
      assert Repeat(' ', room) == "" && head + (z + n) + "" == "" + head + (z + n);
    }
  }

  lemma ZerosJoin(head: string, a: int, b: int, n: string)
    ensures head + Repeat('0', a) + (Repeat('0', b) + n) == head + (Repeat('0', Max(a, 0) + Max(b, 0)) + n)
  {
    assert Repeat('0', a) + Repeat('0', b) == Repeat('0', Max(a, 0) + Max(b, 0));
    assert head + Repeat('0', a) + (Repeat('0', b) + n) == head + (Repeat('0', a) + Repeat('0', b) + n);
  }

  lemma FieldOfSign(sign: string, n: string, width: int, precision: int, zeropad: bool, left: bool)
    requires (zeropad && !left) || width <= |sign| + Max(precision, |n|)
    ensures FieldText(sign, "", n, width, precision, zeropad, left) ==
            sign + (Repeat('0', Max(width - |sign|, precision) - |n|) + n)
  {
    FieldOfHead(sign, "", n, width, precision, zeropad, left);
    assert sign + "" == sign;
  }

  /** Without sign, prefix and spaces, a field of `number` is zeros and the numeral. */
  lemma ZeroPadded(num: u64, base: nat, width: int, precision: int, f: Flags)
    requires ValidBase(base) && !f.sign && !f.special
    requires (f.zeropad && !f.left) || width <= Max(precision, |Digits(num, base)|)
    ensures NumberText(num, base, width, precision, f) == Padded(num, base, f.small, Max(width, precision))
  {
    FieldOfSign("", Numeral(num, base, f.small), width, precision, f.zeropad, f.left);
    assert "" + Padded(num, base, f.small, Max(width, precision)) == Padded(num, base, f.small, Max(width, precision));
  }

  lemma PrintedDigits(num: u64, base: nat, width: int, precision: int, f: Flags)
    requires ValidBase(base) && !f.sign && !f.special
    requires (f.zeropad && !f.left) || width <= Max(precision, |Digits(num, base)|)
    ensures Digital(NumberText(num, base, width, precision, f), base, num)
  {
    ZeroPadded(num, base, width, precision, f);
    PaddedWorth(num, base, f.small, Max(width, precision));
  }

  /** Every number `number` writes zero-padded or unpadded is read back by `simple_strtoull`. */
  lemma PrintedReadsBack(num: u64, base: u32, width: int, precision: int, f: Flags, tail: string)
    requires ValidBase(base) && !f.sign && !f.special && DigitValue(CharAt(tail, 0)) >= base
    requires (f.zeropad && !f.left) || width <= Max(precision, |Digits(num, base)|)
    ensures ReadBack(NumberText(num, base, width, precision, f), base, tail, num)
  {
    PrintedDigits(num, base, width, precision, f);
    ReadsBack(NumberText(num, base, width, precision, f), base, tail, num);
  }

  /** A hexadecimal zero with an x behind it is read up to the x. */
  lemma ZeroXMisread(tail: string)
    requires tail == "x"
    ensures Strtoull("0" + tail, 16) == (0, 2)
  {
    assert ("0" + tail)[1] == 'x';
  }

  // ----- signs and prefixes

  predicate ReadBackSigned(text: string, tail: string, v: u64) {
    Strtol(text + tail, 10) == (v, |text|)
  }

  /** `text` is `body` with the minus of a negative number, and `num` its two's complement. */
  ghost predicate SignedForm(text: string, num: u64, negative: bool, body: string, m: u64) {
    && text == (if negative then "-" else "") + body
    && num == if negative then (B64 - m) % B64 else m
  }

  lemma ReadsBackSigned(text: string, num: u64, negative: bool, body: string, m: u64, tail: string)
    requires Digital(body, 10, m) && SignedForm(text, num, negative, body, m) && DigitValue(CharAt(tail, 0)) >= 10
    ensures ReadBackSigned(text, tail, num)
  {
    ReadsBack(body, 10, tail, m);
    assert DigitValue(body[0]) < 10;
    if negative {
      assert (text + tail)[0] == '-' && (text + tail)[1..] == body + tail;
    } else {
      assert text == body && (text + tail)[0] == body[0];
    }
  }

  /** A minus is written, or no sign at all. */
  predicate MinusOnly(num: u64, f: Flags) {
    Negative(num, f) || (!f.plus && !f.space)
  }

  lemma SignedNumber(num: u64, f: Flags, negative: bool, m: u64)
    requires f.sign && MinusOnly(num, f) && negative == Negative(num, f) && m == Magnitude(num, f)
    ensures SignText(num, f) == (if negative then "-" else "") && num == if negative then (B64 - m) % B64 else m
  {
  }

  /** No spaces are written: the field is zero-padded or not padded. */
  ghost predicate Unspaced(num: u64, base: nat, width: int, precision: int, f: Flags)
    requires ValidBase(base)
  {
    || (f.zeropad && !f.left)
    || width <= |SignText(num, f)| + |PrefixText(base, f)| + Max(precision, |Digits(Magnitude(num, f), base)|)
  }

  lemma SignedText(num: u64, width: int, precision: int, f: Flags)
    requires f.sign && MinusOnly(num, f) && Unspaced(num, 10, width, precision, f)
    ensures SignedForm(NumberText(num, 10, width, precision, f), num, Negative(num, f),
                       Padded(Magnitude(num, f), 10, f.small, Max(width - |SignText(num, f)|, precision)),
                       Magnitude(num, f))
  {
    SignedNumber(num, f, Negative(num, f), Magnitude(num, f));
    FieldOfSign(SignText(num, f), Numeral(Magnitude(num, f), 10, f.small), width, precision, f.zeropad, f.left);
  }

  lemma MinusIsRead(num: u64, width: int, precision: int, f: Flags, tail: string)
    requires f.sign && MinusOnly(num, f) && Unspaced(num, 10, width, precision, f) && DigitValue(CharAt(tail, 0)) >= 10
    ensures ReadBackSigned(NumberText(num, 10, width, precision, f), tail, num)
  {
    var m, length := Magnitude(num, f), Max(width - |SignText(num, f)|, precision);
    SignedText(num, width, precision, f);
    PaddedWorth(m, 10, f.small, length);
    ReadsBackSigned(NumberText(num, 10, width, precision, f), num, Negative(num, f), Padded(m, 10, f.small, length), m,
                    tail);
  }

  /** There is a text and nothing of it is read. */
  predicate Unread(text: string, tail: string) {
    text != "" && Strtol(text + tail, 10) == (0, 0)
  }

  lemma UnreadFirst(text: string, sign: string, rest: string, tail: string)
    requires text == sign + rest && (sign == "+" || sign == " ")
    ensures Unread(text, tail)
  {
    assert (text + tail)[0] == sign[0];
  }

  /** A plus sign, or the space in its place, stops `simple_strtol` before the first digit. */
  lemma PlusIsUnread(num: u64, width: int, precision: int, f: Flags, tail: string)
    requires f.sign && !MinusOnly(num, f) && Unspaced(num, 10, width, precision, f)
    ensures Unread(NumberText(num, 10, width, precision, f), tail)
  {
    var n := Numeral(num, 10, f.small);
    FieldOfSign(SignText(num, f), n, width, precision, f.zeropad, f.left);
    UnreadFirst(NumberText(num, 10, width, precision, f), SignText(num, f),
                Repeat('0', Max(width - |SignText(num, f)|, precision) - |n|) + n, tail);
  }

  lemma UnreadIsNotReadBack(text: string, tail: string, v: u64)
    requires Unread(text, tail)
    ensures !ReadBackSigned(text, tail, v)
  {
  }

  /**
   * A signed decimal of any precision, zero-padded to any width or not padded,
   * with anything but a digit behind it, is read back by `simple_strtol` if
   * and only if it is negative or its flags ask for neither plus nor space.
   */
  lemma SignedReadsBack(num: u64, width: int, precision: int, f: Flags, tail: string)
    requires f.sign && Unspaced(num, 10, width, precision, f) && DigitValue(CharAt(tail, 0)) >= 10
    ensures ReadBackSigned(NumberText(num, 10, width, precision, f), tail, num) <==>
            Negative(num, f) || (!f.plus && !f.space)
  {
    if MinusOnly(num, f) {
      MinusIsRead(num, width, precision, f, tail);
    } else {
      PlusIsUnread(num, width, precision, f, tail);
      UnreadIsNotReadBack(NumberText(num, 10, width, precision, f), tail, num);
    }
  }

  predicate ReadBackUnaided(text: string, v: u64) {
    Strtoull(text, 0) == (v, |text|)
  }

  lemma ReadsBackHex(text: string, body: string, x: char, v: u64)
    requires Digital(body, 16, v) && IsX(x) && text == ['0', x] + body
    ensures ReadBackUnaided(text, v)
  {
    StrtoullParses(text, 0);
    assert DigitValue(body[0]) < 16;
    assert text[2] == body[0] && text[2..|text|] == body;
    RunIs(text, 2, Strtoull(text, 0).1, 16, |text|);
  }

  lemma OctalDigits(text: string, body: string, v: u64)
    requires Digital(body, 8, v) && text == "0" + body
    ensures Digital(text, 8, v)
  {
    assert Repeat('0', 1) + body == text;
    ZerosWorth(1, body, 8);
  }

  lemma ReadsBackOctal(text: string, body: string, v: u64)
    requires Digital(body, 8, v) && text == "0" + body
    ensures ReadBackUnaided(text, v)
  {
    assert DigitValue(body[0]) < 8;
    assert text[0] == '0' && text[1] == body[0];
    OctalDigits(text, body, v);
    StrtoullParses(text, 0);
    assert text[0..|text|] == text;
    RunIs(text, 0, Strtoull(text, 0).1, 8, |text|);
  }

  lemma FieldOfPrefix(prefix: string, n: string, width: int, precision: int, zeropad: bool, left: bool)
    requires (zeropad && !left) || width <= |prefix| + Max(precision, |n|)
    ensures FieldText("", prefix, n, width, precision, zeropad, left) ==
            prefix + (Repeat('0', Max(width - |prefix|, precision) - |n|) + n)
  {
    FieldOfHead("", prefix, n, width, precision, zeropad, left);
    assert "" + prefix == prefix;
  }

  lemma PrefixedText(num: u64, base: u32, width: int, precision: int, f: Flags)
    requires (base == 8 || base == 16) && !f.sign && f.special && Unspaced(num, base, width, precision, f)
    ensures NumberText(num, base, width, precision, f) ==
            PrefixText(base, f) + Padded(num, base, f.small, Max(width - |PrefixText(base, f)|, precision))
  {
    FieldOfPrefix(PrefixText(base, f), Numeral(num, base, f.small), width, precision, f.zeropad, f.left);
  }

  /** The prefix of base 8 or 16 tells `simple_strtoull` the base when it is given none. */
  lemma PrefixReadsBack(num: u64, base: u32, width: int, precision: int, f: Flags)
    requires (base == 8 || base == 16) && !f.sign && f.special && Unspaced(num, base, width, precision, f)
    ensures ReadBackUnaided(NumberText(num, base, width, precision, f), num)
  {
    var length := Max(width - |PrefixText(base, f)|, precision);
    PrefixedText(num, base, width, precision, f);
    PaddedWorth(num, base, f.small, length);
    if base == 16 {
      ReadsBackHex(NumberText(num, base, width, precision, f), Padded(num, base, f.small, length),
                   WithCase('X', f.small), num);
    } else {
      ReadsBackOctal(NumberText(num, base, width, precision, f), Padded(num, base, f.small, length), num);
    }
  }

  // ----- decimals without a base

  /** The digits of an octal text are worth less than they would be as decimals, but for a single one. */
  lemma {:induction false} OctalIsLess(s: string)
    requires AllDigits(s, 8)
    ensures if Worth(s, 10) < 8 then Worth(s, 8) == Worth(s, 10) else Worth(s, 8) < Worth(s, 10)
  {
    if s != "" {
      OctalIsLess(s[..|s| - 1]);
    }
  }

  /** Digits of a number below 8 are octal digits. */
  lemma {:induction false} SmallIsOctal(s: string)
    requires AllDigits(s, 10) && Worth(s, 10) < 8
    ensures AllDigits(s, 8)
  {
    if s != "" {
      var t := s[..|s| - 1];
      SmallIsOctal(t);
      forall k | 0 <= k < |s| ensures DigitValue(s[k]) < 8 {
        if k < |t| { assert s[k] == t[k]; }
      }
    }
  }

  /** A lone zero in front of what would be a hexadecimal number without it. */
  predicate Prefixes(text: string, tail: string) {
    text == "0" && IsX(CharAt(tail, 0)) && DigitValue(CharAt(tail, 1)) < 16
  }

  lemma PrefixesWhen(text: string, tail: string)
    requires text != "" && AllDigits(text, 10) && text[0] == '0'
    ensures var s := text + tail; Prefixes(text, tail) <==> HexPrefixed(s) && |s| > 2 && DigitValue(s[2]) < 16
  {
    var s := text + tail;
    if |text| > 1 {
      assert s[1] == text[1] && DigitValue(text[1]) < 10;
    } else {
      assert text == "0" && CharAt(s, 1) == CharAt(tail, 0) && CharAt(s, 2) == CharAt(tail, 1);
    }
  }

  /** A text that starts with a zero is read as an octal number. */
  lemma ReadsOctal(text: string, tail: string, v: u64)
    requires Digital(text, 10, v) && text[0] == '0' && !Prefixes(text, tail) && DigitValue(CharAt(tail, 0)) >= 10
    ensures Strtoull(text + tail, 0) == (v, |text|) <==> v < 8
  {
    var s := text + tail;
    assert s[0] == '0';
    PrefixesWhen(text, tail);
    StrtoullParses(s, 0);
    var end := Strtoull(s, 0).1;
    assert s[0..|text|] == text && CharAt(s, |text|) == CharAt(tail, 0);
    if v < 8 {
      SmallIsOctal(text);
      RunIs(s, 0, end, 8, |text|);
      OctalIsLess(text);
    } else if end == |text| {
      OctalIsLess(text);
    }
  }

  /**
   * Decimal digits that end where no digit follows are read back without a
   * base if and only if they start with no zero, or are worth less than 8 and
   * are not taken for the prefix of a hexadecimal number.
   */
  lemma ReadsBackDecimal(text: string, tail: string, v: u64)
    requires Digital(text, 10, v) && DigitValue(CharAt(tail, 0)) >= 10
    ensures Strtoull(text + tail, 0) == (v, |text|) <==> text[0] != '0' || (v < 8 && !Prefixes(text, tail))
  {
    var s := text + tail;
    assert s[0] == text[0] && s[0..|text|] == text && CharAt(s, |text|) == CharAt(tail, 0);
    StrtoullParses(s, 0);
    if text[0] != '0' {
      RunIs(s, 0, Strtoull(s, 0).1, 10, |text|);
    } else if Prefixes(text, tail) {
      PrefixesWhen(text, tail);
    } else {
      ReadsOctal(text, tail, v);
    }
  }

  /** Every decimal `number` writes zero-padded or unpadded, read without a base. */
  lemma PrintedDecimal(num: u64, width: int, precision: int, f: Flags, tail: string)
    requires !f.sign && !f.special && DigitValue(CharAt(tail, 0)) >= 10
    requires (f.zeropad && !f.left) || width <= Max(precision, |Digits(num, 10)|)
    ensures var text := NumberText(num, 10, width, precision, f);
            && text != ""
            && (Strtoull(text + tail, 0) == (num, |text|) <==>
                text[0] != '0' || (num < 8 && !Prefixes(text, tail)))
  {
    PrintedDigits(num, 10, width, precision, f);
    ReadsBackDecimal(NumberText(num, 10, width, precision, f), tail, num);
  }

  lemma FirstDigit(v: nat, small: bool)
    requires v > 0
    ensures Numeral(v, 10, small)[0] != '0'
  {
    DigitsValue(v, 10);
    var ds := Digits(v, 10);
    HexDigitValue(ds[|ds| - 1], small);
  }

  /** A nonzero decimal without padding, sign or extra zeros is read back without a base. */
  lemma PlainDecimal(num: u64, width: int, precision: int, f: Flags, tail: string)
    requires num > 0 && !f.sign && !f.special && DigitValue(CharAt(tail, 0)) >= 10
    requires width <= |Digits(num, 10)| && precision <= |Digits(num, 10)|
    ensures var text := NumberText(num, 10, width, precision, f); Strtoull(text + tail, 0) == (num, |text|)
  {
    PrintedDecimal(num, width, precision, f, tail);
    ZeroPadded(num, 10, width, precision, f);
    FirstDigit(num, f.small);
    var n := Numeral(num, 10, f.small);
    assert Repeat('0', Max(width, precision) - |n|) + n == n;
  }
}
