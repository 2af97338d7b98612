/**
 * Bounded formatted output (lib/vsprintf.c): what a format and its arguments
 * stand for, and the writer that must produce the same text whatever the size
 * of its buffer.
 */
module PrintfSpec {
  import opened Words
  import opened Numerals

  datatype Flags = Flags(zeropad: bool, sign: bool, plus: bool, space: bool, left: bool, small: bool, special: bool)

  const NO_FLAGS := Flags(false, false, false, false, false, false, false)

  const DIGITS: string := "0123456789ABCDEF"

  function Max(a: int, b: int): int {
    if a < b then b else a
  }

  /** `c | 0x20`, or `c` alone. */
  function WithCase(c: char, small: bool): char
    requires c as int < 128
  {
    if small && (c as int) / 32 % 2 == 0 then (c as int + 32) as char else c
  }

  function HexChar(d: nat, small: bool): char
    requires d < 16
  {
    WithCase(DIGITS[d], small)
  }

  function Repeat(c: char, n: int): (s: string)
    ensures |s| == Max(n, 0) && forall k :: 0 <= k < |s| ==> s[k] == c
  {
    seq(Max(n, 0), k => c)
  }

  // ----- one number

  predicate ValidBase(base: nat) {
    base == 8 || base == 10 || base == 16
  }

  ghost predicate HexBelow(ds: seq<nat>) {
    forall k :: 0 <= k < |ds| ==> ds[k] < 16
  }

  /** The characters of digits, most significant first. */
  ghost function Characters(ds: seq<nat>, small: bool): (s: string)
    requires HexBelow(ds)
    ensures |s| == |ds| && forall k :: 0 <= k < |ds| ==> s[k] == HexChar(ds[|ds| - 1 - k], small)
  {
    seq(|ds|, k requires 0 <= k < |ds| => HexChar(ds[|ds| - 1 - k], small))
  }

  /** The numeral of `v`. */
  ghost function Numeral(v: nat, base: nat, small: bool): (s: string)
    requires ValidBase(base)
    ensures |s| == |Digits(v, base)|
  {
    DigitsValue(v, base);
    Characters(Digits(v, base), small)
  }

  predicate Negative(num: u64, f: Flags) {
    f.sign && num >= 0x8000_0000_0000_0000
  }

  function Magnitude(num: u64, f: Flags): u64 {
    if Negative(num, f) then B64 - num else num
  }

  function SignText(num: u64, f: Flags): string {
    if Negative(num, f) then "-"
    else if f.sign && f.plus then "+"
    else if f.sign && f.space then " "
    else ""
  }

  function PrefixText(base: nat, f: Flags): string {
    if !f.special || base == 10 then ""
    else if base == 16 then ['0', WithCase('X', f.small)]
    else "0"
  }

  /** A numeral with the zeros the precision asks for, a sign and a prefix, in a field of at least `width`. */
  function FieldText(sign: string, prefix: string, numeral: string, width: int, precision: int, zeropad: bool,
                     left: bool): string
  {
    var head, body := sign + prefix, Repeat('0', precision - |numeral|) + numeral;
    var room := width - |head| - |body|;
    if left then head + body + Repeat(' ', room)
    else if zeropad then head + Repeat('0', room) + body
    else Repeat(' ', room) + head + body
  }

  /** The field of one number. */
  ghost function NumberText(num: u64, base: nat, width: int, precision: int, f: Flags): string
    requires ValidBase(base)
  {
    FieldText(SignText(num, f), PrefixText(base, f), Numeral(Magnitude(num, f), base, f.small),
              width, precision, f.zeropad, f.left)
  }

  lemma NumberLength(num: u64, base: nat, width: int, precision: int, f: Flags)
    requires ValidBase(base)
    ensures |NumberText(num, base, width, precision, f)| ==
            Max(width, |SignText(num, f)| + |PrefixText(base, f)|
                       + Max(precision, |Digits(Magnitude(num, f), base)|))
  {
  }

  // ----- one string or character

  /** The field of `s` cut to `precision` characters; a negative precision does not cut. */
  function StringText(s: string, width: int, precision: int, f: Flags): string {
    var cut := if 0 <= precision < |s| then s[..precision] else s;
    if f.left then cut + Repeat(' ', width - |cut|) else Repeat(' ', width - |cut|) + cut
  }

  // ----- digits in a text

  /** The value of a hexadecimal digit; anything else is no digit of any base. */
  function DigitValue(c: char): nat {
    if '0' <= c <= '9' then c as int - '0' as int
    else if 'a' <= c <= 'f' then c as int - 'a' as int + 10
    else if 'A' <= c <= 'F' then c as int - 'A' as int + 10
    else B32
  }

  ghost predicate AllDigits(s: string, base: nat) {
    forall k :: 0 <= k < |s| ==> DigitValue(s[k]) < base
  }

  /** What a text of digits is worth, most significant first. */
  ghost function Worth(s: string, base: nat): nat {
    if s == "" then 0 else Worth(s[..|s| - 1], base) * base + DigitValue(s[|s| - 1])
  }

  // ----- formats

  datatype Arg = Word(word: u64) | Text(text: string) | Null

  function CharAt(fmt: string, i: nat): char {
    if i < |fmt| then fmt[i] else '\0'
  }

  predicate IsDigit(c: char) {
    '0' <= c <= '9'
  }

  predicate IsFlag(c: char) {
    c == '-' || c == '+' || c == ' ' || c == '#' || c == '0'
  }

  function AddFlag(f: Flags, c: char): Flags {
    if c == '-' then f.(left := true)
    else if c == '+' then f.(plus := true)
    else if c == ' ' then f.(space := true)
    else if c == '#' then f.(special := true)
    else f.(zeropad := true)
  }

  function ReadFlags(fmt: string, i: nat, f: Flags): (r: (Flags, nat))
    ensures r.1 >= i
    decreases |fmt| - i
  {
    if i < |fmt| && IsFlag(fmt[i]) then ReadFlags(fmt, i + 1, AddFlag(f, fmt[i])) else (f, i)
  }

  function ReadNumber(fmt: string, i: nat, n: nat): (r: (nat, nat))
    ensures r.1 >= i
    decreases |fmt| - i
  {
    if i < |fmt| && IsDigit(fmt[i]) then ReadNumber(fmt, i + 1, n * 10 + (fmt[i] as int - '0' as int)) else (n, i)
  }

  /** One more digit of a run. */
  lemma RunExtends(s: string, start: nat, i: nat, base: nat)
    requires start <= i < |s| && AllDigits(s[start..i], base) && DigitValue(s[i]) < base
    ensures AllDigits(s[start..i + 1], base)
    ensures Worth(s[start..i + 1], base) == Worth(s[start..i], base) * base + DigitValue(s[i])
  {
    var run, rest := s[start..i + 1], s[start..i];
    assert run == rest + [s[i]];
    assert run[..|run| - 1] == rest;
  }

  lemma {:induction false} ReadNumberFrom(fmt: string, start: nat, i: nat, n: nat)
    requires start <= i <= |fmt| && AllDigits(fmt[start..i], 10) && n == Worth(fmt[start..i], 10)
    ensures var r := ReadNumber(fmt, i, n);
            && start <= r.1 <= |fmt| && AllDigits(fmt[start..r.1], 10) && DigitValue(CharAt(fmt, r.1)) >= 10
            && r.0 == Worth(fmt[start..r.1], 10)
    decreases |fmt| - i
  {
    if i < |fmt| && IsDigit(fmt[i]) {
      RunExtends(fmt, start, i, 10);
      ReadNumberFrom(fmt, start, i + 1, n * 10 + (fmt[i] as int - '0' as int));
    }
  }

  /** The number in a format is what its longest run of decimal digits is worth. */
  lemma ReadNumberIs(fmt: string, i: nat)
    requires i <= |fmt|
    ensures var r := ReadNumber(fmt, i, 0);
            && i <= r.1 <= |fmt| && AllDigits(fmt[i..r.1], 10) && DigitValue(CharAt(fmt, r.1)) >= 10
            && r.0 == Worth(fmt[i..r.1], 10)
  {
    assert fmt[i..i] == "";
    ReadNumberFrom(fmt, i, i, 0);
  }

  /** A width or a precision: absent, in the format, or the next argument. */
  datatype Amount = Absent | Given(n: nat) | FromArgument

  function ReadAmount(fmt: string, i: nat): (r: (Amount, nat))
    ensures r.1 >= i
  {
    if IsDigit(CharAt(fmt, i)) then var r := ReadNumber(fmt, i, 0); (Given(r.0), r.1)
    else if CharAt(fmt, i) == '*' then (FromArgument, i + 1)
    else (Absent, i)
  }

  /** The qualifier, 'L' standing for "ll" and NUL for none. */
  function ReadQualifier(fmt: string, i: nat): (r: (char, nat))
    ensures r.1 >= i
  {
    var c := CharAt(fmt, i);
    if c == 'l' && CharAt(fmt, i + 1) == 'l' then ('L', i + 2)
    else if c == 'h' || c == 'l' || c == 'L' || c == 'Z' || c == 'z' || c == 't' then (c, i + 1)
    else ('\0', i)
  }

  datatype Directive =
    Directive(flags: Flags, width: Amount, dotted: bool, precision: Amount, qualifier: char, conversion: char,
              next: nat)

  /** The directive behind the '%' at `i - 1`. */
  function ReadDirective(fmt: string, i: nat): (d: Directive)
    requires i <= |fmt|
    ensures d.next >= i
  {
    var f := ReadFlags(fmt, i, NO_FLAGS);
    var w := ReadAmount(fmt, f.1);
    var dotted := CharAt(fmt, w.1) == '.';
    var p := if dotted then ReadAmount(fmt, w.1 + 1) else (Absent, w.1);
    var q := ReadQualifier(fmt, p.1);
    var c := CharAt(fmt, q.1);
    Directive(f.0, w.0, dotted, p.0, q.0, c, if c == '\0' then q.1 else q.1 + 1)
  }

  // ----- arguments

  /** `va_arg` of an integer; a missing or foreign argument, undefined in C, counts as 0. */
  function FirstWord(args: seq<Arg>): u64 {
    if |args| > 0 && args[0].Word? then args[0].word else 0
  }

  /** `va_arg` of a string, with the replacement for NULL. */
  function FirstText(args: seq<Arg>): string {
    if |args| > 0 && args[0].Text? then args[0].text else "<NULL>"
  }

  function Rest(args: seq<Arg>): seq<Arg> {
    if |args| > 0 then args[1..] else []
  }

  /** The low `bits` of a word as a two's complement number. */
  function Signed(w: u64, bits: nat): int {
    var m := w % Pow2(bits);
    if m < Pow2(bits) / 2 then m else m - Pow2(bits)
  }

  /** The low `bits` of a word, extended to 64 bits. */
  function Extended(w: u64, bits: nat, signed: bool): (r: u64)
    requires bits == 16 || bits == 32
  {
    Pow2Values();
    if signed then (if Signed(w, bits) < 0 then Signed(w, bits) + B64 else Signed(w, bits)) else w % Pow2(bits)
  }


  /** The argument of an integer conversion. */
  function Converted(w: u64, qualifier: char, signed: bool): u64 {
    if qualifier == 'L' || qualifier == 'l' || qualifier == 'Z' || qualifier == 'z' || qualifier == 't' then w
    else if qualifier == 'h' then Extended(w, 16, signed)
    else Extended(w, 32, signed)
  }

  // ----- what a format stands for

  /** The width and the flags, a negative width argument meaning left-justified. */
  function WidthFrom(amount: Amount, flags: Flags, args: seq<Arg>): (int, Flags, seq<Arg>) {
    match amount
    case Absent => (-1, flags, args)
    case Given(n) => (n, flags, args)
    case FromArgument =>
      var w := Signed(FirstWord(args), 32);
      if w < 0 then (-w, flags.(left := true), Rest(args)) else (w, flags, Rest(args))
  }

  /** The precision, -1 without a dot. */
  function PrecisionFrom(dotted: bool, amount: Amount, args: seq<Arg>): (int, seq<Arg>) {
    if !dotted then (-1, args)
    else match amount
      case Absent => (0, args)
      case Given(n) => (n, args)
      case FromArgument => (Max(Signed(FirstWord(args), 32), 0), Rest(args))
  }

  function BaseOf(conversion: char): nat {
    if conversion == 'o' then 8 else if conversion == 'x' || conversion == 'X' then 16 else 10
  }

  predicate IsInteger(conversion: char) {
    conversion == 'o' || conversion == 'x' || conversion == 'X' || conversion == 'd' || conversion == 'i'
    || conversion == 'u'
  }

  function IntegerFlags(f: Flags, conversion: char): Flags {
    f.(small := conversion == 'x', sign := conversion == 'd' || conversion == 'i')
  }

  /** The text of one conversion and the arguments left. */
  ghost function Convert(conversion: char, qualifier: char, width: int, precision: int, f: Flags, args: seq<Arg>):
    (string, seq<Arg>)
  {
    if conversion == 'c' then
      (StringText([(FirstWord(args) % 256) as char], width, -1, f), Rest(args))
    else if conversion == 's' then (StringText(FirstText(args), width, precision, f), Rest(args))
    else if conversion == 'n' then ("", Rest(args))
    else if conversion == '%' then ("%", args)
    else if IsInteger(conversion) then
      var g := IntegerFlags(f, conversion);
      (NumberText(Converted(FirstWord(args), qualifier, g.sign), BaseOf(conversion), width, precision, g), Rest(args))
    else ("%" + (if conversion == '\0' then "" else [conversion]), args)
  }

  ghost function Render(d: Directive, args: seq<Arg>): (string, seq<Arg>) {
    var w := WidthFrom(d.width, d.flags, args);
    var p := PrecisionFrom(d.dotted, d.precision, w.2);
    Convert(d.conversion, d.qualifier, w.0, p.0, w.1, p.1)
  }

  /** The whole text, whatever the buffer. */
  ghost function Output(fmt: string, i: nat, args: seq<Arg>): string
    decreases |fmt| - i
  {
    if i >= |fmt| then ""
    else if fmt[i] != '%' then [fmt[i]] + Output(fmt, i + 1, args)
    else
      var d := ReadDirective(fmt, i + 1);
      var r := Render(d, args);
      r.0 + Output(fmt, d.next, r.1)
  }

  /** No directive of the format is a pointer conversion. */
  ghost predicate NoPointers(fmt: string, i: nat)
    decreases |fmt| - i
  {
    if i >= |fmt| then true
    else if fmt[i] != '%' then NoPointers(fmt, i + 1)
    else
      var d := ReadDirective(fmt, i + 1);
      d.conversion != 'p' && NoPointers(fmt, d.next)
  }
}

/** The writer: `number`, `string` and `vsnprintf_internal`. */
module Printf {
  import opened Words
  import opened Numerals
  import opened PrintfSpec
  import Decimal

  /** `buf` and `end` of the source, with `pos` for `str - buf`; `text` is what was asked to be written. */
  class Sink {
    const buf: array<char>
    const size: nat
    var pos: nat
    ghost var text: string
    ghost const beyond: seq<char>

    /** The buffer holds what fits of the text, and nothing past `size` was touched. */
    ghost predicate Valid()
      reads this, buf
    {
      && size <= buf.Length && pos == |text| && beyond == buf[size..]
      && (forall k :: 0 <= k < |text| && k < size ==> buf[k] == text[k])
    }

    constructor (buffer: array<char>, bound: nat)
      requires bound <= buffer.Length
      ensures Valid() && text == "" && buf == buffer && size == bound && beyond == buffer[bound..]
    {
      buf, size, pos, text := buffer, bound, 0, "";
      beyond := buffer[bound..];
    }

    /** ADDCH. */
    method AddCh(c: char)
      requires Valid()
      modifies this, buf
      ensures Valid() && text == old(text) + [c]
    {
      if pos < size { buf[pos] := c; }
      pos := pos + 1;
      text := text + [c];
      assert buf[size..] == old(buf[size..]);
    }

    /** `while (--n >= 0) ADDCH(c)`, with the final value of the counter. */
    method Pad(c: char, n: int) returns (left: int)
      requires Valid()
      modifies this, buf
      ensures Valid() && text == old(text) + Repeat(c, n) && left < 0
    {
      left := n - 1;
      while left >= 0
        invariant Valid() && left <= n - 1 && -1 <= Max(left, -1)
        invariant left >= -1 || left == n - 1
        invariant text == old(text) + Repeat(c, n - 1 - left)
      {
        AddCh(c);
        RepeatMore(old(text), c, n - 1 - left);
        left := left - 1;
      }
      if n < 0 { assert Repeat(c, n) == Repeat(c, 0); } else { assert left == -1; }
    }

    /** The characters of `tmp` below `n`, last to first. */
    method AddReversed(tmp: array<char>, n: nat)
      requires Valid() && n <= tmp.Length && tmp != buf
      modifies this, buf
      ensures Valid() && text == old(text) + Reversed(tmp[..n])
    {
      var i := n - 1;
      while i >= 0
        invariant -1 <= i < n && Valid() && tmp[..] == old(tmp[..])
        invariant text == old(text) + Reversed(tmp[..n])[..n - 1 - i]
      {
        ghost var r := Reversed(tmp[..n]);
        TakeMore(old(text), r, n - 1 - i);
        AddCh(tmp[i]);
        assert r == Reversed(tmp[..n]);
        i := i - 1;
      }
      assert Reversed(tmp[..n])[..n] == Reversed(tmp[..n]);
    }

    /** `while (len < width--) ADDCH(' ')`, with the final value of the counter. */
    method PadTo(len: nat, width: int) returns (left: int)
      requires Valid()
      modifies this, buf
      ensures Valid() && text == old(text) + Repeat(' ', width - len) && left < len
    {
      left := width;
      while len < left
        invariant Valid() && left <= width && (left >= len || left == width)
        invariant text == old(text) + Repeat(' ', width - left)
      {
        AddCh(' ');
        RepeatMore(old(text), ' ', width - left);
        left := left - 1;
      }
      if width < len { assert Repeat(' ', width - len) == Repeat(' ', 0); } else { assert left == len; }
      left := left - 1;
    }

    /** Lines 230-238: the sign and the prefix. */
    method AddHead(sign: string, prefix: string)
      requires Valid() && |sign| <= 1 && |prefix| <= 2
      modifies this, buf
      ensures Valid() && text == (old(text) + sign) + prefix
    {
      ghost var t := text;
      if |sign| > 0 { AddCh(sign[0]); }
      assert text == t + sign;
      ghost var u := text;
      if |prefix| > 0 {
        AddCh(prefix[0]);
        if |prefix| > 1 {
          AddCh(prefix[1]);
        }
      }
      assert text == u + prefix;
    }

    /** Lines 221-255: the numeral in `tmp` with what surrounds it. */
    method AddField(sign: string, prefix: string, tmp: array<char>, i: nat, width: int, precision: int,
                    zero: bool, left: bool)
      requires Valid() && |sign| <= 1 && |prefix| <= 2 && i <= tmp.Length && tmp != buf && !(zero && left)
      modifies this, buf
      ensures Valid()
      ensures text == old(text) + FieldText(sign, prefix, old(Reversed(tmp[..i])), width, precision, zero, left)
    {
      var digits := if i > precision then i else precision;
      var size := width - |sign| - |prefix| - digits;
      ghost var t, room := text, size;
      if !zero && !left { size := Pad(' ', size); }
      assert text == t + Spaces(!zero && !left, ' ', room);
      AddHead(sign, prefix);
      ghost var u := text;
      if !left { size := Pad(if zero then '0' else ' ', size); }
      assert text == u + Spaces(zero, '0', room);
      var done := Pad('0', digits - i);
      AddReversed(tmp, i);
      u := text;
      size := Pad(' ', size);
      assert text == u + Spaces(left, ' ', room);
      Assemble(t, sign, prefix, old(Reversed(tmp[..i])), width, precision, zero, left);
    }

    /** `number`. */
    method Number(num: u64, base: nat, width: int, precision: int, flags: Flags)
      requires Valid() && ValidBase(base)
      modifies this, buf
      ensures Valid() && text == old(text) + NumberText(num, base, width, precision, flags)
    {
      var tmp, i := TmpDigits(Magnitude(num, flags), base, flags.small);
      StartsNumeral(tmp[..], Magnitude(num, flags), base, flags.small);
      AddField(SignText(num, flags), PrefixText(base, flags), tmp, i, width, precision,
               flags.zeropad && !flags.left, flags.left);
    }

    /** `string`. */
    method AddString(s: string, width: int, precision: int, flags: Flags)
      requires Valid()
      modifies this, buf
      ensures Valid() && text == old(text) + StringText(s, width, precision, flags)
    {
      var len := if 0 <= precision < |s| then precision else |s|;
      ghost var pad := Repeat(' ', width - len);
      var left := width;
      if !flags.left { left := PadTo(len, left); }
      ghost var t := text;
      var i := 0;
      while i < len
        invariant 0 <= i <= len && Valid() && text == t + s[..i]
      {
        TakeMore(t, s, i);
        AddCh(s[i]);
        i := i + 1;
      }
      ghost var u := text;
      left := PadTo(len, left);
      ghost var cut := if 0 <= precision < |s| then s[..precision] else s;
      assert s[..len] == cut;
      if flags.left {
        assert (t + cut) + pad == t + (cut + pad);
      } else {
        assert ((old(text) + pad) + cut) + Repeat(' ', 0) == old(text) + (pad + cut);
      }
    }

    /** Lines 556-564: a character in its field. */
    method AddCharacter(c: char, width: int, flags: Flags)
      requires Valid()
      modifies this, buf
      ensures Valid() && text == old(text) + StringText([c], width, -1, flags)
    {
      ghost var t, pad := text, Repeat(' ', width - 1);
      var left := width;
      if !flags.left { left := PadTo(1, left); }
      AddCh(c);
      left := PadTo(1, left);
      if flags.left {
        assert (t + [c]) + pad == t + ([c] + pad);
      } else {
        assert ((t + pad) + [c]) + Repeat(' ', 0) == t + (pad + [c]);
      }
    }

    /** Lines 552-643: one conversion, with the arguments left. */
    method PutConversion(conversion: char, qualifier: char, width: int, precision: int, flags: Flags, args: seq<Arg>)
      returns (rest: seq<Arg>)
      requires Valid() && conversion != 'p'
      modifies this, buf
      ensures Valid()
      ensures (text, rest) == var r := Convert(conversion, qualifier, width, precision, flags, args);
                              (old(text) + r.0, r.1)
    {
      rest := args;
      if conversion == 'c' {
        AddCharacter((FirstWord(args) % 256) as char, width, flags);
        rest := Rest(args);
      } else if conversion == 's' {
        AddString(FirstText(args), width, precision, flags);
        rest := Rest(args);
      } else if conversion == 'n' {
        rest := Rest(args);
        assert text + "" == text;
      } else if conversion == '%' {
        AddCh('%');
      } else if IsInteger(conversion) {
        var f := flags.(small := conversion == 'x', sign := conversion == 'd' || conversion == 'i');
        Number(Converted(FirstWord(args), qualifier, f.sign), BaseOf(conversion), width, precision, f);
        rest := Rest(args);
      } else {
        AddCh('%');
        if conversion != '\0' { AddCh(conversion); }
        assert text == old(text) + ("%" + (if conversion == '\0' then "" else [conversion]));
      }
    }

    /** Lines 646-653: the terminator, inside the buffer whatever was written. */
    method Terminate()
      requires Valid() && size > 0
      modifies this, buf
      ensures text == old(text) && pos == |text| && beyond == buf[size..]
      ensures buf[Min(|text|, size - 1)] == '\0'
      ensures forall k :: 0 <= k < Min(|text|, size - 1) ==> buf[k] == text[k]
    {
      ghost var t := text;
      AddCh('\0');
      assert forall k :: 0 <= k < |t| ==> text[k] == t[k];
      if pos > size { buf[size - 1] := '\0'; }
      assert buf[size..] == beyond;
      pos, text := pos - 1, t;
    }
  }

  function Spaces(wanted: bool, c: char, n: int): string {
    if wanted then Repeat(c, n) else ""
  }

  function Min(a: int, b: int): int {
    if a < b then a else b
  }

  /** The pieces of a field in the order they are written. */
  lemma Assemble(t: string, sign: string, prefix: string, n: string, width: int, precision: int, zero: bool, left: bool)
    requires !(zero && left)
    ensures var room := width - |sign| - |prefix| - Max(precision, |n|);
            ((((((t + Spaces(!zero && !left, ' ', room)) + sign) + prefix) + Spaces(zero, '0', room))
              + Repeat('0', Max(precision, |n|) - |n|)) + n) + Spaces(left, ' ', room)
            == t + FieldText(sign, prefix, n, width, precision, zero, left)
  {
    var room := width - |sign| - |prefix| - Max(precision, |n|);
    var z := Repeat('0', Max(precision, |n|) - |n|);
    assert z == Repeat('0', precision - |n|);
    var a, b, c := Spaces(!zero && !left, ' ', room), Spaces(zero, '0', room), Spaces(left, ' ', room);
    Join(t, a, sign, prefix, b, z, n, c);
    JoinField(a, sign + prefix, b, z + n, c);
  }

  lemma Join(t: string, a: string, s: string, p: string, b: string, z: string, n: string, c: string)
    ensures ((((((t + a) + s) + p) + b) + z) + n) + c == t + (a + (s + p) + b + (z + n) + c)
  {
  }

  lemma JoinField(a: string, head: string, b: string, body: string, c: string)
    ensures a == "" && b == "" ==> a + head + b + body + c == head + body + c
    ensures a == "" && c == "" ==> a + head + b + body + c == head + b + body
    ensures b == "" && c == "" ==> a + head + b + body + c == a + head + body
  {
  }

  /** Lines 196-219: the digits of a number, last first. */
  method TmpDigits(v: u64, base: nat, small: bool) returns (tmp: array<char>, i: nat)
    requires ValidBase(base)
    ensures fresh(tmp) && i == |Digits(v, base)| <= tmp.Length && Starts(tmp[..], Digits(v, base), small)
  {
    tmp := new char[66];
    if v == 0 {
      tmp[0] := '0';
      i := 1;
    } else if base != 10 {
      i := MaskedDigits(tmp, v, base, small);
    } else {
      i := Decimal.PutDec(tmp, 0, v);
      DecimalIsHex(tmp[..], Digits(v, base), small);
    }
  }

  function Reversed(s: string): (r: string)
    ensures |r| == |s| && forall k :: 0 <= k < |s| ==> r[k] == s[|s| - 1 - k]
  {
    seq(|s|, k requires 0 <= k < |s| => s[|s| - 1 - k])
  }

  lemma RepeatMore(s: string, c: char, n: nat)
    ensures (s + Repeat(c, n)) + [c] == s + Repeat(c, n + 1)
  {
  }

  lemma TakeMore(s: string, r: string, n: nat)
    requires n < |r|
    ensures (s + r[..n]) + [r[n]] == s + r[..n + 1]
  {
  }

  // ----- digits

  /** `tmp` starts with the characters of `ds`. */
  ghost predicate Starts(tmp: seq<char>, ds: seq<nat>, small: bool) {
    |ds| <= |tmp| && forall k :: 0 <= k < |ds| ==> ds[k] < 16 && tmp[k] == HexChar(ds[k], small)
  }

  lemma StartsNumeral(tmp: seq<char>, v: nat, base: nat, small: bool)
    requires ValidBase(base) && Starts(tmp, Digits(v, base), small)
    ensures Reversed(tmp[..|Digits(v, base)|]) == Numeral(v, base, small)
  {
  }

  lemma DecimalIsHex(tmp: seq<char>, ds: seq<nat>, small: bool)
    requires Decimal.Holds(tmp, 0, ds)
    ensures Starts(tmp, ds, small)
  {
    forall k | 0 <= k < |ds| ensures ds[k] < 16 && tmp[k] == HexChar(ds[k], small) {
      assert tmp[0 + k] == Decimal.DigitChar(ds[k]);
      TenDigits(ds[k], small);
    }
  }

  lemma TenDigits(d: nat, small: bool)
    requires d < 10
    ensures HexChar(d, small) == Decimal.DigitChar(d)
  {
  }

  lemma OctalDigits(v: u64)
    ensures |Digits(v, 8)| <= 22
  {
    assert Power(8, 11) == 0x2_0000_0000 by {
      assert Power(8, 5) == 0x8000;
      assert Power(8, 10) == 0x8000 * Power(8, 5);
    }
    assert Power(8, 22) == 0x2_0000_0000 * Power(8, 11) by {
      assert Power(8, 16) == 0x8000 * Power(8, 11);
      assert Power(8, 21) == 0x8000 * Power(8, 16);
    }
    DigitsShort(v, 8, 22);
  }

  lemma HexDigits(v: u64)
    ensures |Digits(v, 16)| <= 16
  {
    assert Power(16, 5) == 0x10_0000 && Power(16, 10) == 0x10_0000 * Power(16, 5);
    assert Power(16, 15) == 0x10_0000 * Power(16, 10) && Power(16, 16) == 16 * Power(16, 15);
    DigitsShort(v, 16, 16);
  }

  /** The digits still to come: none of 0. */
  ghost function Pending(num: nat, base: nat): seq<nat>
    requires base >= 2
  {
    if num == 0 then [] else Digits(num, base)
  }

  lemma PendingStep(num: nat, base: nat)
    requires num > 0 && base >= 2
    ensures num % base >= 0 && num / base >= 0 && Pending(num, base) == [num % base] + Pending(num / base, base)
  {
    Euclid(num, base);
    QuotientLess(num, base);
    if num < base { QuotientIs(num, base, 0); } else { assert num / base > 0; }
  }

  lemma ByteMask(num: nat, base: nat)
    requires base == 8 || base == 16
    ensures num % 256 % base == num % base
  {
    var q, r := num / 256, num % 256;
    assert num == q * 256 + r;
    if base == 8 {
      QuotientIs(num, 8, q * 32 + r / 8);
    } else {
      QuotientIs(num, 16, q * 16 + r / 16);
    }
  }

  /** Lines 213-215. */
  method PutMasked(tmp: array<char>, i: nat, num: u64, base: nat, small: bool, ghost done: seq<nat>) returns (rest: u64)
    requires num > 0 && (base == 8 || base == 16) && i == |done| < tmp.Length && Starts(tmp[..], done, small)
    modifies tmp
    ensures rest == num / base && Starts(tmp[..], done + [num % base], small)
  {
    ByteMask(num, base);
    QuotientBelow(num, base);
    tmp[i] := HexChar(num % 256 % base, small);
    rest := num / base;
  }

  /** Lines 205-216: the digits of a nonzero number in base 8 or 16. */
  method MaskedDigits(tmp: array<char>, v: u64, base: nat, small: bool) returns (i: nat)
    requires v > 0 && (base == 8 || base == 16) && tmp.Length == 66
    modifies tmp
    ensures i == |Digits(v, base)| && Starts(tmp[..], Digits(v, base), small)
  {
    OctalDigits(v);
    HexDigits(v);
    ghost var all := Digits(v, base);
    var num: u64 := v;
    i := 0;
    ghost var done: seq<nat> := [];
    while num != 0
      invariant i == |done| && Starts(tmp[..], done, small) && all == done + Pending(num, base) && |all| <= 22
    {
      PendingStep(num, base);
      Assoc(done, [num % base], Pending(num / base, base));
      ghost var d := num % base;
      num := PutMasked(tmp, i, num, base, small, done);
      i := i + 1;
      done := done + [d];
    }
    assert done + [] == done;
  }

  lemma Assoc(s: seq<nat>, t: seq<nat>, u: seq<nat>)
    ensures s + (t + u) == (s + t) + u
  {
  }

  // ----- reading the format

  /** Lines 489-509: the flags. */
  method SkipFlags(fmt: string, start: nat) returns (flags: Flags, i: nat)
    ensures (flags, i) == ReadFlags(fmt, start, NO_FLAGS)
  {
    flags, i := NO_FLAGS, start;
    while IsFlag(CharAt(fmt, i))
      invariant ReadFlags(fmt, i, flags) == ReadFlags(fmt, start, NO_FLAGS)
      decreases |fmt| - i
    {
      flags := AddFlag(flags, CharAt(fmt, i));
      i := i + 1;
    }
  }

  /** `skip_atoi`. */
  method SkipAtoi(fmt: string, start: nat) returns (n: nat, i: nat)
    ensures (n, i) == ReadNumber(fmt, start, 0)
    ensures start <= |fmt| ==>
              && start <= i <= |fmt| && AllDigits(fmt[start..i], 10) && DigitValue(CharAt(fmt, i)) >= 10
              && n == Worth(fmt[start..i], 10)
  {
    n, i := 0, start;
    while IsDigit(CharAt(fmt, i))
      invariant ReadNumber(fmt, i, n) == ReadNumber(fmt, start, 0)
      decreases |fmt| - i
    {
      n := n * 10 + (CharAt(fmt, i) as int - '0' as int);
      i := i + 1;
    }
    if start <= |fmt| { ReadNumberIs(fmt, start); }
  }

  /** Lines 511-523: the field width. */
  method FieldWidth(fmt: string, start: nat, given: Flags, args: seq<Arg>)
    returns (width: int, flags: Flags, i: nat, rest: seq<Arg>, ghost amount: Amount)
    ensures (amount, i) == ReadAmount(fmt, start)
    ensures (width, flags, rest) == WidthFrom(amount, given, args)
  {
    width, flags, i, rest, amount := -1, given, start, args, Absent;
    if IsDigit(CharAt(fmt, i)) {
      width, i := SkipAtoi(fmt, i);
      amount := Given(width);
    } else if CharAt(fmt, i) == '*' {
      i := i + 1;
      width, rest, amount := Signed(FirstWord(args), 32), Rest(args), FromArgument;
      if width < 0 {
        width, flags := -width, flags.(left := true);
      }
    }
  }

  /** Lines 525-538: the precision. */
  method Precision(fmt: string, start: nat, args: seq<Arg>)
    returns (precision: int, i: nat, rest: seq<Arg>, ghost amount: Amount)
    ensures (amount, i) == if CharAt(fmt, start) == '.' then ReadAmount(fmt, start + 1) else (Absent, start)
    ensures (precision, rest) == PrecisionFrom(CharAt(fmt, start) == '.', amount, args)
  {
    precision, i, rest, amount := -1, start, args, Absent;
    if CharAt(fmt, i) == '.' {
      i := i + 1;
      if IsDigit(CharAt(fmt, i)) {
        precision, i := SkipAtoi(fmt, i);
        amount := Given(precision);
      } else if CharAt(fmt, i) == '*' {
        i := i + 1;
        precision, rest, amount := Signed(FirstWord(args), 32), Rest(args), FromArgument;
      }
      if precision < 0 { precision := 0; }
    }
  }

  /** Lines 540-550: the qualifier. */
  method Qualifier(fmt: string, start: nat) returns (qualifier: char, i: nat)
    ensures (qualifier, i) == ReadQualifier(fmt, start)
  {
    qualifier, i := '\0', start;
    var c := CharAt(fmt, i);
    if c == 'h' || c == 'l' || c == 'L' || c == 'Z' || c == 'z' || c == 't' {
      qualifier := c;
      i := i + 1;
      if qualifier == 'l' && CharAt(fmt, i) == 'l' {
        qualifier := 'L';
        i := i + 1;
      }
    }
  }

  /** Lines 489-643: the directive behind a '%'. */
  method PutDirective(out: Sink, fmt: string, start: nat, args: seq<Arg>) returns (i: nat, rest: seq<Arg>)
    requires out.Valid() && start <= |fmt| && ReadDirective(fmt, start).conversion != 'p'
    modifies out, out.buf
    ensures out.Valid() && i == ReadDirective(fmt, start).next
    ensures (out.text, rest) == var r := Render(ReadDirective(fmt, start), args); (old(out.text) + r.0, r.1)
  {
    var flags, width, precision, qualifier;
    ghost var w, p;
    flags, i := SkipFlags(fmt, start);
    width, flags, i, rest, w := FieldWidth(fmt, i, flags, args);
    precision, i, rest, p := Precision(fmt, i, rest);
    qualifier, i := Qualifier(fmt, i);
    var c := CharAt(fmt, i);
    rest := out.PutConversion(c, qualifier, width, precision, flags, rest);
    if c != '\0' { i := i + 1; }
  }

  /** Lines 484-643: a character of the format or a directive. */
  method PutItem(out: Sink, fmt: string, start: nat, args: seq<Arg>) returns (i: nat, rest: seq<Arg>)
    requires out.Valid() && start < |fmt| && NoPointers(fmt, start)
    modifies out, out.buf
    ensures out.Valid() && i > start && NoPointers(fmt, i)
    ensures out.text + Output(fmt, i, rest) == old(out.text) + Output(fmt, start, args)
  {
    ghost var t := out.text;
    if fmt[start] != '%' {
      out.AddCh(fmt[start]);
      i, rest := start + 1, args;
      StringAssoc(t, [fmt[start]], Output(fmt, i, rest));
    } else {
      ghost var r := Render(ReadDirective(fmt, start + 1), args);
      i, rest := PutDirective(out, fmt, start + 1, args);
      StringAssoc(t, r.0, Output(fmt, i, rest));
    }
  }

  /** `vsnprintf_internal`, for formats without pointer conversions. */
  method Vsnprintf(buf: array<char>, size: nat, fmt: string, args: seq<Arg>) returns (len: nat)
    requires size <= buf.Length && NoPointers(fmt, 0)
    modifies buf
    ensures len == |Output(fmt, 0, args)|
    ensures size > 0 ==> Holds(buf[..], size, Output(fmt, 0, args))
    ensures buf[size..] == old(buf[size..])
  {
    var out := new Sink(buf, size);
    var i, rest := 0, args;
    ghost var all := Output(fmt, 0, args);
    while i < |fmt|
      invariant out.Valid() && fresh(out) && out.buf == buf && out.size == size && out.beyond == old(buf[size..])
      invariant out.text + Output(fmt, i, rest) == all && NoPointers(fmt, i)
      decreases |fmt| - i
    {
      i, rest := PutItem(out, fmt, i, rest);
    }
    assert out.text + "" == out.text;
    if size > 0 { out.Terminate(); }
    len := out.pos;
  }

  lemma StringAssoc(s: string, t: string, u: string)
    ensures s + (t + u) == (s + t) + u
  {
  }

  /** The buffer holds as much of `text` as fits in `size` with a terminator. */
  ghost predicate Holds(buf: seq<char>, size: nat, text: string)
    requires 0 < size <= |buf|
  {
    var n := Min(|text|, size - 1);
    buf[..n] == text[..n] && buf[n] == '\0'
  }

  /** `vscnprintf`: the number of characters before the terminator. */
  method Vscnprintf(buf: array<char>, size: nat, fmt: string, args: seq<Arg>) returns (len: nat)
    requires size <= buf.Length && NoPointers(fmt, 0)
    modifies buf
    ensures len == if size == 0 then 0 else Min(|Output(fmt, 0, args)|, size - 1)
    ensures size > 0 ==> buf[..len] == Output(fmt, 0, args)[..len] && buf[len] == '\0'
    ensures buf[size..] == old(buf[size..])
  {
    var i := Vsnprintf(buf, size, fmt, args);
    if i < size { return i; }
    if size != 0 { return size - 1; }
    return 0;
  }
}
