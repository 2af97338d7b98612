/**
 * What a format means, piece by piece and letter by letter: a format built
 * from characters and directives stands for the texts of its pieces, each
 * made from its own arguments.
 */
module PrintfLaws {
  import opened Words
  import opened Numerals
  import opened PrintfSpec
  import opened PrintfNumerals
  import opened PrintfForms

  // ----- rendering

  lemma TakeWord(w: u64, more: seq<Arg>)
    ensures FirstWord([Word(w)] + more) == w && Rest([Word(w)] + more) == more
  {
  }

  lemma SignedIsInt(w: u64)
    ensures Signed(w, 32) == IntOf(w)
  {
    Pow2Values();
  }

  lemma WidthTaken(p: Piece, f: Flags, more: seq<Arg>)
    requires p.Conversion? && f == WithFlags(NO_FLAGS, p.flags)
    ensures var r := WidthFrom(AmountOf(p.width), f, CountArgs(p.width) + more);
            && r.0 == (if p.width == NoCount then -1 else WidthOf(p)) && r.1 == f.(left := LeftOf(p)) && r.2 == more
  {
    if p.width.Star? {
      TakeWord(p.width.word, more);
      SignedIsInt(p.width.word);
    } else {
      assert CountArgs(p.width) + more == more;
    }
  }

  lemma PrecisionTaken(p: Piece, more: seq<Arg>)
    requires p.Conversion? && (!p.dot ==> p.precision == NoCount)
    ensures PrecisionFrom(p.dot, AmountOf(p.precision), CountArgs(p.precision) + more) == (PrecisionOf(p), more)
  {
    if p.precision.Star? {
      TakeWord(p.precision.word, more);
      SignedIsInt(p.precision.word);
    } else {
      assert CountArgs(p.precision) + more == more;
    }
  }

  lemma ConvertedIs(w: u64, qualifier: string, signed: bool)
    requires IsQualifier(qualifier)
    ensures var m := Modulus(qualifier);
            var u := w % m;
            Converted(w, QualifierChar(qualifier), signed) == if signed && u >= m / 2 then u - m + B64 else u
  {
    Pow2Values();
  }

  /** The flags of an integer conversion. */
  ghost function IntegerFlagsOf(p: Piece): Flags
    requires p.Conversion?
  {
    WithFlags(NO_FLAGS, p.flags).(left := LeftOf(p), small := p.letter == 'x',
                                  sign := p.letter == 'd' || p.letter == 'i')
  }

  lemma IntegerParts(p: Piece, num: u64)
    requires p.Conversion? && Wellformed(p) && TakesWord(p.letter) && p.letter != 'c'
    requires num == Converted(p.args[0].word, QualifierChar(p.qualifier), IntegerFlagsOf(p).sign)
    ensures Negative(num, IntegerFlagsOf(p)) == IsNegative(p) && Magnitude(num, IntegerFlagsOf(p)) == AbsoluteValue(p)
  {
    ConvertedIs(p.args[0].word, p.qualifier, IntegerFlagsOf(p).sign);
  }

  lemma IntegerHead(p: Piece, num: u64)
    requires p.Conversion? && Wellformed(p) && TakesWord(p.letter) && p.letter != 'c'
    requires Negative(num, IntegerFlagsOf(p)) == IsNegative(p)
    ensures SignText(num, IntegerFlagsOf(p)) == SignOf(p)
    ensures PrefixText(BaseOf(p.letter), IntegerFlagsOf(p)) == PrefixOf(p)
  {
  }

  lemma IntegerDigits(p: Piece, num: u64)
    requires p.Conversion? && Wellformed(p) && TakesWord(p.letter) && p.letter != 'c'
    requires Magnitude(num, IntegerFlagsOf(p)) == AbsoluteValue(p)
    ensures Numeral(Magnitude(num, IntegerFlagsOf(p)), BaseOf(p.letter), IntegerFlagsOf(p).small) == DigitsOf(p)
  {
  }

  lemma NumberIs(num: u64, base: nat, width: int, least: nat, precision: int, f: Flags, sign: string, prefix: string,
                 n: string)
    requires ValidBase(base) && (width == least || (width == -1 && least == 0))
    requires SignText(num, f) == sign && PrefixText(base, f) == prefix && Numeral(Magnitude(num, f), base, f.small) == n
    ensures NumberText(num, base, width, precision, f) ==
            Justified(sign + prefix, Repeat('0', precision - |n|) + n, least, f.zeropad, f.left)
  {
    FieldIs(sign, prefix, n, width, least, precision, f.zeropad, f.left);
  }

  lemma IntegerIs(p: Piece, num: u64, width: int)
    requires p.Conversion? && Wellformed(p) && TakesWord(p.letter) && p.letter != 'c'
    requires num == Converted(p.args[0].word, QualifierChar(p.qualifier), IntegerFlagsOf(p).sign)
    requires width == if p.width == NoCount then -1 else WidthOf(p)
    ensures NumberText(num, BaseOf(p.letter), width, PrecisionOf(p), IntegerFlagsOf(p)) == IntegerText(p)
  {
    IntegerParts(p, num);
    IntegerHead(p, num);
    IntegerDigits(p, num);
    NumberIs(num, BaseOf(p.letter), width, WidthOf(p), PrecisionOf(p), IntegerFlagsOf(p), SignOf(p), PrefixOf(p),
             DigitsOf(p));
  }

  lemma FieldIs(sign: string, prefix: string, n: string, width: int, least: nat, precision: int, zeros: bool,
                left: bool)
    requires n != "" && (width == least || (width == -1 && least == 0))
    ensures FieldText(sign, prefix, n, width, precision, zeros, left) ==
            Justified(sign + prefix, Repeat('0', precision - |n|) + n, least, zeros, left)
  {
    var head, body := sign + prefix, Repeat('0', precision - |n|) + n;
    assert Repeat(' ', width - |head| - |body|) == Repeat(' ', least - |head| - |body|);
    assert Repeat('0', width - |head| - |body|) == Repeat('0', least - |head| - |body|);
  }

  lemma StringIs(s: string, width: int, least: nat, precision: int, f: Flags)
    requires width == least || (width == -1 && least == 0)
    ensures StringText(s, width, precision, f) == Justified("", Shortened(s, precision), least, false, f.left)
  {
    var cut := Shortened(s, precision);
    assert Repeat(' ', width - |cut|) == Repeat(' ', least - |cut|);
    assert "" + cut == cut && Repeat(' ', least - |cut|) + "" + cut == Repeat(' ', least - |cut|) + cut;
  }

  lemma TakeOne(a: Arg, more: seq<Arg>)
    ensures ([a] + more)[0] == a && Rest([a] + more) == more
  {
  }

  lemma ConvertAny(letter: char, qualifier: char, width: int, precision: int, f: Flags, w: u64, more: seq<Arg>)
    requires TakesWord(letter) && letter != 'c'
    ensures var g := IntegerFlags(f, letter);
            Convert(letter, qualifier, width, precision, f, [Word(w)] + more) ==
            (NumberText(Converted(w, qualifier, g.sign), BaseOf(letter), width, precision, g), more)
  {
    TakeWord(w, more);
  }

  lemma ConvertInteger(p: Piece, width: int, f: Flags, more: seq<Arg>)
    requires p.Conversion? && Wellformed(p) && TakesWord(p.letter) && p.letter != 'c'
    requires width == if p.width == NoCount then -1 else WidthOf(p)
    requires f == WithFlags(NO_FLAGS, p.flags).(left := LeftOf(p))
    ensures Convert(p.letter, QualifierChar(p.qualifier), width, PrecisionOf(p), f, p.args + more) ==
            (IntegerText(p), more)
  {
    var w := p.args[0].word;
    assert p.args + more == [Word(w)] + more;
    ConvertAny(p.letter, QualifierChar(p.qualifier), width, PrecisionOf(p), f, w, more);
    assert IntegerFlags(f, p.letter) == IntegerFlagsOf(p);
    IntegerIs(p, Converted(w, QualifierChar(p.qualifier), IntegerFlagsOf(p).sign), width);
  }

  lemma ConvertString(p: Piece, width: int, f: Flags, more: seq<Arg>)
    requires p.Conversion? && Wellformed(p) && (p.letter == 'c' || p.letter == 's')
    requires width == if p.width == NoCount then -1 else WidthOf(p)
    requires f.left == LeftOf(p)
    ensures Convert(p.letter, QualifierChar(p.qualifier), width, PrecisionOf(p), f, p.args + more) ==
            (PieceText(p), more)
  {
    TakeOne(p.args[0], more);
    assert p.args + more == [p.args[0]] + more;
    if p.letter == 'c' {
      StringIs([(p.args[0].word % 256) as char], width, WidthOf(p), -1, f);
    } else {
      StringIs(if p.args[0].Text? then p.args[0].text else "<NULL>", width, WidthOf(p), PrecisionOf(p), f);
    }
  }

  lemma ConvertOther(p: Piece, width: int, f: Flags, more: seq<Arg>)
    requires p.Conversion? && Wellformed(p) && !TakesWord(p.letter) && p.letter != 's'
    ensures Convert(p.letter, QualifierChar(p.qualifier), width, PrecisionOf(p), f, p.args + more) ==
            (PieceText(p), more)
  {
    if p.letter == 'n' {
      TakeOne(p.args[0], more);
      assert p.args + more == [p.args[0]] + more;
    } else {
      assert p.args + more == more;
    }
  }

  lemma ConvertPiece(p: Piece, width: int, f: Flags, more: seq<Arg>)
    requires p.Conversion? && Wellformed(p)
    requires width == if p.width == NoCount then -1 else WidthOf(p)
    requires f == WithFlags(NO_FLAGS, p.flags).(left := LeftOf(p))
    ensures Convert(p.letter, QualifierChar(p.qualifier), width, PrecisionOf(p), f, p.args + more) ==
            (PieceText(p), more)
  {
    if p.letter == 'c' || p.letter == 's' {
      ConvertString(p, width, f, more);
    } else if TakesWord(p.letter) {
      ConvertInteger(p, width, f, more);
    } else {
      ConvertOther(p, width, f, more);
    }
  }

  lemma RenderParts(d: Directive, args: seq<Arg>, w: (int, Flags, seq<Arg>), p: (int, seq<Arg>), r: (string, seq<Arg>))
    requires WidthFrom(d.width, d.flags, args) == w && PrecisionFrom(d.dotted, d.precision, w.2) == p
    requires Convert(d.conversion, d.qualifier, w.0, p.0, w.1, p.1) == r
    ensures Render(d, args) == r
  {
  }

  lemma Rendered(p: Piece, next: nat, more: seq<Arg>)
    requires p.Conversion? && Wellformed(p)
    ensures Render(Parsed(p, next), PieceArgs(p) + more) == (PieceText(p), more)
  {
    var rest := CountArgs(p.precision) + (p.args + more);
    assert PieceArgs(p) + more == CountArgs(p.width) + rest;
    var f := WithFlags(NO_FLAGS, p.flags);
    var width := if p.width == NoCount then -1 else WidthOf(p);
    WidthTaken(p, f, rest);
    PrecisionTaken(p, p.args + more);
    ConvertPiece(p, width, f.(left := LeftOf(p)), more);
    RenderParts(Parsed(p, next), PieceArgs(p) + more, (width, f.(left := LeftOf(p)), rest),
                (PrecisionOf(p), p.args + more), (PieceText(p), more));
  }

  // ----- whole formats

  /** One step of `out` at `i`: a character of the format, or a directive. */
  ghost predicate StepAt(fmt: string, out: (nat, seq<Arg>) -> string, i: nat, args: seq<Arg>)
    requires i < |fmt|
  {
    if fmt[i] != '%' then out(i, args) == [fmt[i]] + out(i + 1, args)
    else
      var d := ReadDirective(fmt, i + 1);
      var r := Render(d, args);
      out(i, args) == r.0 + out(d.next, r.1)
  }

  ghost predicate Stepwise(fmt: string, out: (nat, seq<Arg>) -> string) {
    forall i: nat, args: seq<Arg> :: i < |fmt| ==> StepAt(fmt, out, i, args)
  }

  lemma OutputSteps(fmt: string)
    ensures Stepwise(fmt, (i: nat, args: seq<Arg>) => Output(fmt, i, args))
  {
  }

  lemma PercentFirst(fmt: string, i: nat, p: Piece)
    requires At(fmt, i, Spelled(p)) && Wellformed(p)
    ensures i < |fmt| && (fmt[i] == '%' <==> p.Conversion?) && (p.Verbatim? ==> fmt[i] == p.c)
  {
    AtFirst(fmt, i, Spelled(p));
  }

  /** What is written behind a directive follows its text. */
  lemma Splice(fmt: string, i: nat, p: Piece, more: seq<Arg>, whole: string, tail: (nat, seq<Arg>) -> string)
    requires p.Conversion? && Wellformed(p) && At(fmt, i, Spelled(p))
    requires var d := ReadDirective(fmt, i + 1);
             var r := Render(d, PieceArgs(p) + more);
             whole == r.0 + tail(d.next, r.1)
    ensures whole == Meaning(p) + tail(i + |Spelled(p)|, more)
  {
    DirectiveRead(fmt, i, p);
    Rendered(p, i + |Spelled(p)|, more);
  }

  /** A piece turns its arguments into its text and leaves the others to the rest of the format. */
  lemma PieceOutput(fmt: string, out: (nat, seq<Arg>) -> string, i: nat, p: Piece, more: seq<Arg>)
    requires Wellformed(p) && At(fmt, i, Spelled(p)) && Stepwise(fmt, out)
    ensures out(i, PieceArgs(p) + more) == Meaning(p) + out(i + |Spelled(p)|, more)
  {
    PercentFirst(fmt, i, p);
    assert StepAt(fmt, out, i, PieceArgs(p) + more);
    if p.Verbatim? {
      assert PieceArgs(p) + more == more;
    } else {
      Splice(fmt, i, p, more, out(i, PieceArgs(p) + more), out);
    }
  }

  /** What a piece stands for; nothing is said of other pieces. */
  ghost function Meaning(p: Piece): string {
    if Wellformed(p) then PieceText(p) else ""
  }

  ghost function Concat<T, U>(f: T -> seq<U>, ts: seq<T>): seq<U> {
    if ts == [] then [] else f(ts[0]) + Concat(f, ts[1..])
  }

  /** For a piece, `out` uses up its arguments, and goes on behind it with the others. */
  ghost predicate Piecewise<T>(fmt: string, out: (nat, seq<Arg>) -> string, spelled: T -> string, args: T -> seq<Arg>,
                               text: T -> string, t: T)
  {
    forall i: nat, more: seq<Arg> :: At(fmt, i, spelled(t)) ==>
      out(i, args(t) + more) == text(t) + out(i + |spelled(t)|, more)
  }

  lemma {:induction false} Fold<T>(fmt: string, out: (nat, seq<Arg>) -> string, spelled: T -> string,
                                   args: T -> seq<Arg>, text: T -> string, i: nat, ts: seq<T>, more: seq<Arg>)
    requires forall k :: 0 <= k < |ts| ==> Piecewise(fmt, out, spelled, args, text, ts[k])
    requires At(fmt, i, Concat(spelled, ts))
    ensures out(i, Concat(args, ts) + more) == Concat(text, ts) + out(i + |Concat(spelled, ts)|, more)
    decreases |ts|
  {
    if ts == [] {
      assert [] + more == more;
      assert "" + out(i, more) == out(i, more);
    } else {
      var t, rest := ts[0], ts[1..];
      AtSplit(fmt, i, spelled(t), Concat(spelled, rest));
      Fold(fmt, out, spelled, args, text, i + |spelled(t)|, rest, more);
      assert Piecewise(fmt, out, spelled, args, text, t);
      Joins(args(t), Concat(args, rest), more);
      Joins(text(t), Concat(text, rest), out(i + |Concat(spelled, ts)|, more));
    }
  }

  lemma Joins<T>(a: seq<T>, b: seq<T>, c: seq<T>)
    ensures (a + b) + c == a + (b + c)
  {
  }

  lemma PiecewiseWhen(fmt: string, out: (nat, seq<Arg>) -> string, p: Piece)
    requires Wellformed(p) && Stepwise(fmt, out)
    ensures Piecewise(fmt, out, Spelled, PieceArgs, Meaning, p)
  {
    forall i: nat, more: seq<Arg> | At(fmt, i, Spelled(p))
      ensures out(i, PieceArgs(p) + more) == Meaning(p) + out(i + |Spelled(p)|, more)
    {
      PieceOutput(fmt, out, i, p, more);
    }
  }

  /** A format stands for the texts of its pieces, in order, each made from its own arguments. */
  lemma FormatOutput(ps: seq<Piece>, more: seq<Arg>)
    requires forall k :: 0 <= k < |ps| ==> Wellformed(ps[k])
    ensures Output(Concat(Spelled, ps), 0, Concat(PieceArgs, ps) + more) == Concat(Meaning, ps)
  {
    var fmt := Concat(Spelled, ps);
    var out := (i: nat, args: seq<Arg>) => Output(fmt, i, args);
    assert fmt[0..|fmt|] == fmt;
    OutputSteps(fmt);
    forall k | 0 <= k < |ps| ensures Piecewise(fmt, out, Spelled, PieceArgs, Meaning, ps[k]) {
      PiecewiseWhen(fmt, out, ps[k]);
    }
    Fold(fmt, out, Spelled, PieceArgs, Meaning, 0, ps, more);
    assert Concat(Meaning, ps) + "" == Concat(Meaning, ps);
  }

  // ----- plain directives

  /** A directive of a qualifier and a letter. */
  function Bare(qualifier: string, letter: char, args: seq<Arg>): Piece {
    Conversion("", NoCount, false, NoCount, qualifier, letter, args)
  }

  lemma BareOutput(fmt: string, qualifier: string, letter: char, args: seq<Arg>, more: seq<Arg>)
    requires IsQualifier(qualifier) && IsLetter(letter) && Fitting(letter, args) && fmt == "%" + qualifier + [letter]
    ensures Output(fmt, 0, args + more) == Meaning(Bare(qualifier, letter, args))
  {
    var p := Bare(qualifier, letter, args);
    assert Spelled(p) == fmt && PieceArgs(p) == args && fmt[0..|fmt|] == fmt;
    OutputSteps(fmt);
    PieceOutput(fmt, (i: nat, a: seq<Arg>) => Output(fmt, i, a), 0, p, more);
    assert Meaning(p) + "" == Meaning(p);
  }

  lemma BareInteger(qualifier: string, letter: char, w: u64)
    requires IsQualifier(qualifier) && IsLetter(letter) && TakesWord(letter) && letter != 'c'
    ensures var p := Bare(qualifier, letter, [Word(w)]);
            PieceText(p) == (if IsNegative(p) then "-" else "") + DigitsOf(p)
  {
    var p := Bare(qualifier, letter, [Word(w)]);
    var n := DigitsOf(p);
    assert Repeat('0', -1 - |n|) + n == n;
    assert Repeat(' ', 0 - |SignOf(p) + ""| - |n|) + (SignOf(p) + "") + n == SignOf(p) + n;
  }

  /** `n` is the numeral of the number in base 8, 16 or 10. */
  ghost predicate Written(letter: char, n: string, v: nat) {
    if letter == 'o' then IsNumeral(n, v, 8, "0123456789ABCDEF")
    else if letter == 'x' then IsNumeral(n, v, 16, "0123456789abcdef")
    else if letter == 'X' then IsNumeral(n, v, 16, "0123456789ABCDEF")
    else IsNumeral(n, v, 10, "0123456789ABCDEF")
  }

  lemma DigitsWritten(p: Piece)
    requires p.Conversion? && Wellformed(p) && TakesWord(p.letter) && p.letter != 'c'
    ensures Written(p.letter, DigitsOf(p), AbsoluteValue(p))
  {
    NumeralIs(AbsoluteValue(p), if p.letter == 'o' then 8 else if p.letter == 'x' || p.letter == 'X' then 16 else 10,
              p.letter == 'x');
  }

  /**
   * `out` is the numeral of the low 16, 32 or 64 bits of the argument, in base
   * 8 for `o`, 16 for `x` and `X` and 10 for `u`, and for `d` and `i` that of
   * their two's complement value, with a minus if it is negative.
   */
  ghost predicate ShowsInteger(qualifier: string, letter: char, w: u64, out: string) {
    var m := if qualifier == "h" then 0x1_0000 else if qualifier == "" then 0x1_0000_0000 else 0x1_0000_0000_0000_0000;
    var u := w % m;
    if (letter == 'd' || letter == 'i') && u >= m / 2
    then out != "" && out[0] == '-' && Written(letter, out[1..], m - u)
    else Written(letter, out, u)
  }

  lemma ShowsWhen(qualifier: string, letter: char, w: u64, out: string, negative: bool, n: string)
    requires negative == ((letter == 'd' || letter == 'i') && w % Modulus(qualifier) >= Modulus(qualifier) / 2)
    requires out == (if negative then "-" else "") + n
    requires var u := w % Modulus(qualifier); Written(letter, n, if negative then Modulus(qualifier) - u else u)
    ensures ShowsInteger(qualifier, letter, w, out)
  {
    if negative { assert out[1..] == n; } else { assert out == n; }
  }

  lemma PlainMeaning(qualifier: string, letter: char, w: u64)
    requires IsQualifier(qualifier) && IsLetter(letter) && TakesWord(letter) && letter != 'c'
    ensures ShowsInteger(qualifier, letter, w, Meaning(Bare(qualifier, letter, [Word(w)])))
  {
    var p := Bare(qualifier, letter, [Word(w)]);
    BareInteger(qualifier, letter, w);
    DigitsWritten(p);
    ShowsWhen(qualifier, letter, w, Meaning(p), IsNegative(p), DigitsOf(p));
  }

  /** Without flags, width and precision an integer is its numeral. */
  lemma PlainInteger(qualifier: string, letter: char, w: u64, more: seq<Arg>)
    requires IsQualifier(qualifier) && IsLetter(letter) && TakesWord(letter) && letter != 'c'
    ensures ShowsInteger(qualifier, letter, w, Output("%" + qualifier + [letter], 0, [Word(w)] + more))
  {
    BareOutput("%" + qualifier + [letter], qualifier, letter, [Word(w)], more);
    PlainMeaning(qualifier, letter, w);
  }

  lemma TwoPieces<T>(fmt: string, out: (nat, seq<Arg>) -> string, spelled: T -> string, args: T -> seq<Arg>,
                     text: T -> string, s: T, t: T, more: seq<Arg>)
    requires Piecewise(fmt, out, spelled, args, text, s) && Piecewise(fmt, out, spelled, args, text, t)
    requires fmt == spelled(s) + spelled(t)
    ensures out(0, (args(s) + args(t)) + more) == text(s) + (text(t) + out(|fmt|, more))
  {
    assert fmt[0..|fmt|] == fmt;
    AtSplit(fmt, 0, spelled(s), spelled(t));
    Joins(args(s), args(t), more);
  }

  lemma TwoOutput(p: Piece, q: Piece, more: seq<Arg>)
    requires Wellformed(p) && Wellformed(q)
    ensures Output(Spelled(p) + Spelled(q), 0, (PieceArgs(p) + PieceArgs(q)) + more) == Meaning(p) + Meaning(q)
  {
    var fmt := Spelled(p) + Spelled(q);
    var out := (i: nat, args: seq<Arg>) => Output(fmt, i, args);
    OutputSteps(fmt);
    PiecewiseWhen(fmt, out, p);
    PiecewiseWhen(fmt, out, q);
    TwoPieces(fmt, out, Spelled, PieceArgs, Meaning, p, q, more);
    assert Meaning(p) + (Meaning(q) + "") == Meaning(p) + Meaning(q);
  }

  lemma TwoSpelled(a: char, b: char, v: u64, w: u64)
    ensures var p, q := Bare("", a, [Word(v)]), Bare("", b, [Word(w)]);
            Spelled(p) + Spelled(q) == ['%', a, '%', b] && PieceArgs(p) + PieceArgs(q) == [Word(v), Word(w)]
  {
  }

  /** Two directives show the first argument and then the second. */
  lemma TwoIntegers(a: char, b: char, v: u64, w: u64, more: seq<Arg>)
    requires IsLetter(a) && TakesWord(a) && IsLetter(b) && TakesWord(b)
    ensures Output(['%', a, '%', b], 0, [Word(v), Word(w)] + more) ==
            Meaning(Bare("", a, [Word(v)])) + Meaning(Bare("", b, [Word(w)]))
  {
    TwoSpelled(a, b, v, w);
    TwoOutput(Bare("", a, [Word(v)]), Bare("", b, [Word(w)]), more);
  }

  /** A percent sign with nothing but flags behind it stands for itself. */
  lemma LonePercent(fmt: string, i: nat, args: seq<Arg>)
    requires i < |fmt| && fmt[i] == '%' && AllFlags(fmt[i + 1..])
    ensures Output(fmt, i, args) == "%"
  {
    FlagsRead(fmt, i + 1, fmt[i + 1..], NO_FLAGS);
    var d := Directive(WithFlags(NO_FLAGS, fmt[i + 1..]), Absent, false, Absent, '\0', '\0', |fmt|);
    assert ReadDirective(fmt, i + 1) == d;
    assert "%" + "" == "%";
  }
}
