/** The pieces of a format, what each stands for, and how a directive is taken apart. */
module PrintfForms {
  import opened Words
  import opened Numerals
  import opened PrintfSpec
  import Strto

  /** A width or a precision: none, in digits, or taken from an argument. */
  datatype Count = NoCount | Number(digits: string) | Star(word: u64)

  /** A piece of a format, with the arguments it takes behind those of its counts. */
  datatype Piece =
    | Verbatim(c: char)
    | Conversion(flags: string, width: Count, dot: bool, precision: Count, qualifier: string, letter: char,
                 args: seq<Arg>)

  function CountText(c: Count): string {
    match c
    case NoCount => ""
    case Number(digits) => digits
    case Star(_) => "*"
  }

  function Ending(p: Piece): string
    requires p.Conversion?
  {
    p.qualifier + [p.letter]
  }

  function PrecisionPart(p: Piece): string
    requires p.Conversion?
  {
    if p.dot then "." + CountText(p.precision) else ""
  }

  /** How a piece is written in a format. */
  function Spelled(p: Piece): string {
    match p
    case Verbatim(c) => [c]
    case Conversion(flags, width, _, _, _, _, _) =>
      "%" + (flags + (CountText(width) + (PrecisionPart(p) + Ending(p))))
  }

  predicate Decimals(s: string) {
    s != "" && forall k :: 0 <= k < |s| ==> '0' <= s[k] <= '9'
  }

  predicate TakesWord(letter: char) {
    letter == 'o' || letter == 'x' || letter == 'X' || letter == 'd' || letter == 'i' || letter == 'u' || letter == 'c'
  }

  /** The arguments a letter takes. */
  predicate Fitting(letter: char, args: seq<Arg>) {
    if TakesWord(letter) then |args| == 1 && args[0].Word?
    else if letter == 's' then |args| == 1 && !args[0].Word?
    else if letter == 'n' then |args| == 1
    else args == []
  }

  /** A letter that stands at the end of a directive and is not a pointer conversion. */
  predicate IsLetter(c: char) {
    && !('0' <= c <= '9') && c != '-' && c != '+' && c != ' ' && c != '#' && c != '.' && c != '*'
    && c != '\0' && c != 'p'
    && c != 'h' && c != 'l' && c != 'L' && c != 'Z' && c != 'z' && c != 't'
  }

  predicate AllFlags(s: string) {
    forall k :: 0 <= k < |s| ==> s[k] == '-' || s[k] == '+' || s[k] == ' ' || s[k] == '#' || s[k] == '0'
  }

  predicate IsQualifier(q: string) {
    || q == ""
    || (|q| == 1 && (q[0] == 'h' || q[0] == 'l' || q[0] == 'L' || q[0] == 'Z' || q[0] == 'z' || q[0] == 't'))
    || q == "ll"
  }

  predicate Wellformed(p: Piece) {
    match p
    case Verbatim(c) => c != '%'
    case Conversion(flags, width, dot, precision, qualifier, letter, args) =>
      && AllFlags(flags)
      && (width.Number? ==> Decimals(width.digits) && width.digits[0] != '0')
      && (precision.Number? ==> Decimals(precision.digits))
      && (!dot ==> precision == NoCount)
      && IsQualifier(qualifier)
      && IsLetter(letter) && Fitting(letter, args)
  }

  function CountArgs(c: Count): seq<Arg> {
    if c.Star? then [Word(c.word)] else []
  }

  /** The arguments of a piece, in order. */
  function PieceArgs(p: Piece): seq<Arg> {
    match p
    case Verbatim(_) => []
    case Conversion(_, width, _, precision, _, _, args) => CountArgs(width) + (CountArgs(precision) + args)
  }

  // ----- what a piece stands for

  /** An int argument. */
  function IntOf(w: u64): int {
    var u := w % 0x1_0000_0000;
    if u < 0x8000_0000 then u else u - 0x1_0000_0000
  }

  ghost function CountValue(c: Count): int
    requires !c.NoCount?
  {
    match c
    case Number(digits) => Worth(digits, 10)
    case Star(word) => IntOf(word)
  }

  ghost function WidthOf(p: Piece): nat
    requires p.Conversion?
  {
    if p.width == NoCount then 0 else if CountValue(p.width) < 0 then -CountValue(p.width) else CountValue(p.width)
  }

  ghost predicate LeftOf(p: Piece)
    requires p.Conversion?
  {
    '-' in p.flags || (p.width != NoCount && CountValue(p.width) < 0)
  }

  /** -1 without a dot. */
  ghost function PrecisionOf(p: Piece): int
    requires p.Conversion?
  {
    if !p.dot then -1
    else if p.precision == NoCount || CountValue(p.precision) < 0 then 0
    else CountValue(p.precision)
  }

  function Modulus(qualifier: string): nat {
    if qualifier == "h" then 0x1_0000 else if qualifier == "" then 0x1_0000_0000 else 0x1_0000_0000_0000_0000
  }

  ghost predicate IsNegative(p: Piece)
    requires p.Conversion? && TakesWord(p.letter) && Fitting(p.letter, p.args)
  {
    (p.letter == 'd' || p.letter == 'i') && p.args[0].word % Modulus(p.qualifier) >= Modulus(p.qualifier) / 2
  }

  /** The absolute value of an integer argument as wide as its qualifier says. */
  ghost function AbsoluteValue(p: Piece): u64
    requires p.Conversion? && TakesWord(p.letter) && Fitting(p.letter, p.args)
  {
    var u := p.args[0].word % Modulus(p.qualifier);
    if IsNegative(p) then Modulus(p.qualifier) - u else u
  }

  ghost function SignOf(p: Piece): string
    requires p.Conversion? && TakesWord(p.letter) && Fitting(p.letter, p.args)
  {
    if IsNegative(p) then "-"
    else if p.letter != 'd' && p.letter != 'i' then ""
    else if '+' in p.flags then "+"
    else if ' ' in p.flags then " "
    else ""
  }

  function PrefixOf(p: Piece): string
    requires p.Conversion?
  {
    if '#' !in p.flags then ""
    else if p.letter == 'o' then "0"
    else if p.letter == 'x' then "0x"
    else if p.letter == 'X' then "0X"
    else ""
  }

  ghost function DigitsOf(p: Piece): string
    requires p.Conversion? && TakesWord(p.letter) && Fitting(p.letter, p.args)
  {
    if p.letter == 'o' then Numeral(AbsoluteValue(p), 8, false)
    else if p.letter == 'x' then Numeral(AbsoluteValue(p), 16, true)
    else if p.letter == 'X' then Numeral(AbsoluteValue(p), 16, false)
    else Numeral(AbsoluteValue(p), 10, false)
  }

  /** `text` behind or before spaces, or zeros between its head and the rest, up to the width. */
  function Justified(head: string, text: string, width: nat, zeros: bool, left: bool): string {
    var room := width - |head| - |text|;
    if left then head + text + Repeat(' ', room)
    else if zeros then head + Repeat('0', room) + text
    else Repeat(' ', room) + head + text
  }

  ghost function IntegerText(p: Piece): string
    requires p.Conversion? && TakesWord(p.letter) && Fitting(p.letter, p.args)
  {
    Justified(SignOf(p) + PrefixOf(p), Repeat('0', PrecisionOf(p) - |DigitsOf(p)|) + DigitsOf(p), WidthOf(p),
              '0' in p.flags, LeftOf(p))
  }

  function Shortened(s: string, precision: int): string {
    if 0 <= precision < |s| then s[..precision] else s
  }

  ghost function PieceText(p: Piece): string
    requires Wellformed(p)
  {
    match p
    case Verbatim(c) => [c]
    case Conversion(flags, width, dot, precision, qualifier, letter, args) =>
      if letter == '%' then "%"
      else if letter == 'n' then ""
      else if letter == 'c' then Justified("", [(args[0].word % 256) as char], WidthOf(p), false, LeftOf(p))
      else if letter == 's' then
        var s := if args[0].Text? then args[0].text else "<NULL>";
        Justified("", Shortened(s, PrecisionOf(p)), WidthOf(p), false, LeftOf(p))
      else if TakesWord(letter) then IntegerText(p)
      else "%" + [letter]
  }

  // ----- reading a directive

  /** `x` is written in the format at `i`. */
  predicate At(fmt: string, i: nat, x: string) {
    i + |x| <= |fmt| && fmt[i..i + |x|] == x
  }

  lemma AtSplit(fmt: string, i: nat, x: string, y: string)
    requires At(fmt, i, x + y)
    ensures At(fmt, i, x) && At(fmt, i + |x|, y)
  {
    var xy := fmt[i..i + |x + y|];
    assert fmt[i..i + |x|] == xy[..|x|] && fmt[i + |x|..i + |x| + |y|] == xy[|x|..];
  }

  lemma AtFirst(fmt: string, i: nat, x: string)
    requires At(fmt, i, x) && x != ""
    ensures CharAt(fmt, i) == x[0]
  {
    assert fmt[i..i + |x|][0] == x[0];
  }

  lemma AtRest(fmt: string, i: nat, x: string)
    requires At(fmt, i, x) && x != ""
    ensures At(fmt, i + 1, x[1..])
  {
    assert fmt[i + 1..i + |x|] == fmt[i..i + |x|][1..];
  }

  /** The flags with those of a text added. */
  function WithFlags(f: Flags, s: string): Flags {
    f.(zeropad := f.zeropad || '0' in s, plus := f.plus || '+' in s, space := f.space || ' ' in s,
       left := f.left || '-' in s, special := f.special || '#' in s)
  }

  lemma WithOneFlag(f: Flags, s: string)
    requires s != "" && AllFlags(s)
    ensures IsFlag(s[0]) && WithFlags(AddFlag(f, s[0]), s[1..]) == WithFlags(f, s)
  {
    assert forall c :: c in s <==> c == s[0] || c in s[1..];
  }

  /** Any flags, in any order and number. */
  lemma {:induction false} FlagsRead(fmt: string, i: nat, s: string, f: Flags)
    requires At(fmt, i, s) && AllFlags(s) && !IsFlag(CharAt(fmt, i + |s|))
    ensures ReadFlags(fmt, i, f) == (WithFlags(f, s), i + |s|)
    decreases |s|
  {
    if s != "" {
      AtFirst(fmt, i, s);
      AtRest(fmt, i, s);
      WithOneFlag(f, s);
      FlagsRead(fmt, i + 1, s[1..], AddFlag(f, s[0]));
    }
  }

  lemma DecimalsAreDigits(s: string)
    requires Decimals(s)
    ensures AllDigits(s, 10)
  {
  }

  ghost function AmountOf(c: Count): Amount {
    match c
    case NoCount => Absent
    case Number(digits) => Given(Worth(digits, 10))
    case Star(_) => FromArgument
  }

  lemma CountRead(fmt: string, i: nat, c: Count)
    requires At(fmt, i, CountText(c)) && (c.Number? ==> Decimals(c.digits))
    requires var next := CharAt(fmt, i + |CountText(c)|); !IsDigit(next) && next != '*'
    ensures ReadAmount(fmt, i) == (AmountOf(c), i + |CountText(c)|)
  {
    var s := CountText(c);
    if c.Number? {
      AtFirst(fmt, i, s);
      DecimalsAreDigits(s);
      ReadNumberIs(fmt, i);
      Strto.RunIs(fmt, i, ReadNumber(fmt, i, 0).1, 10, i + |s|);
    } else if c.Star? {
      AtFirst(fmt, i, s);
    }
  }

  function QualifierChar(q: string): char {
    if q == "" then '\0' else if q == "ll" then 'L' else q[0]
  }

  lemma QualifierRead(fmt: string, i: nat, q: string, c: char)
    requires At(fmt, i, q + [c]) && IsLetter(c) && IsQualifier(q)
    ensures ReadQualifier(fmt, i) == (QualifierChar(q), i + |q|) && CharAt(fmt, i + |q|) == c
  {
    AtSplit(fmt, i, q, [c]);
    AtFirst(fmt, i + |q|, [c]);
    if q != "" { AtFirst(fmt, i, q); }
    if |q| == 2 {
      AtRest(fmt, i, q);
      AtFirst(fmt, i + 1, q[1..]);
    }
  }

  /** A character that ends the flags and the counts before it. */
  predicate Stops(c: char) {
    !IsFlag(c) && !IsDigit(c) && c != '*'
  }

  lemma EndingStops(p: Piece)
    requires p.Conversion? && Wellformed(p)
    ensures Stops(Ending(p)[0]) && Ending(p)[0] != '.'
  {
  }

  lemma PrecisionStops(p: Piece)
    requires p.Conversion? && Wellformed(p)
    ensures var s := PrecisionPart(p) + Ending(p); |s| > 0 && Stops(s[0]) && (s[0] == '.' <==> p.dot)
  {
    EndingStops(p);
  }

  predicate GoodCount(c: Count) {
    c.Number? ==> Decimals(c.digits)
  }

  lemma DotRead(fmt: string, i: nat, c: Count)
    requires At(fmt, i, "." + CountText(c)) && GoodCount(c)
    requires var next := CharAt(fmt, i + 1 + |CountText(c)|); !IsDigit(next) && next != '*'
    ensures CharAt(fmt, i) == '.' && ReadAmount(fmt, i + 1) == (AmountOf(c), i + 1 + |CountText(c)|)
  {
    AtFirst(fmt, i, "." + CountText(c));
    AtSplit(fmt, i, ".", CountText(c));
    CountRead(fmt, i + 1, c);
  }

  lemma PrecisionRead(fmt: string, i: nat, dot: bool, c: Count, part: string, rest: string)
    requires part == (if dot then "." + CountText(c) else "") && GoodCount(c) && (!dot ==> c == NoCount)
    requires rest != "" && Stops(rest[0]) && rest[0] != '.' && At(fmt, i, part + rest)
    ensures CharAt(fmt, i) == '.' <==> dot
    ensures (if dot then ReadAmount(fmt, i + 1) else (Absent, i)) == (AmountOf(c), i + |part|)
    ensures At(fmt, i + |part|, rest)
  {
    if dot {
      AtSplit(fmt, i, part, rest);
      AtFirst(fmt, i + |part|, rest);
      DotRead(fmt, i, c);
    } else {
      assert part + rest == rest;
      AtFirst(fmt, i, rest);
    }
  }

  lemma WidthRead(fmt: string, i: nat, c: Count, rest: string)
    requires GoodCount(c) && (c.Number? ==> c.digits[0] != '0')
    requires rest != "" && Stops(rest[0]) && At(fmt, i, CountText(c) + rest)
    ensures !IsFlag(CharAt(fmt, i)) && ReadAmount(fmt, i) == (AmountOf(c), i + |CountText(c)|)
    ensures At(fmt, i + |CountText(c)|, rest)
  {
    AtSplit(fmt, i, CountText(c), rest);
    AtFirst(fmt, i + |CountText(c)|, rest);
    if c != NoCount { AtFirst(fmt, i, CountText(c)); }
    CountRead(fmt, i, c);
  }

  /** A directive is taken apart as it was written. */
  ghost function Parsed(p: Piece, next: nat): Directive
    requires p.Conversion?
  {
    Directive(WithFlags(NO_FLAGS, p.flags), AmountOf(p.width), p.dot, AmountOf(p.precision), QualifierChar(p.qualifier),
              p.letter, next)
  }

  lemma Assemble(fmt: string, i: nat, f: (Flags, nat), w: (Amount, nat), dot: bool, p: (Amount, nat), q: (char, nat),
                 c: char)
    requires i <= |fmt| && c != '\0'
    requires ReadFlags(fmt, i, NO_FLAGS) == f && ReadAmount(fmt, f.1) == w && (CharAt(fmt, w.1) == '.') == dot
    requires (if dot then ReadAmount(fmt, w.1 + 1) else (Absent, w.1)) == p
    requires ReadQualifier(fmt, p.1) == q && CharAt(fmt, q.1) == c
    ensures ReadDirective(fmt, i) == Directive(f.0, w.0, dot, p.0, q.0, c, q.1 + 1)
  {
  }

  lemma ThreeParts(fmt: string, i: nat, a: string, b: string, c: string)
    requires At(fmt, i, a + (b + c))
    ensures At(fmt, i, a) && At(fmt, i + |a|, b) && At(fmt, i + |a| + |b|, c)
  {
    AtSplit(fmt, i, a, b + c);
    AtSplit(fmt, i + |a|, b, c);
  }

  lemma FlagsAt(fmt: string, i: nat, p: Piece)
    requires p.Conversion? && At(fmt, i, Spelled(p))
    ensures At(fmt, i, "%") && At(fmt, i + 1, p.flags)
    ensures At(fmt, i + 1 + |p.flags|, CountText(p.width) + (PrecisionPart(p) + Ending(p)))
  {
    ThreeParts(fmt, i, "%", p.flags, CountText(p.width) + (PrecisionPart(p) + Ending(p)));
  }

  /** The flags and the width of the directive at `i`, up to the positions where they end. */
  ghost predicate FrontRead(fmt: string, i: nat, p: Piece, j: nat, k: nat)
    requires p.Conversion?
  {
    ReadFlags(fmt, i, NO_FLAGS) == (WithFlags(NO_FLAGS, p.flags), j) && ReadAmount(fmt, j) == (AmountOf(p.width), k)
  }

  lemma ReadFront(fmt: string, i: nat, p: Piece, j: nat, k: nat)
    requires p.Conversion? && Wellformed(p) && j == i + |p.flags| && k == j + |CountText(p.width)|
    requires At(fmt, i, p.flags) && At(fmt, j, CountText(p.width) + (PrecisionPart(p) + Ending(p)))
    ensures FrontRead(fmt, i, p, j, k) && At(fmt, k, PrecisionPart(p) + Ending(p))
  {
    PrecisionStops(p);
    WidthRead(fmt, j, p.width, PrecisionPart(p) + Ending(p));
    FlagsRead(fmt, i, p.flags, NO_FLAGS);
  }

  /** The precision and the qualifier at `k`, up to the positions where they end. */
  ghost predicate BackRead(fmt: string, k: nat, p: Piece, l: nat, m: nat)
    requires p.Conversion?
  {
    && (CharAt(fmt, k) == '.') == p.dot
    && (if p.dot then ReadAmount(fmt, k + 1) else (Absent, k)) == (AmountOf(p.precision), l)
    && ReadQualifier(fmt, l) == (QualifierChar(p.qualifier), m) && CharAt(fmt, m) == p.letter
  }

  lemma ReadBack(fmt: string, k: nat, p: Piece, l: nat, m: nat)
    requires p.Conversion? && Wellformed(p) && l == k + |PrecisionPart(p)| && m == l + |p.qualifier|
    requires At(fmt, k, PrecisionPart(p) + Ending(p))
    ensures BackRead(fmt, k, p, l, m)
  {
    EndingStops(p);
    PrecisionRead(fmt, k, p.dot, p.precision, PrecisionPart(p), Ending(p));
    QualifierRead(fmt, l, p.qualifier, p.letter);
  }

  lemma SpelledLength(p: Piece)
    requires p.Conversion?
    ensures |Spelled(p)| == |p.flags| + |CountText(p.width)| + |PrecisionPart(p)| + |p.qualifier| + 2
  {
  }

  lemma JoinParts(fmt: string, i: nat, p: Piece, j: nat, k: nat, l: nat, m: nat)
    requires p.Conversion? && p.letter != '\0' && i <= |fmt|
    requires FrontRead(fmt, i, p, j, k) && BackRead(fmt, k, p, l, m)
    ensures ReadDirective(fmt, i) == Parsed(p, m + 1)
  {
    Assemble(fmt, i, (WithFlags(NO_FLAGS, p.flags), j), (AmountOf(p.width), k), p.dot, (AmountOf(p.precision), l),
             (QualifierChar(p.qualifier), m), p.letter);
  }

  lemma FrontFirst(fmt: string, i: nat, p: Piece, j: nat, k: nat)
    requires p.Conversion? && Wellformed(p) && At(fmt, i, Spelled(p))
    requires j == i + 1 + |p.flags| && k == j + |CountText(p.width)|
    ensures fmt[i] == '%' && FrontRead(fmt, i + 1, p, j, k) && At(fmt, k, PrecisionPart(p) + Ending(p))
  {
    FlagsAt(fmt, i, p);
    AtFirst(fmt, i, "%");
    ReadFront(fmt, i + 1, p, j, k);
  }

  lemma BackThen(fmt: string, i: nat, p: Piece, j: nat, k: nat)
    requires p.Conversion? && Wellformed(p) && i <= |fmt|
    requires FrontRead(fmt, i, p, j, k) && At(fmt, k, PrecisionPart(p) + Ending(p))
    ensures ReadDirective(fmt, i) == Parsed(p, k + |PrecisionPart(p)| + |p.qualifier| + 1)
  {
    var l := k + |PrecisionPart(p)|;
    ReadBack(fmt, k, p, l, l + |p.qualifier|);
    JoinParts(fmt, i, p, j, k, l, l + |p.qualifier|);
  }

  lemma DirectiveRead(fmt: string, i: nat, p: Piece)
    requires p.Conversion? && Wellformed(p) && At(fmt, i, Spelled(p))
    ensures fmt[i] == '%' && ReadDirective(fmt, i + 1) == Parsed(p, i + |Spelled(p)|)
  {
    var j := i + 1 + |p.flags|;
    FrontFirst(fmt, i, p, j, j + |CountText(p.width)|);
    BackThen(fmt, i + 1, p, j, j + |CountText(p.width)|);
    SpelledLength(p);
  }
}
