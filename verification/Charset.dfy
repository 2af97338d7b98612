/** Texts as sequences of pieces, one for each code, and loops that read them back. */
module TextCodec {

  /** `p` stands at position `i` of `s`. */
  ghost predicate At<T>(s: seq<T>, i: int, p: seq<T>) {
    0 <= i && i + |p| <= |s| && s[i..i + |p|] == p
  }

  lemma AtElement<T>(s: seq<T>, i: int, p: seq<T>, j: int)
    requires At(s, i, p) && 0 <= j < |p|
    ensures s[i + j] == p[j]
  {
    assert s[i + j] == s[i..i + |p|][j];
  }

  lemma AtAll<T>(s: seq<T>, i: int, p: seq<T>)
    requires At(s, i, p)
    ensures forall j :: i <= j < i + |p| ==> s[j] == p[j - i]
  {
    forall j | i <= j < i + |p| ensures s[j] == p[j - i] { AtElement(s, i, p, j - i); }
  }

  lemma AtConcat<T>(s: seq<T>, i: int, p: seq<T>, q: seq<T>)
    requires At(s, i, p + q)
    ensures At(s, i, p) && At(s, i + |p|, q)
  {
    AtAll(s, i, p + q);
    assert s[i..i + |p|] == p;
    assert s[i + |p|..i + |p| + |q|] == q;
  }

  function Min(a: int, b: int): int {
    if a < b then a else b
  }

  /** The encodings of the codes, one after another. */
  ghost function Flat<T>(enc: nat -> seq<T>, cs: seq<nat>): (s: seq<T>) {
    if cs == [] then [] else enc(cs[0]) + Flat(enc, cs[1..])
  }

  lemma FlatCons<T>(enc: nat -> seq<T>, c: nat, cs: seq<nat>)
    ensures Flat(enc, [c] + cs) == enc(c) + Flat(enc, cs)
  {
    assert ([c] + cs)[1..] == cs;
  }

  lemma {:induction false} FlatAppend<T>(enc: nat -> seq<T>, cs: seq<nat>, c: nat)
    ensures Flat(enc, cs + [c]) == Flat(enc, cs) + enc(c)
  {
    if cs == [] {
      FlatCons(enc, c, []);
      assert cs + [c] == [c] + [];
    } else {
      FlatAppend(enc, cs[1..], c);
      FlatCons(enc, cs[0], cs[1..] + [c]);
      assert cs + [c] == [cs[0]] + (cs[1..] + [c]);
    }
  }

  /**
   * What a loop reads from position `i` on: at most `count` codes, each with
   * the next position given by `get`, while there is `more`.
   */
  ghost function Codes(get: int -> (int, int), more: int -> bool, i: int, count: nat): (cs: seq<int>)
    decreases count
  {
    if count == 0 || !more(i) then [] else [get(i).0] + Codes(get, more, get(i).1, count - 1)
  }

  lemma CodesStep(get: int -> (int, int), more: int -> bool, i: int, count: nat)
    requires count > 0 && more(i)
    ensures Codes(get, more, i, count) == [get(i).0] + Codes(get, more, get(i).1, count - 1)
  {
  }

  ghost function Images(f: nat -> int, cs: seq<nat>): (r: seq<int>)
    ensures |r| == |cs| && forall i :: 0 <= i < |cs| ==> r[i] == f(cs[i])
  {
    seq(|cs|, i requires 0 <= i < |cs| => f(cs[i]))
  }

  /** Where the piece of a code stands, there is more to read and `get` reads `f` of the code and no more. */
  ghost predicate ReadsPieces<T>(enc: nat -> seq<T>, s: seq<T>, get: int -> (int, int), more: int -> bool,
                                 f: nat -> int, cs: seq<nat>) {
    forall j: int, c: nat :: c in cs && At(s, j, enc(c)) ==> more(j) && get(j) == (f(c), j + |enc(c)|)
  }

  lemma ReadsPiece<T>(enc: nat -> seq<T>, s: seq<T>, get: int -> (int, int), more: int -> bool,
                      f: nat -> int, cs: seq<nat>, i: int)
    requires ReadsPieces(enc, s, get, more, f, cs) && cs != [] && At(s, i, enc(cs[0]))
    ensures more(i) && get(i) == (f(cs[0]), i + |enc(cs[0])|) && ReadsPieces(enc, s, get, more, f, cs[1..])
  {
    assert cs[0] in cs;
  }

  /** The images of the first `count` codes. */
  ghost function FirstImages(f: nat -> int, cs: seq<nat>, count: nat): seq<int>
    decreases count
  {
    if count == 0 || cs == [] then [] else [f(cs[0])] + FirstImages(f, cs[1..], count - 1)
  }

  lemma {:induction false} FirstImagesAre(f: nat -> int, cs: seq<nat>, count: nat)
    ensures FirstImages(f, cs, count) == Images(f, cs)[..Min(count, |cs|)]
    decreases count
  {
    if count > 0 && cs != [] {
      FirstImagesAre(f, cs[1..], count - 1);
      TakeImages(f, cs, count);
    }
  }

  lemma TakeImages(f: nat -> int, cs: seq<nat>, count: nat)
    requires cs != [] && count > 0
    ensures Images(f, cs)[..Min(count, |cs|)] == [f(cs[0])] + Images(f, cs[1..])[..Min(count - 1, |cs| - 1)]
  {
  }

  lemma {:induction false} DecodesFrom<T>(enc: nat -> seq<T>, s: seq<T>, get: int -> (int, int), more: int -> bool,
                                          f: nat -> int, i: int, cs: seq<nat>, count: nat)
    requires ReadsPieces(enc, s, get, more, f, cs)
    requires At(s, i, Flat(enc, cs)) && !more(i + |Flat(enc, cs)|)
    ensures Codes(get, more, i, count) == FirstImages(f, cs, count)
    decreases count
  {
    if count > 0 && cs != [] {
      AtConcat(s, i, enc(cs[0]), Flat(enc, cs[1..]));
      ReadsPiece(enc, s, get, more, f, cs, i);
      DecodesFrom(enc, s, get, more, f, i + |enc(cs[0])|, cs[1..], count - 1);
      CodesStep(get, more, i, count);
    }
  }

  /** A loop whose `get` reads each piece back as `f` of its code reads the whole text back. */
  lemma DecodesFlat<T>(enc: nat -> seq<T>, s: seq<T>, get: int -> (int, int), more: int -> bool,
                       f: nat -> int, cs: seq<nat>, count: nat)
    requires ReadsPieces(enc, s, get, more, f, cs)
    requires s == Flat(enc, cs) && !more(|s|)
    ensures Codes(get, more, 0, count) == Images(f, cs)[..Min(count, |cs|)]
  {
    assert At(s, 0, s) by { assert s[0..|s|] == s; }
    DecodesFrom(enc, s, get, more, f, 0, cs, count);
    FirstImagesAre(f, cs, count);
  }

  /** In as many turns as a piece of one encoding is long, the machine turns it into the piece of another. */
  ghost predicate TurnsPieces<S, T>(enc: nat -> seq<S>, out: nat -> seq<T>, s: seq<S>, machine: (int, nat) -> seq<T>,
                                    cs: seq<nat>) {
    && (forall j: int, n: nat, c: nat :: c in cs && At(s, j, enc(c)) && n >= |enc(c)| ==>
          machine(j, n) == out(c) + machine(j + |enc(c)|, n - |enc(c)|))
    && (forall j: int :: machine(j, 0) == [])
  }

  /** A machine that turns each piece of one encoding into the piece of another transcodes the text. */
  lemma {:induction false} TranscodesFlat<S, T>(enc: nat -> seq<S>, out: nat -> seq<T>, s: seq<S>,
                                                machine: (int, nat) -> seq<T>, i: int, cs: seq<nat>)
    requires TurnsPieces(enc, out, s, machine, cs)
    requires At(s, i, Flat(enc, cs))
    ensures machine(i, |Flat(enc, cs)|) == Flat(out, cs)
    decreases |cs|
  {
    if cs != [] {
      AtConcat(s, i, enc(cs[0]), Flat(enc, cs[1..]));
      TranscodesFlat(enc, out, s, machine, i + |enc(cs[0])|, cs[1..]);
    }
  }

  // ----- loops over a text

  const QUESTION := 0x3F

  function Question(c: int): nat {
    if c < 0 then QUESTION else c
  }

  /** Errors become question marks. */
  ghost function OrQuestion(cs: seq<int>): (r: seq<nat>)
    ensures |r| == |cs| && forall i :: 0 <= i < |cs| ==> r[i] == Question(cs[i])
  {
    seq(|cs|, i requires 0 <= i < |cs| => Question(cs[i]))
  }

  lemma QuestionCons(c: int, rest: seq<int>)
    ensures OrQuestion([c] + rest) == [Question(c)] + OrQuestion(rest)
  {
  }

  lemma CopyStep(get: int -> (int, int), more: int -> bool, i: int, n: nat, read: seq<nat>)
    requires n > 0 && more(i)
    ensures read + OrQuestion(Codes(get, more, i, n)) ==
            (read + [Question(get(i).0)]) + OrQuestion(Codes(get, more, get(i).1, n - 1))
  {
    var rest := Codes(get, more, get(i).1, n - 1);
    QuestionCons(get(i).0, rest);
    Shift(read, Question(get(i).0), OrQuestion(rest));
  }

  /** The copying loop of `utf8_utf16_strncpy` and `utf16_utf8_strncpy`. */
  method Copy<T>(get: int -> (int, int), more: int -> bool, put: nat -> seq<T>, count: nat) returns (dst: seq<T>)
    ensures dst == Flat(put, OrQuestion(Codes(get, more, 0, count)))
  {
    dst := [];
    var i, n := 0, count;
    ghost var read: seq<nat> := [];
    while n > 0 && more(i)
      invariant n >= 0 && dst == Flat(put, read)
      invariant read + OrQuestion(Codes(get, more, i, n)) == OrQuestion(Codes(get, more, 0, count))
    {
      var r := get(i);
      var code := if r.0 < 0 then QUESTION else r.0;
      CopyStep(get, more, i, n, read);
      FlatAppend(put, read, code);
      dst := dst + put(code);
      read := read + [code];
      i, n := r.1, n - 1;
    }
    assert read + [] == read;
  }

  /** The room the codes up to the first zero are given. */
  ghost function Reserved(width: int -> nat, cs: seq<int>): nat {
    if cs == [] || cs[0] == 0 then 0 else width(cs[0]) + Reserved(width, cs[1..])
  }

  /** The counting loop of `utf8_utf16_strnlen` and `utf16_utf8_strnlen`. */
  method Count(get: int -> (int, int), more: int -> bool, width: int -> nat, count: nat) returns (len: nat)
    ensures len == Reserved(width, Codes(get, more, 0, count))
  {
    len := 0;
    var i, n := 0, count;
    while more(i) && n > 0
      invariant n >= 0 && len + Reserved(width, Codes(get, more, i, n)) == Reserved(width, Codes(get, more, 0, count))
      decreases n
    {
      var r := get(i);
      ghost var cs := Codes(get, more, i, n);
      assert cs[0] == r.0 && cs[1..] == Codes(get, more, r.1, n - 1);
      if r.0 == 0 { break; }
      len := len + width(r.0);
      i, n := r.1, n - 1;
    }
  }

  /** What the copying loop writes for one code. */
  ghost function Written<T>(put: nat -> seq<T>, c: int): nat {
    |put(Question(c))|
  }

  lemma Member(cs: seq<int>)
    requires cs != []
    ensures forall c :: c in cs <==> c == cs[0] || c in cs[1..]
  {
  }

  lemma FlatOrQuestion<T>(put: nat -> seq<T>, cs: seq<int>)
    requires cs != []
    ensures |Flat(put, OrQuestion(cs))| == Written(put, cs[0]) + |Flat(put, OrQuestion(cs[1..]))|
  {
    assert OrQuestion(cs)[1..] == OrQuestion(cs[1..]);
  }

  /** The position of the first zero, or the length. */
  ghost function FirstZero(cs: seq<int>): (k: nat)
    ensures k <= |cs| && (k < |cs| ==> cs[k] == 0) && forall i :: 0 <= i < k ==> cs[i] != 0
  {
    if cs == [] || cs[0] == 0 then 0
    else
      assert forall i :: 1 <= i < |cs| ==> cs[i] == cs[1..][i - 1];
      1 + FirstZero(cs[1..])
  }

  /** The room reserved and not used for some codes. */
  ghost function Unused(spare: int -> nat, cs: seq<int>): nat {
    if cs == [] then 0 else spare(cs[0]) + Unused(spare, cs[1..])
  }

  lemma Split(cs: seq<int>)
    requires cs != [] && cs[0] != 0
    ensures var k := FirstZero(cs[1..]);
            cs[..k + 1] == [cs[0]] + cs[1..][..k] && cs[k + 1..] == cs[1..][k..] && FirstZero(cs) == k + 1
  {
    Slices(cs, FirstZero(cs[1..]));
  }

  lemma Slices(cs: seq<int>, k: nat)
    requires k < |cs|
    ensures cs[..k + 1] == [cs[0]] + cs[1..][..k] && cs[k + 1..] == cs[1..][k..]
  {
  }

  /**
   * The balance of what is reserved and what is taken: short of the spare room
   * in front of the first zero, and of everything from it on.
   */
  lemma {:induction false} RoomBalance<T>(width: int -> nat, put: nat -> seq<T>, spare: int -> nat, cs: seq<int>)
    requires forall c :: c in cs && c != 0 ==> Written(put, c) + spare(c) == width(c)
    ensures var k := FirstZero(cs);
            Reserved(width, cs) + |Flat(put, OrQuestion(cs[k..]))| ==
            |Flat(put, OrQuestion(cs))| + Unused(spare, cs[..k])
  {
    if cs == [] || cs[0] == 0 {
      assert cs[0..] == cs && cs[..0] == [];
    } else {
      var k, rest := FirstZero(cs[1..]), cs[1..];
      Member(cs);
      RoomBalance(width, put, spare, rest);
      FlatOrQuestion(put, cs);
      Split(cs);
      assert ([cs[0]] + rest[..k])[1..] == rest[..k];
    }
  }

  lemma {:induction false} NothingUnused(spare: int -> nat, cs: seq<int>)
    ensures Unused(spare, cs) == 0 <==> forall i :: 0 <= i < |cs| ==> spare(cs[i]) == 0
  {
    if cs != [] {
      var rest := cs[1..];
      NothingUnused(spare, rest);
      if Unused(spare, cs) == 0 {
        forall i | 0 <= i < |cs| ensures spare(cs[i]) == 0 {
          if i > 0 { assert cs[i] == rest[i - 1]; }
        }
      } else if spare(cs[0]) == 0 {
        var i :| 0 <= i < |rest| && spare(rest[i]) != 0;
        assert cs[i + 1] == rest[i];
      }
    }
  }

  ghost predicate NoZeros(cs: seq<int>) {
    forall i :: 0 <= i < |cs| ==> cs[i] != 0
  }

  lemma NoZero(cs: seq<int>)
    ensures NoZeros(cs) <==> FirstZero(cs) == |cs|
    ensures NoZeros(cs) ==> OrQuestion(cs[FirstZero(cs)..]) == [] && cs[..FirstZero(cs)] == cs
  {
  }

  lemma Shift<T>(s: seq<T>, x: T, t: seq<T>)
    ensures s + ([x] + t) == (s + [x]) + t
  {
  }

  lemma Assoc<T>(s: seq<T>, t: seq<T>, u: seq<T>)
    ensures s + (t + u) == (s + t) + u
  {
  }
}

/**
 * UTF-8 and UTF-16 transcoding (lib/charset.c), after section 3 of RFC 3629
 * and sections 2.1 and 2.2 of RFC 2781.
 *
 * A NUL-terminated string is the sequence of its elements before the NUL;
 * a position equal to its length stands for a pointer to the terminator.
 * Shifts are multiplications and divisions by powers of two, a mask of low
 * bits is a remainder, and an `|` of fields that share no bit is a sum.
 */
module Charset {
  import opened TextCodec

  type u8 = x: int | 0 <= x < 0x100
  type u16 = x: int | 0 <= x < 0x1_0000

  /** A Unicode scalar value. */
  predicate ScalarValue(c: int) {
    0 <= c < 0x110000 && !(0xD800 <= c <= 0xDFFF)
  }

  ghost predicate ScalarValues(cs: seq<nat>) {
    forall i :: 0 <= i < |cs| ==> ScalarValue(cs[i])
  }

  /** A scalar value other than NUL, which ends a string. */
  predicate Scalar(c: int) {
    c != 0 && ScalarValue(c)
  }

  ghost predicate Scalars(cs: seq<nat>) {
    forall i :: 0 <= i < |cs| ==> Scalar(cs[i])
  }

  // ----- UTF-8

  /** `read_string`: the byte at a position; the position moves on unless it is at the terminator. */
  function ByteAt(s: seq<u8>, i: int): u8 {
    if 0 <= i < |s| then s[i] else 0
  }

  function After(s: seq<u8>, i: int): int {
    if 0 <= i < |s| then i + 1 else i
  }

  predicate Continuation(b: int) {
    0x80 <= b <= 0xBF
  }

  /** Lines 60-67. */
  function GetTail(code: int, ch: int, s: seq<u8>, i: int): (int, int) {
    var last := ByteAt(s, i);
    if !Continuation(last) then (QUESTION, After(s, i))
    else (last % 64 + (code + ch % 64 * 64), After(s, i))
  }

  /** Lines 52-58. */
  function GetMiddle(code: int, ch: int, s: seq<u8>, i: int): (int, int) {
    var code' := code + ch * 0x1000;
    if 0xD800 <= code' <= 0xDFFF || code' >= 0x110000 then (QUESTION, i)
    else
      var next := ByteAt(s, i);
      if !Continuation(next) then (QUESTION, After(s, i)) else GetTail(code', next, s, After(s, i))
  }

  /** `get_code`: the code read at `i` and the position after it. */
  function GetCode(s: seq<u8>, i: int): (int, int) {
    var ch, j := ByteAt(s, i), After(s, i);
    if ch == 0 then (0, j)
    else if 0xC2 <= ch <= 0xF4 then
      if ch >= 0xF0 then
        var next := ByteAt(s, j);
        if !Continuation(next) then (QUESTION, After(s, j))
        else GetMiddle(ch % 8 * 0x40000, next % 64, s, After(s, j))
      else if ch >= 0xE0 then GetMiddle(0, ch % 16, s, j)
      else GetTail(0, ch, s, j)
    else if ch >= 0x80 then (QUESTION, j)
    else (ch, j)
  }

  /** `utf8_put`: the bytes written; none for a surrogate or a value past 0x10FFFF. */
  function Put8(code: nat): (r: seq<u8>) {
    if (0xD800 <= code <= 0xDFFF) || code >= 0x110000 then []
    else if code <= 0x7F then [code]
    else if code <= 0x7FF then [0xC0 + code / 64, 0x80 + code % 64]
    else if code < 0x10000 then [0xE0 + code / 0x1000, 0x80 + code / 64 % 64, 0x80 + code % 64]
    else [0xF0 + code / 0x40000, 0x80 + code / 0x1000 % 64, 0x80 + code / 64 % 64, 0x80 + code % 64]
  }

  lemma GetPutShort(s: seq<u8>, i: int, code: int)
    requires 0 < code < 0x800 && At(s, i, Put8(code))
    ensures GetCode(s, i) == (code, i + |Put8(code)|)
  {
    AtAll(s, i, Put8(code));
  }

  lemma Fields3(code: int, b0: int, b1: int, b2: int)
    requires 0x800 <= code < 0x10000
    requires b0 == 0xE0 + code / 0x1000 && b1 == 0x80 + code / 64 % 64 && b2 == 0x80 + code % 64
    ensures 0xE0 <= b0 < 0xF0 && b2 % 64 + (b0 % 16 * 0x1000 + b1 % 64 * 64) == code
    ensures !(0xD800 <= b0 % 16 * 0x1000 <= 0xDFFF)
  {
    Digits64(code);
    LowBits(0, 0, code / 64 % 64, code % 64);
  }

  lemma GetPut3(s: seq<u8>, i: int, code: int)
    requires 0x800 <= code < 0x10000 && Scalar(code) && At(s, i, Put8(code))
    ensures GetCode(s, i) == (code, i + 3)
  {
    AtAll(s, i, Put8(code));
    var b0, b1, b2 := 0xE0 + code / 0x1000, 0x80 + code / 64 % 64, 0x80 + code % 64;
    assert s[i] == b0 && s[i + 1] == b1 && s[i + 2] == b2;
    Fields3(code, b0, b1, b2);
    assert GetMiddle(0, b0 % 16, s, i + 1) == GetTail(b0 % 16 * 0x1000, b1, s, i + 2);
  }

  lemma GetPut4(s: seq<u8>, i: int, code: int)
    requires 0x10000 <= code < 0x110000 && At(s, i, Put8(code))
    ensures GetCode(s, i) == (code, i + 4)
  {
    AtAll(s, i, Put8(code));
    var b0, b1, b2, b3 := 0xF0 + code / 0x40000, 0x80 + code / 0x1000 % 64, 0x80 + code / 64 % 64, 0x80 + code % 64;
    assert s[i] == b0 && s[i + 1] == b1 && s[i + 2] == b2 && s[i + 3] == b3;
    Fields4(code, b0, b1, b2, b3);
    var top := b0 % 8 * 0x40000 + b1 % 64 * 0x1000;
    assert GetMiddle(b0 % 8 * 0x40000, b1 % 64, s, i + 2) == GetTail(top, b2, s, i + 3);
  }

  /** A code as digits in base 64. */
  lemma Digits64(code: int)
    requires code >= 0
    ensures code == code / 0x1000 * 0x1000 + code / 64 % 64 * 64 + code % 64
    ensures code / 0x1000 == code / 0x40000 * 64 + code / 0x1000 % 64
  {
    assert code / 64 / 64 == code / 0x1000;
    assert code / 0x1000 / 64 == code / 0x40000;
  }

  lemma Fields4(code: int, b0: int, b1: int, b2: int, b3: int)
    requires 0x10000 <= code < 0x110000
    requires b0 == 0xF0 + code / 0x40000 && b1 == 0x80 + code / 0x1000 % 64
    requires b2 == 0x80 + code / 64 % 64 && b3 == 0x80 + code % 64
    ensures 0xF0 <= b0 <= 0xF4
    ensures var top := b0 % 8 * 0x40000 + b1 % 64 * 0x1000;
            0x10000 <= top < 0x110000 && b3 % 64 + (top + b2 % 64 * 64) == code
  {
    Digits64(code);
    LowBits(code / 0x40000, code / 0x1000 % 64, code / 64 % 64, code % 64);
  }

  lemma LowBits(t: int, a: int, b: int, c: int)
    requires 0 <= t < 8 && 0 <= a < 64 && 0 <= b < 64 && 0 <= c < 64
    ensures (0xF0 + t) % 8 == t && (0x80 + a) % 64 == a && (0x80 + b) % 64 == b && (0x80 + c) % 64 == c
  {
  }

  /** `get_code` reads back every scalar `utf8_put` wrote and stops right behind it. */
  lemma GetPut8(s: seq<u8>, i: int, code: int)
    requires Scalar(code) && At(s, i, Put8(code))
    ensures GetCode(s, i) == (code, i + |Put8(code)|)
  {
    if code < 0x800 {
      GetPutShort(s, i, code);
    } else if code < 0x10000 {
      GetPut3(s, i, code);
    } else {
      GetPut4(s, i, code);
    }
  }

  // ----- any bytes

  /** The position `k` behind `i`, but not past the terminator. */
  function Past(s: seq<u8>, i: int, k: int): int {
    if i + k < |s| then i + k else |s|
  }

  /** One byte: ASCII is itself, and a byte that starts nothing is an error of one byte. */
  lemma OneByte(s: seq<u8>, i: int)
    requires 0 <= i < |s|
    ensures s[i] < 0x80 ==> GetCode(s, i) == (s[i], i + 1)
    ensures 0x80 <= s[i] <= 0xC1 || s[i] >= 0xF5 ==> GetCode(s, i) == (0x3F, i + 1)
  {
  }

  /** Two bytes: six bits of the second; anything but a continuation is taken with the error. */
  lemma TwoBytes(s: seq<u8>, i: int)
    requires 0 <= i < |s| && 0xC2 <= s[i] <= 0xDF
    ensures var b0: int, b1: int := s[i], ByteAt(s, i + 1);
            GetCode(s, i) == if 0x80 <= b1 <= 0xBF then ((b0 - 0xC0) * 0x40 + (b1 - 0x80), i + 2)
                             else (0x3F, Past(s, i, 2))
  {
  }

  /** Three bytes, overlong forms and surrogates included. */
  lemma ThreeBytes(s: seq<u8>, i: int)
    requires 0 <= i < |s| && 0xE0 <= s[i] <= 0xEF
    ensures var b0: int, b1: int, b2: int := s[i], ByteAt(s, i + 1), ByteAt(s, i + 2);
            GetCode(s, i) == if !(0x80 <= b1 <= 0xBF) then (0x3F, Past(s, i, 2))
                             else if !(0x80 <= b2 <= 0xBF) then (0x3F, Past(s, i, 3))
                             else ((b0 - 0xE0) * 0x1000 + (b1 - 0x80) * 0x40 + (b2 - 0x80), i + 3)
  {
    var b0: int := s[i];
    assert GetCode(s, i) == GetMiddle(0, b0 - 0xE0, s, i + 1);
  }

  /** Four bytes, unless the first two already say that the code is past 0x10FFFF. */
  lemma FourBytes(s: seq<u8>, i: int)
    requires 0 <= i < |s| && 0xF0 <= s[i] <= 0xF4
    ensures var b0: int, b1: int, b2: int, b3: int := s[i], ByteAt(s, i + 1), ByteAt(s, i + 2), ByteAt(s, i + 3);
            GetCode(s, i) == if !(0x80 <= b1 <= 0xBF) then (0x3F, Past(s, i, 2))
                             else if b0 == 0xF4 && b1 >= 0x90 then (0x3F, i + 2)
                             else if !(0x80 <= b2 <= 0xBF) then (0x3F, Past(s, i, 3))
                             else if !(0x80 <= b3 <= 0xBF) then (0x3F, Past(s, i, 4))
                             else ((b0 - 0xF0) * 0x40000 + (b1 - 0x80) * 0x1000 + (b2 - 0x80) * 0x40 + (b3 - 0x80),
                                   i + 4)
  {
    var b0: int, b1: int := s[i], ByteAt(s, i + 1);
    if 0x80 <= b1 <= 0xBF {
      assert GetCode(s, i) == GetMiddle((b0 - 0xF0) * 0x40000, b1 - 0x80, s, i + 2);
    }
  }

  // ----- UTF-16

  function UnitAt(s: seq<u16>, i: int): u16 {
    if 0 <= i < |s| then s[i] else 0
  }

  /** `utf16_get`: the code read at `i`, -1 on error, and the position after it. */
  function Get16(s: seq<u16>, i: int): (int, int) {
    var code := UnitAt(s, i);
    if code == 0 then (0, i)
    else if 0xDC00 <= code <= 0xDFFF then (-1, i + 1)
    else if 0xD800 <= code <= 0xDBFF then
      var code2 := UnitAt(s, i + 1);
      if code2 == 0 then (-1, i + 1)
      else if code2 <= 0xDC00 || code2 >= 0xDFFF then (-1, i + 2)
      else (code % 0x400 * 0x400 + 0x10000 + code2 % 0x400, i + 2)
    else (code, i + 1)
  }

  /** `utf16_put`: the units written. */
  function Put16(code: nat): (r: seq<u16>) {
    if (0xD800 <= code <= 0xDFFF) || code >= 0x110000 then []
    else if code < 0x10000 then [code]
    else [0xD800 + (code - 0x10000) / 0x400, 0xDC00 + (code - 0x10000) % 0x400]
  }

  /** The low surrogate of `c` would be 0xDC00 or 0xDFFF, which `utf16_get` rejects. */
  predicate Rejected(c: int) {
    c >= 0x10000 && (c % 0x400 == 0 || c % 0x400 == 0x3FF)
  }

  /** What `utf16_get` makes of a scalar `utf16_put` wrote: itself, or an error for the rejected ones. */
  lemma GetPut16(s: seq<u16>, i: int, code: int)
    requires Scalar(code) && At(s, i, Put16(code))
    ensures Get16(s, i) == (if Rejected(code) then -1 else code, i + |Put16(code)|)
  {
    AtAll(s, i, Put16(code));
  }

  /** Any unit: itself, an error of one unit, or of two, or a pair. */
  lemma AnyUnit(s: seq<u16>, i: int)
    requires 0 <= i < |s| && s[i] != 0
    ensures var u: int, v: int := s[i], UnitAt(s, i + 1);
            Get16(s, i) == if u < 0xD800 || u > 0xDFFF then (u, i + 1)
                           else if u >= 0xDC00 || v == 0 then (-1, i + 1)
                           else if 0xDC01 <= v <= 0xDFFE then (0x10000 + (u - 0xD800) * 0x400 + (v - 0xDC00), i + 2)
                           else (-1, i + 2)
  {
  }

  // ----- whole strings

  ghost function Enc8(cs: seq<nat>): seq<u8> {
    Flat(Put8, cs)
  }

  ghost function Enc16(cs: seq<nat>): seq<u16> {
    Flat(Put16, cs)
  }

  /** The codes the loops over a UTF-8 string read. */
  ghost function Codes8(s: seq<u8>, i: int, count: nat): (cs: seq<int>) {
    Codes(j => GetCode(s, j), j => ByteAt(s, j) != 0, i, count)
  }

  /** The codes the loops over a UTF-16 string read; -1 stands for an error. */
  ghost function Codes16(s: seq<u16>, i: int, count: nat): (cs: seq<int>) {
    Codes(j => Get16(s, j), j => UnitAt(s, j) != 0, i, count)
  }

  function Width16(code: int): nat {
    if code < 0x10000 then 1 else 2
  }

  function Width8(code: int): nat {
    if code < 0x80 then 1 else if code < 0x800 then 2 else if code < 0x10000 then 3 else 4
  }

  /** `utf8_utf16_strncpy`. */
  method Utf8ToUtf16(src: seq<u8>, count: nat) returns (dst: seq<u16>)
    ensures dst == Enc16(OrQuestion(Codes8(src, 0, count)))
  {
    dst := Copy(j => GetCode(src, j), j => ByteAt(src, j) != 0, Put16, count);
  }

  /** `utf8_utf16_strnlen`. */
  method Utf8Utf16Length(src: seq<u8>, count: nat) returns (len: nat)
    ensures len == Reserved(Width16, Codes8(src, 0, count))
  {
    len := Count(j => GetCode(src, j), j => ByteAt(src, j) != 0, Width16, count);
  }

  /** `utf16_utf8_strncpy`. */
  method Utf16ToUtf8Copy(src: seq<u16>, count: nat) returns (dst: seq<u8>)
    ensures dst == Enc8(OrQuestion(Codes16(src, 0, count)))
  {
    dst := Copy(j => Get16(src, j), j => UnitAt(src, j) != 0, Put8, count);
  }

  /** `utf16_utf8_strnlen`. */
  method Utf16Utf8Length(src: seq<u16>, count: nat) returns (len: nat)
    ensures len == Reserved(Width8, Codes16(src, 0, count))
  {
    len := Count(j => Get16(src, j), j => UnitAt(src, j) != 0, Width8, count);
  }

  // ----- what they amount to

  lemma FirstNotNul(code: nat)
    requires Scalar(code)
    ensures |Put8(code)| > 0 && Put8(code)[0] != 0 && |Put16(code)| > 0 && Put16(code)[0] != 0
    ensures |Put16(code)| == if code < 0x10000 then 1 else 2
  {
  }

  lemma Reads8(s: seq<u8>, i: int, c: nat)
    requires Scalar(c) && At(s, i, Put8(c))
    ensures ByteAt(s, i) != 0 && GetCode(s, i) == (c, i + |Put8(c)|)
  {
    FirstNotNul(c);
    AtElement(s, i, Put8(c), 0);
    GetPut8(s, i, c);
  }

  lemma Reads16(s: seq<u16>, i: int, c: nat)
    requires Scalar(c) && At(s, i, Put16(c))
    ensures UnitAt(s, i) != 0 && Get16(s, i) == (AsRead(c), i + |Put16(c)|)
  {
    FirstNotNul(c);
    AtElement(s, i, Put16(c), 0);
    GetPut16(s, i, c);
  }

  /** What `get_code` returns for a scalar. */
  function Itself(c: nat): int {
    c
  }

  /** What `utf16_get` returns for a scalar. */
  function AsRead(c: nat): int {
    if Rejected(c) then -1 else c
  }

  lemma Pieces8(s: seq<u8>, cs: seq<nat>)
    requires Scalars(cs)
    ensures ReadsPieces(Put8, s, (j: int) => GetCode(s, j), (j: int) => ByteAt(s, j) != 0, Itself, cs)
  {
    forall j: int, c: nat | c in cs && At(s, j, Put8(c))
      ensures ByteAt(s, j) != 0 && GetCode(s, j) == (c, j + |Put8(c)|)
    {
      Reads8(s, j, c);
    }
  }

  lemma Pieces16(s: seq<u16>, cs: seq<nat>)
    requires Scalars(cs)
    ensures ReadsPieces(Put16, s, (j: int) => Get16(s, j), (j: int) => UnitAt(s, j) != 0, AsRead, cs)
  {
    forall j: int, c: nat | c in cs && At(s, j, Put16(c))
      ensures UnitAt(s, j) != 0 && Get16(s, j) == (AsRead(c), j + |Put16(c)|)
    {
      Reads16(s, j, c);
    }
  }

  /** The loops over a well-formed UTF-8 string read its scalars back. */
  lemma Decodes8(cs: seq<nat>, count: nat)
    requires Scalars(cs)
    ensures Codes8(Enc8(cs), 0, count) == cs[..Min(count, |cs|)]
  {
    var s := Enc8(cs);
    Pieces8(s, cs);
    DecodesFlat(Put8, s, (j: int) => GetCode(s, j), (j: int) => ByteAt(s, j) != 0, Itself, cs, count);
    assert Images(Itself, cs) == cs;
  }

  /** The loops over a well-formed UTF-16 string read the scalars back, the rejected ones as errors. */
  lemma Decodes16(cs: seq<nat>, count: nat)
    requires Scalars(cs)
    ensures Codes16(Enc16(cs), 0, count) == Images(AsRead, cs)[..Min(count, |cs|)]
  {
    var s := Enc16(cs);
    Pieces16(s, cs);
    DecodesFlat(Put16, s, (j: int) => Get16(s, j), (j: int) => UnitAt(s, j) != 0, AsRead, cs, count);
  }

  /** What `get_code` can return: also 0 and surrogates, from overlong and surrogate encodings. */
  lemma GetCodeRange(s: seq<u8>, i: int)
    ensures 0 <= GetCode(s, i).0 < 0x110000
  {
  }

  predicate Surrogate(c: int) {
    0xD800 <= c <= 0xDFFF
  }

  lemma Written16(c: int)
    requires 0 <= c < 0x110000
    ensures Written(Put16, c) == if Surrogate(c) then 0 else Width16(c)
  {
  }

  /** Every member of what a loop reads was returned by `get`. */
  lemma {:induction false} CodesAre(get: int -> (int, int), more: int -> bool, i: int, count: nat, c: int)
    requires c in Codes(get, more, i, count)
    ensures exists j: int :: more(j) && get(j).0 == c
    decreases count
  {
    if c != get(i).0 {
      CodesAre(get, more, get(i).1, count - 1, c);
    }
  }

  /** One unit is reserved for a surrogate and none is written. */
  function SpareUnits(c: int): nat {
    if Surrogate(c) then 1 else 0
  }

  /** The number of surrogates. */
  ghost function Surrogates(cs: seq<int>): nat {
    Unused(SpareUnits, cs)
  }

  ghost predicate NoSurrogates(cs: seq<int>) {
    forall i :: 0 <= i < |cs| ==> !Surrogate(cs[i])
  }

  lemma SurrogatesNone(cs: seq<int>)
    ensures Surrogates(cs) == 0 <==> NoSurrogates(cs)
  {
    NothingUnused(SpareUnits, cs);
    assert forall i :: 0 <= i < |cs| ==> (SpareUnits(cs[i]) == 0 <==> !Surrogate(cs[i]));
  }

  lemma CodeRange(src: seq<u8>, count: nat, c: int)
    requires c in Codes8(src, 0, count)
    ensures 0 <= c < 0x110000
  {
    var get, more := (j: int) => GetCode(src, j), (j: int) => ByteAt(src, j) != 0;
    CodesAre(get, more, 0, count, c);
    var j :| more(j) && get(j).0 == c;
    GetCodeRange(src, j);
  }

  /** The units from the first zero on, for which nothing is reserved. */
  ghost function Unreserved(cs: seq<int>): nat {
    |Enc16(OrQuestion(cs[FirstZero(cs)..]))|
  }

  /** The surrogates in front of the first zero, for which nothing is written. */
  ghost function Spare(cs: seq<int>): nat {
    Surrogates(cs[..FirstZero(cs)])
  }

  lemma Balance16(src: seq<u8>, count: nat)
    ensures var cs := Codes8(src, 0, count);
            Reserved(Width16, cs) + Unreserved(cs) == |Enc16(OrQuestion(cs))| + Spare(cs)
  {
    var cs := Codes8(src, 0, count);
    forall c | c in cs && c != 0 ensures Written(Put16, c) + SpareUnits(c) == Width16(c) {
      CodeRange(src, count, c);
      Written16(c);
    }
    RoomBalance(Width16, Put16, SpareUnits, cs);
  }

  /**
   * Whether `utf8_utf16_strnlen` announces the room `utf8_utf16_strncpy`
   * takes, on any bytes: it announces enough if and only if at least as many
   * surrogates are read in front of the first zero as units are written from
   * it on, and exactly what is taken if and only if these numbers agree.
   */
  lemma Room16(src: seq<u8>, count: nat)
    ensures var cs := Codes8(src, 0, count);
            var room, taken := Reserved(Width16, cs), |Enc16(OrQuestion(cs))|;
            && (taken <= room <==> Unreserved(cs) <= Spare(cs))
            && (taken == room <==> Unreserved(cs) == Spare(cs))
  {
    Balance16(src, count);
  }

  /** Something is written from the first zero on exactly when there is one. */
  lemma UnreservedNone(cs: seq<int>)
    ensures Unreserved(cs) == 0 <==> NoZeros(cs)
  {
    NoZero(cs);
    if FirstZero(cs) < |cs| {
      FlatOrQuestion(Put16, cs[FirstZero(cs)..]);
      Written16(0);
    }
  }

  /**
   * Without an overlong NUL the room is enough, and exact unless an encoded
   * surrogate was read; without an encoded surrogate it is exact unless an
   * overlong NUL was read, and too little then.
   */
  lemma Room16Separately(src: seq<u8>, count: nat)
    ensures var cs := Codes8(src, 0, count);
            var room, taken := Reserved(Width16, cs), |Enc16(OrQuestion(cs))|;
            && (NoZeros(cs) ==> taken <= room && (taken == room <==> NoSurrogates(cs)))
            && (NoSurrogates(cs) ==> taken >= room && (taken == room <==> NoZeros(cs)))
  {
    var cs := Codes8(src, 0, count);
    Balance16(src, count);
    UnreservedNone(cs);
    NoZero(cs);
    SurrogatesNone(cs[..FirstZero(cs)]);
    SurrogatesNone(cs);
  }

  /** A zero is read from exactly the overlong forms of NUL. */
  lemma ZeroRead(s: seq<u8>, i: int)
    requires ByteAt(s, i) != 0
    ensures var b0, b1, b2, b3 := ByteAt(s, i), ByteAt(s, i + 1), ByteAt(s, i + 2), ByteAt(s, i + 3);
            GetCode(s, i).0 == 0 <==>
            || (b0 == 0xE0 && b1 == 0x80 && b2 == 0x80)
            || (b0 == 0xF0 && b1 == 0x80 && b2 == 0x80 && b3 == 0x80)
  {
  }

  lemma MiddleSurrogate(code: int, ch: int, s: seq<u8>, i: int)
    requires code % 0x40000 == 0 && 0 <= code && 0 <= ch < 64
    ensures Surrogate(GetMiddle(code, ch, s, i).0) <==>
            code == 0 && ch == 0xD && 0xA0 <= ByteAt(s, i) <= 0xBF && Continuation(ByteAt(s, i + 1))
  {
  }

  /** A surrogate is read from exactly its three-byte form and its overlong four-byte form. */
  lemma SurrogateRead(s: seq<u8>, i: int)
    requires ByteAt(s, i) != 0
    ensures var b0, b1, b2, b3 := ByteAt(s, i), ByteAt(s, i + 1), ByteAt(s, i + 2), ByteAt(s, i + 3);
            Surrogate(GetCode(s, i).0) <==>
            || (b0 == 0xED && 0xA0 <= b1 <= 0xBF && Continuation(b2))
            || (b0 == 0xF0 && b1 == 0x8D && 0xA0 <= b2 <= 0xBF && Continuation(b3))
  {
    var b0: int, b1: int := ByteAt(s, i), ByteAt(s, i + 1);
    if b0 >= 0xF0 {
      MiddleSurrogate(b0 % 8 * 0x40000, b1 % 64, s, i + 2);
    } else {
      MiddleSurrogate(0, b0 % 16, s, i + 1);
    }
  }

  /** On well-formed UTF-8 the announced room is exactly what is taken. */
  lemma Room16WellFormed(cs: seq<nat>, count: nat)
    requires Scalars(cs)
    ensures var read := Codes8(Enc8(cs), 0, count); Reserved(Width16, read) == |Enc16(OrQuestion(read))|
  {
    Decodes8(cs, count);
    Room16Separately(Enc8(cs), count);
  }

  lemma OneCode(s: seq<u8>)
    requires ByteAt(s, 0) != 0
    ensures Codes8(s, 0, 1) == [GetCode(s, 0).0]
  {
  }

  /** The overlong form of NUL takes a unit nothing was reserved for. */
  lemma Room16Fails(s: seq<u8>)
    requires s == [0xE0, 0x80, 0x80]
    ensures Reserved(Width16, Codes8(s, 0, 1)) < |Enc16(OrQuestion(Codes8(s, 0, 1)))|
  {
    OneCode(s);
    ZeroRead(s, 0);
    assert Codes8(s, 0, 1)[0] == 0;
    Room16Separately(s, 1);
  }

  lemma TwoCodes(s: seq<u8>)
    requires ByteAt(s, 0) != 0 && ByteAt(s, GetCode(s, 0).1) != 0
    ensures Codes8(s, 0, 2) == [GetCode(s, 0).0, GetCode(s, GetCode(s, 0).1).0]
  {
    var get, more := (j: int) => GetCode(s, j), (j: int) => ByteAt(s, j) != 0;
    CodesStep(get, more, 0, 2);
    CodesStep(get, more, get(0).1, 1);
  }

  lemma Cancels(cs: seq<int>)
    requires cs == [0xD800, 0]
    ensures Spare(cs) == 1 && Unreserved(cs) == 1
  {
    assert cs[..1] == [0xD800] && cs[1..] == [0];
    assert FirstZero(cs[1..]) == 0 && FirstZero(cs) == 1;
    assert Unused(SpareUnits, cs[..1]) == 1 + Unused(SpareUnits, []);
    FlatOrQuestion(Put16, [0]);
    Written16(0);
    assert OrQuestion([0][1..]) == [];
  }

  /** An encoded surrogate in front of an overlong NUL makes up for it. */
  lemma Room16Agrees(s: seq<u8>)
    requires s == [0xED, 0xA0, 0x80, 0xE0, 0x80, 0x80]
    ensures Codes8(s, 0, 2) == [0xD800, 0]
    ensures Reserved(Width16, Codes8(s, 0, 2)) == |Enc16(OrQuestion(Codes8(s, 0, 2)))|
  {
    assert GetCode(s, 0) == (0xD800, 3);
    assert GetCode(s, 3) == (0, 6);
    TwoCodes(s);
    Cancels(Codes8(s, 0, 2));
    Room16(s, 2);
  }

  lemma Get16Writable(s: seq<u16>, i: int)
    requires UnitAt(s, i) != 0
    ensures var c := Get16(s, i).0; c != 0 && Written(Put8, c) == Width8(c)
  {
  }

  /** `utf16_utf8_strnlen` announces exactly what `utf16_utf8_strncpy` takes, on any units. */
  lemma Room8(src: seq<u16>, count: nat)
    ensures var cs := Codes16(src, 0, count); Reserved(Width8, cs) == |Enc8(OrQuestion(cs))|
  {
    var cs := Codes16(src, 0, count);
    forall c | c in cs ensures c != 0 && Written(Put8, c) == Width8(c) {
      var get, more := (j: int) => Get16(src, j), (j: int) => UnitAt(src, j) != 0;
      CodesAre(get, more, 0, count, c);
      var j :| more(j) && get(j).0 == c;
      Get16Writable(src, j);
    }
    var none := (c: int) => 0 as nat;
    RoomBalance(Width8, Put8, none, cs);
    NothingUnused(none, cs[..FirstZero(cs)]);
    assert forall i :: 0 <= i < |cs| ==> cs[i] in cs;
    NoZero(cs);
  }

  lemma Enc8Injective(cs: seq<nat>, ds: seq<nat>)
    requires Scalars(cs) && Scalars(ds) && Enc8(cs) == Enc8(ds)
    ensures cs == ds
  {
    var n := |cs| + |ds|;
    Decodes8(cs, n);
    Decodes8(ds, n);
    assert cs[..|cs|] == cs && ds[..|ds|] == ds;
  }

  /** UTF-8 to UTF-16 and back, through both loops, for at most `n` codes. */
  ghost function ThereAndBack(text: seq<u8>, n: nat): seq<u8> {
    Enc8(OrQuestion(Codes16(Enc16(OrQuestion(Codes8(text, 0, n))), 0, n)))
  }

  lemma ThereAndBackIs(cs: seq<nat>, n: nat)
    requires Scalars(cs) && n >= |cs|
    ensures ThereAndBack(Enc8(cs), n) == Enc8(OrQuestion(Images(AsRead, cs)))
  {
    Decodes8(cs, n);
    assert OrQuestion(cs) == cs;
    Decodes16(cs, n);
    var r := Images(AsRead, cs);
    assert cs[..|cs|] == cs && r[..|cs|] == r;
  }

  /**
   * The round trip is the identity on a text if and only if no scalar of it
   * has the low surrogate 0xDC00 or 0xDFFF.
   */
  lemma RoundTrip(cs: seq<nat>, n: nat)
    requires Scalars(cs) && n >= |cs|
    ensures ThereAndBack(Enc8(cs), n) == Enc8(cs) <==> forall i :: 0 <= i < |cs| ==> !Rejected(cs[i])
  {
    ThereAndBackIs(cs, n);
    var r := OrQuestion(Images(AsRead, cs));
    assert forall i :: 0 <= i < |cs| ==> r[i] == if Rejected(cs[i]) then QUESTION else cs[i];
    if Enc8(r) == Enc8(cs) {
      Enc8Injective(r, cs);
      forall i | 0 <= i < |cs| ensures !Rejected(cs[i]) { assert r[i] == cs[i]; }
    } else {
      assert r != cs;
    }
  }

  /** The smallest supplementary scalar comes back as a question mark. */
  lemma RoundTripFails(c: nat)
    requires c == 0x10000
    ensures ThereAndBack(Enc8([c]), 1) != Enc8([c])
  {
    RoundTrip([c], 1);
    assert Rejected([c][0]);
  }

  // ----- utf16_to_utf8, a separate state machine

  /** The bytes one unit adds when no high surrogate is pending. */
  function Plain(code: int): (r: seq<u8>)
    requires 0 <= code < 0x10000 && !(0xD800 <= code <= 0xDBFF)
  {
    if code <= 0x7F then [code]
    else if code <= 0x7FF then [0xC0 + code / 64, 0x80 + code % 64]
    else if 0xDC00 <= code <= 0xDFFF then [QUESTION]
    else [0xE0 + code / 0x1000, 0x80 + code / 64 % 64, 0x80 + code % 64]
  }

  function Pair(high: int, low: int): (r: seq<u8>)
    requires 0xD800 <= high <= 0xDBFF && 0xDC00 <= low <= 0xDFFF
  {
    var code := (high - 0xD800) * 0x400 + (low - 0xDC00) + 0x10000;
    [0xF0 + code / 0x40000, 0x80 + code / 0x1000 % 64, 0x80 + code / 64 % 64, 0x80 + code % 64]
  }

  /**
   * The bytes written in `n` turns from unit `i` on, `high` being the pending
   * high surrogate or 0. After a failed pair the unit is looked at again, at
   * the cost of a turn.
   */
  function Machine(s: seq<u16>, i: int, high: int, n: nat): (r: seq<u8>)
    requires high == 0 || 0xD800 <= high <= 0xDBFF
    decreases n
  {
    if n == 0 then []
    else
      var code := UnitAt(s, i);
      if high != 0 then
        if 0xDC00 <= code <= 0xDFFF then Pair(high, code) + Machine(s, i + 1, 0, n - 1)
        else [QUESTION] + Machine(s, i, 0, n - 1)
      else if 0xD800 <= code <= 0xDBFF then Machine(s, i + 1, code, n - 1)
      else Plain(code) + Machine(s, i + 1, 0, n - 1)
  }

  /** `utf16_to_utf8`. */
  method Utf16ToUtf8(src: seq<u16>, size: nat) returns (dest: seq<u8>)
    requires size <= |src|
    ensures dest == Machine(src, 0, 0, size)
  {
    dest := [];
    var i, n, high := 0, size, 0;
    while n > 0
      invariant 0 <= i && 0 <= n && i + n <= |src| && (high == 0 || 0xD800 <= high <= 0xDBFF)
      invariant dest + Machine(src, i, high, n) == Machine(src, 0, 0, size)
    {
      ghost var before, all := dest, Machine(src, i, high, n);
      var code := src[i];
      var out: seq<u8> := [];
      n := n - 1;
      i := i + 1;
      if high != 0 {
        if 0xDC00 <= code <= 0xDFFF {
          out := Pair(high, code);
        } else {
          out := [QUESTION];
          i := i - 1;
        }
        high := 0;
      } else if 0xD800 <= code <= 0xDBFF {
        high := code;
      } else {
        out := Plain(code);
      }
      dest := dest + out;
      assert all == out + Machine(src, i, high, n);
      Assoc(before, out, Machine(src, i, high, n));
    }
    assert dest + [] == dest;
  }

  /** Never more than three bytes a unit, whatever the input. */
  lemma {:induction false} MachineBound(s: seq<u16>, i: int, high: int, n: nat)
    requires high == 0 || 0xD800 <= high <= 0xDBFF
    ensures |Machine(s, i, high, n)| <= 3 * n + (if high == 0 || n == 0 then 0 else 1)
    decreases n
  {
    if n > 0 {
      var code := UnitAt(s, i);
      if high != 0 {
        MachineBound(s, i + 1, 0, n - 1);
        MachineBound(s, i, 0, n - 1);
      } else if 0xD800 <= code <= 0xDBFF {
        MachineBound(s, i + 1, code, n - 1);
      } else {
        MachineBound(s, i + 1, 0, n - 1);
      }
    }
  }

  /**
   * A surrogate on its own becomes a question mark: a low one in its turn, a
   * high one in two turns, which are not both left for the last unit.
   */
  lemma MachineLone(s: seq<u16>, i: int, n: nat)
    requires 0 <= i < |s| && n > 0 && 0xD800 <= s[i] <= 0xDFFF
    ensures s[i] >= 0xDC00 ==> Machine(s, i, 0, n) == [0x3F] + Machine(s, i + 1, 0, n - 1)
    ensures s[i] < 0xDC00 && !(0xDC00 <= UnitAt(s, i + 1) <= 0xDFFF) ==>
              Machine(s, i, 0, n) == if n == 1 then [] else [0x3F] + Machine(s, i + 1, 0, n - 2)
  {
    if s[i] < 0xDC00 {
      assert Machine(s, i, 0, n) == Machine(s, i + 1, s[i], n - 1);
    }
  }

  /** One scalar through the machine. */
  lemma MachineStep(s: seq<u16>, i: int, c: int, n: nat)
    requires ScalarValue(c) && At(s, i, Put16(c)) && n >= |Put16(c)|
    ensures Machine(s, i, 0, n) == Put8(c) + Machine(s, i + |Put16(c)|, 0, n - |Put16(c)|)
  {
    AtAll(s, i, Put16(c));
    if c >= 0x10000 {
      var high, low := 0xD800 + (c - 0x10000) / 0x400, 0xDC00 + (c - 0x10000) % 0x400;
      assert s[i] == high && s[i + 1] == low;
      SurrogatePair(c, high, low);
      assert Machine(s, i, 0, n) == Machine(s, i + 1, high, n - 1);
    }
  }

  lemma SurrogatePair(c: int, high: int, low: int)
    requires 0x10000 <= c < 0x110000
    requires high == 0xD800 + (c - 0x10000) / 0x400 && low == 0xDC00 + (c - 0x10000) % 0x400
    ensures 0xD800 <= high <= 0xDBFF && 0xDC00 <= low <= 0xDFFF && Pair(high, low) == Put8(c)
  {
  }

  lemma MachineTurns(s: seq<u16>, cs: seq<nat>)
    requires ScalarValues(cs)
    ensures TurnsPieces(Put16, Put8, s, (j: int, n: nat) => Machine(s, j, 0, n), cs)
  {
    forall j: int, n: nat, c: nat | c in cs && At(s, j, Put16(c)) && n >= |Put16(c)|
      ensures Machine(s, j, 0, n) == Put8(c) + Machine(s, j + |Put16(c)|, 0, n - |Put16(c)|)
    {
      MachineStep(s, j, c, n);
    }
  }

  /** On well-formed UTF-16, NUL units included, it writes the text in UTF-8. */
  lemma MachineTranscodes(cs: seq<nat>)
    requires ScalarValues(cs)
    ensures Machine(Enc16(cs), 0, 0, |Enc16(cs)|) == Enc8(cs)
  {
    var s := Enc16(cs);
    MachineTurns(s, cs);
    assert At(s, 0, s) by { assert s[0..|s|] == s; }
    TranscodesFlat(Put16, Put8, s, (j: int, n: nat) => Machine(s, j, 0, n), 0, cs);
  }
}
