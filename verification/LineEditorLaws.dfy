/**
 * What the keys of the line editor do, key string by key string: each law
 * compares the line, the cursor and the place in the history before and after.
 */
module LineEditorLaws {
  import opened Wrappers
  import opened LineEditorSpec
  import Terminal

  /** Between two keys, with no escape sequence begun. */
  predicate Idle(s: Session) {
    s.status == Editing && s.pending == "" && 0 <= s.past.back <= |s.past.stored| && s.past.back <= 19
  }

  /** The session with another line and cursor in it, and nothing else changed. */
  ghost predicate Becomes(s: Session, t: Session, text: string, cursor: int) {
    && t.doc.left + t.doc.right == text && |t.doc.left| == cursor && t.doc.insert == s.doc.insert
    && t.pending == s.pending && t.past == s.past && t.status == s.status
  }

  /** The session with a line of the history in it, and the cursor behind it. */
  ghost predicate Shows(s: Session, t: Session, line: string, back: int) {
    && Becomes(s.(past := s.past.(back := back)), t, line, |line|)
  }

  function Text(s: Session): string {
    s.doc.left + s.doc.right
  }

  function Cursor(s: Session): int {
    |s.doc.left|
  }

  /** Keys that mean the same inside an escape sequence. */
  predicate Ends(c: char) {
    c == '\0' || c == '\n' || c == '\r'
  }

  // ----- runs

  /** Keys may be given in pieces. */
  lemma {:induction false} RunAppend(s: Session, keys: string, more: string, cap: int)
    requires PastOk(s.past)
    ensures PastOk(Run(s, keys, cap).past) && Run(s, keys + more, cap) == Run(Run(s, keys, cap), more, cap)
    decreases |keys|
  {
    var all := keys + more;
    if keys == "" {
      assert all == more;
    } else {
      StepKeepsPast(s, keys[0], cap);
      assert all[0] == keys[0] && all[1..] == keys[1..] + more;
      RunAppend(Step(s, keys[0], cap), keys[1..], more, cap);
    }
  }

  lemma OneKey(s: Session, c: char, cap: int)
    requires PastOk(s.past)
    ensures Run(s, [c], cap) == Step(s, c, cap)
  {
    StepKeepsPast(s, c, cap);
    assert [c][1..] == "";
  }

  lemma NextKey(s: Session, keys: string, cap: int)
    requires PastOk(s.past) && keys != ""
    ensures PastOk(Step(s, keys[0], cap).past) && Run(s, keys, cap) == Run(Step(s, keys[0], cap), keys[1..], cap)
  {
    StepKeepsPast(s, keys[0], cap);
  }

  /** The opening of an escape sequence only waits for more. */
  lemma Opening(s: Session, b: char, rest: string, cap: int)
    requires Idle(s) && (b == '[' || b == 'O')
    ensures Run(s, [ESC, b] + rest, cap) == Run(s.(pending := [ESC, b]), rest, cap)
  {
    var keys := [ESC, b] + rest;
    var t := s.(pending := [ESC]);
    NextKey(s, keys, cap);
    assert keys[1..] == [b] + rest;
    NextKey(t, [b] + rest, cap);
    assert ([b] + rest)[1..] == rest && [ESC] + [b] == [ESC, b];
  }

  /** ESC, a bracket or an O, and a letter. */
  lemma Arrow(s: Session, b: char, c: char, cap: int)
    requires Idle(s) && (b == '[' || b == 'O')
    ensures Run(s, [ESC, b, c], cap) == Step(s.(pending := [ESC, b]), c, cap)
  {
    Opening(s, b, [c], cap);
    assert [ESC, b] + [c] == [ESC, b, c];
    OneKey(s.(pending := [ESC, b]), c, cap);
  }

  /** So does the digit of a longer sequence. */
  lemma Digit(s: Session, d: char, c: char, cap: int)
    requires Idle(s) && d in "13478"
    ensures Run(s.(pending := [ESC, '[']), [d, c], cap) == Step(s.(pending := [ESC, '[', d]), c, cap)
  {
    NextKey(s.(pending := [ESC, '[']), [d, c], cap);
    assert [d, c][1..] == [c] && [ESC, '['] + [d] == [ESC, '[', d];
    OneKey(s.(pending := [ESC, '[', d]), c, cap);
  }

  /** ESC, a bracket, a digit and a last character. */
  lemma Numbered(s: Session, d: char, c: char, cap: int)
    requires Idle(s) && d in "13478"
    ensures Run(s, [ESC, '[', d, c], cap) == Step(s.(pending := [ESC, '[', d]), c, cap)
  {
    Opening(s, '[', [d, c], cap);
    assert [ESC, '['] + [d, c] == [ESC, '[', d, c];
    Digit(s, d, c, cap);
  }

  /** A control code. */
  lemma CodeKey(s: Session, c: char, cmd: Command, cap: int)
    requires Idle(s) && Binding(c) == cmd && !cmd.Literal?
    ensures Run(s, [c], cap) == Apply(s, cmd, cap)
  {
    OneKey(s, c, cap);
  }

  /** A key of three characters. */
  lemma ArrowKey(s: Session, b: char, c: char, cmd: Command, cap: int)
    requires Idle(s) && (b == '[' || b == 'O') && !Ends(c) && EscapeAction([ESC, b], c) == Converted(cmd)
    ensures Run(s, [ESC, b, c], cap) == Apply(s, cmd, cap)
  {
    Arrow(s, b, c, cap);
    assert s.(pending := [ESC, b]).(pending := "") == s;
  }

  /** A key of four characters. */
  lemma NumberedKey(s: Session, d: char, cmd: Command, cap: int)
    requires Idle(s) && d in "13478" && EscapeAction([ESC, '[', d], '~') == Converted(cmd)
    ensures Run(s, [ESC, '[', d, '~'], cap) == Apply(s, cmd, cap)
  {
    Numbered(s, d, '~', cap);
    assert s.(pending := [ESC, '[', d]).(pending := "") == s;
  }

  // ----- moving

  lemma MovesLeft(s: Session, cap: int)
    requires Idle(s)
    ensures Becomes(s, Apply(s, Left, cap), Text(s), if Cursor(s) > 0 then Cursor(s) - 1 else 0)
  {
  }

  lemma MovesRight(s: Session, cap: int)
    requires Idle(s)
    ensures Becomes(s, Apply(s, Right, cap), Text(s), if Cursor(s) < |Text(s)| then Cursor(s) + 1 else Cursor(s))
  {
  }

  lemma MovesToAnEnd(s: Session, cap: int)
    requires Idle(s)
    ensures Becomes(s, Apply(s, Home, cap), Text(s), 0) && Becomes(s, Apply(s, End, cap), Text(s), |Text(s)|)
  {
    assert "" + Text(s) == Text(s) == Text(s) + "";
  }

  /** Control-B and the left arrow. */
  lemma LeftKeys(s: Session, keys: string, cap: int)
    requires Idle(s) && (keys == "\U{2}" || keys == "\U{1B}[D" || keys == "\U{1B}OD")
    ensures Becomes(s, Run(s, keys, cap), Text(s), if Cursor(s) > 0 then Cursor(s) - 1 else 0)
  {
    MovesLeft(s, cap);
    if |keys| == 1 { CodeKey(s, keys[0], Left, cap); } else { ArrowKey(s, keys[1], 'D', Left, cap); }
  }

  /** Control-F and the right arrow. */
  lemma RightKeys(s: Session, keys: string, cap: int)
    requires Idle(s) && (keys == "\U{6}" || keys == "\U{1B}[C" || keys == "\U{1B}OC")
    ensures Becomes(s, Run(s, keys, cap), Text(s), if Cursor(s) < |Text(s)| then Cursor(s) + 1 else Cursor(s))
  {
    MovesRight(s, cap);
    if |keys| == 1 { CodeKey(s, keys[0], Right, cap); } else { ArrowKey(s, keys[1], 'C', Right, cap); }
  }

  /** Control-A and the Home keys. */
  lemma HomeKeys(s: Session, keys: string, cap: int)
    requires Idle(s)
    requires keys == "\U{1}" || keys == "\U{1B}[H" || keys == "\U{1B}OH" || keys == "\U{1B}[1~" || keys == "\U{1B}[7~"
    ensures Becomes(s, Run(s, keys, cap), Text(s), 0)
  {
    MovesToAnEnd(s, cap);
    if |keys| == 1 {
      CodeKey(s, keys[0], Home, cap);
    } else if |keys| == 3 {
      ArrowKey(s, keys[1], 'H', Home, cap);
    } else {
      NumberedKey(s, keys[2], Home, cap);
    }
  }

  /** Control-E and the End keys. */
  lemma EndKeys(s: Session, keys: string, cap: int)
    requires Idle(s)
    requires keys == "\U{5}" || keys == "\U{1B}[F" || keys == "\U{1B}OF" || keys == "\U{1B}[4~" || keys == "\U{1B}[8~"
    ensures Becomes(s, Run(s, keys, cap), Text(s), |Text(s)|)
  {
    MovesToAnEnd(s, cap);
    if |keys| == 1 {
      CodeKey(s, keys[0], End, cap);
    } else if |keys| == 3 {
      ArrowKey(s, keys[1], 'F', End, cap);
    } else {
      NumberedKey(s, keys[2], End, cap);
    }
  }

  // ----- deleting

  /** Control-D and the Delete key. */
  lemma DeleteKeys(s: Session, keys: string, cap: int)
    requires Idle(s) && (keys == "\U{4}" || keys == "\U{1B}[3~")
    ensures var i, text := Cursor(s), Text(s);
            Becomes(s, Run(s, keys, cap), if i < |text| then text[..i] + text[i + 1..] else text, i)
  {
    if |keys| == 1 { CodeKey(s, keys[0], DeleteRight, cap); } else { NumberedKey(s, '3', DeleteRight, cap); }
  }

  /** Backspace and both DEL codes. */
  lemma BackspaceKeys(s: Session, keys: string, cap: int)
    requires Idle(s) && (keys == "\U{8}" || keys == "\U{7F}" || keys == "\U{FF}")
    ensures var i, text := Cursor(s), Text(s);
            if i == 0 then Run(s, keys, cap) == s
            else Becomes(s, Run(s, keys, cap), text[..i - 1] + text[i..], i - 1)
  {
    CodeKey(s, keys[0], DeleteLeft, cap);
  }

  /** Control-K. */
  lemma KillKey(s: Session, cap: int)
    requires Idle(s)
    ensures Becomes(s, Run(s, "\U{B}", cap), Text(s)[..Cursor(s)], Cursor(s))
  {
    CodeKey(s, '\U{B}', KillRight, cap);
  }

  /** Control-U and control-X. */
  lemma KillLineKeys(s: Session, keys: string, cap: int)
    requires Idle(s) && (keys == "\U{15}" || keys == "\U{18}")
    ensures Becomes(s, Run(s, keys, cap), "", 0)
  {
    CodeKey(s, keys[0], KillLine, cap);
  }

  // ----- history

  lemma Steps(s: Session, cap: int)
    requires Idle(s)
    ensures var p := s.past;
            if p.active && p.back < |p.stored| && p.back < 19
            then Shows(s, Apply(s, Older, cap), p.stored[|p.stored| - 1 - p.back], p.back + 1)
            else Apply(s, Older, cap) == s
    ensures var p := s.past;
            if p.active && p.back > 0
            then Shows(s, Apply(s, Newer, cap), if p.back == 1 then "" else p.stored[|p.stored| - p.back + 1],
                       p.back - 1)
            else Apply(s, Newer, cap) == s
  {
  }

  /** Control-P and the up arrow: one stored line further back, of at most 19. */
  lemma OlderKeys(s: Session, keys: string, cap: int)
    requires Idle(s) && (keys == "\U{10}" || keys == "\U{1B}[A" || keys == "\U{1B}OA")
    ensures var p := s.past;
            if p.active && p.back < |p.stored| && p.back < 19
            then Shows(s, Run(s, keys, cap), p.stored[|p.stored| - 1 - p.back], p.back + 1)
            else Run(s, keys, cap) == s
  {
    Steps(s, cap);
    if |keys| == 1 { CodeKey(s, keys[0], Older, cap); } else { ArrowKey(s, keys[1], 'A', Older, cap); }
  }

  /** Control-N and the down arrow: one stored line less back, and the empty line in front of them all. */
  lemma NewerKeys(s: Session, keys: string, cap: int)
    requires Idle(s) && (keys == "\U{E}" || keys == "\U{1B}[B" || keys == "\U{1B}OB")
    ensures var p := s.past;
            if p.active && p.back > 0
            then Shows(s, Run(s, keys, cap), if p.back == 1 then "" else p.stored[|p.stored| - p.back + 1], p.back - 1)
            else Run(s, keys, cap) == s
  {
    Steps(s, cap);
    if |keys| == 1 { CodeKey(s, keys[0], Newer, cap); } else { ArrowKey(s, keys[1], 'B', Newer, cap); }
  }

  // ----- modes and the end of the line

  /** Control-O. */
  lemma ToggleKey(s: Session, cap: int)
    requires Idle(s)
    ensures Run(s, "\U{F}", cap) == s.(doc := s.doc.(insert := !s.doc.insert))
  {
    OneKey(s, '\U{F}', cap);
  }

  /** Control-C. */
  lemma AbortKey(s: Session, cap: int)
    requires Idle(s)
    ensures Run(s, "\U{3}", cap) == s.(status := Aborted)
  {
    OneKey(s, '\U{3}', cap);
  }

  /** A line end accepts the line as it is, even inside an escape sequence. */
  lemma AcceptKeys(s: Session, keys: string, cap: int)
    requires PastOk(s.past) && s.status == Editing && (keys == "\n" || keys == "\r")
    ensures Run(s, keys, cap) == s.(status := Accepted)
  {
    OneKey(s, keys[0], cap);
  }

  /** A NUL does nothing, even inside an escape sequence. */
  lemma NulKey(s: Session, cap: int)
    requires PastOk(s.past)
    ensures Run(s, "\0", cap) == s
  {
    OneKey(s, '\0', cap);
  }

  /** Nothing is read behind the end of the line. */
  lemma {:induction false} NoKeyAfterTheEnd(s: Session, keys: string, cap: int)
    requires PastOk(s.past) && s.status != Editing
    ensures Run(s, keys, cap) == s
    decreases |keys|
  {
    if keys != "" {
      NextKey(s, keys, cap);
      NoKeyAfterTheEnd(s, keys[1..], cap);
    }
  }

  // ----- typing

  /** The codes with a meaning of their own; every other character is typed. */
  predicate HasMeaning(c: char) {
    c as int in {0, 1, 2, 3, 4, 5, 6, 8, 10, 11, 13, 14, 15, 16, 21, 24, 27, 127, 255}
  }

  /** How many of `n` characters there is room for. */
  function Taken(insert: bool, length: int, cursor: int, n: int, cap: int): int {
    var most := (if insert then 0 else length - cursor) + (if length < cap then cap - length else 0);
    if n < most then n else most
  }

  /**
   * `typed` into a line of at most `cap` with the cursor at `i`: inserted, or
   * written over what stands there, as far as there is room, and the rest is
   * dropped.
   */
  function Typed(text: string, i: nat, insert: bool, typed: string, cap: int): (string, int)
    requires i <= |text|
  {
    var n := Taken(insert, |text|, i, |typed|, cap);
    var end := if insert then i else if i + n < |text| then i + n else |text|;
    (text[..i] + typed[..n] + text[end..], i + n)
  }

  ghost predicate Types(s: Session, t: Session, typed: string, cap: int) {
    var r := Typed(Text(s), Cursor(s), s.doc.insert, typed, cap);
    Becomes(s, t, r.0, r.1)
  }

  lemma TypesOne(s: Session, t: Session, c: char, cap: int)
    requires t == s.(doc := TypeChar(s.doc, c, cap))
    ensures Types(s, t, [c], cap)
  {
    var i, text := Cursor(s), Text(s);
    assert [c][..1] == [c] && [c][..0] == "";
    assert text[..i] == s.doc.left && text[i..] == s.doc.right;
    if !s.doc.insert && s.doc.right != "" { assert text[i + 1..] == s.doc.right[1..]; }
  }

  lemma InsertedMore(text: string, i: nat, c: char, rest: string, cap: int)
    requires i <= |text|
    ensures var r := Typed(text, i, true, [c], cap);
            i <= r.1 <= |r.0| && Typed(r.0, r.1, true, rest, cap) == Typed(text, i, true, [c] + rest, cap)
  {
    var r, n := Typed(text, i, true, [c], cap), Taken(true, |text|, i, 1, cap);
    var m := Taken(true, |r.0|, r.1, |rest|, cap);
    if n == 0 {
      assert r.0 == text && rest[..0] == ([c] + rest)[..0];
    } else {
      assert [c][..1] == [c] && r.0[..i + 1] == text[..i] + [c] && r.0[i + 1..] == text[i..];
      assert ([c] + rest)[..m + 1] == [c] + rest[..m];
      assert (text[..i] + [c]) + rest[..m] + text[i..] == text[..i] + ([c] + rest[..m]) + text[i..];
    }
  }

  lemma OverwrittenMore(text: string, i: nat, c: char, rest: string, cap: int)
    requires i <= |text|
    ensures var r := Typed(text, i, false, [c], cap);
            i <= r.1 <= |r.0| && Typed(r.0, r.1, false, rest, cap) == Typed(text, i, false, [c] + rest, cap)
  {
    var r, n := Typed(text, i, false, [c], cap), Taken(false, |text|, i, 1, cap);
    var m := Taken(false, |r.0|, r.1, |rest|, cap);
    if n == 0 {
      assert r.0 == text && rest[..0] == ([c] + rest)[..0];
    } else {
      var end, last := if i + 1 + m < |text| then i + 1 + m else |text|, if i + 1 + m < |r.0| then i + 1 + m else |r.0|;
      assert [c][..1] == [c] && r.0[..i + 1] == text[..i] + [c] && r.0[last..] == text[end..];
      assert ([c] + rest)[..m + 1] == [c] + rest[..m];
      assert (text[..i] + [c]) + rest[..m] + text[end..] == text[..i] + ([c] + rest[..m]) + text[end..];
    }
  }

  /** What is typed in two pieces is typed. */
  lemma TypesMore(s: Session, t: Session, u: Session, c: char, rest: string, cap: int)
    requires Types(s, t, [c], cap) && Types(t, u, rest, cap)
    ensures Types(s, u, [c] + rest, cap)
  {
    if s.doc.insert {
      InsertedMore(Text(s), Cursor(s), c, rest, cap);
    } else {
      OverwrittenMore(Text(s), Cursor(s), c, rest, cap);
    }
  }

  lemma {:induction false} TypesAll(s: Session, typed: string, cap: int)
    ensures Types(s, s.(doc := TypeAll(s.doc, typed, cap)), typed, cap)
    decreases |typed|
  {
    if typed == "" {
      var i, text := Cursor(s), Text(s);
      assert text == text[..i] + "" + text[i..];
    } else {
      var t := s.(doc := TypeChar(s.doc, typed[0], cap));
      TypesOne(s, t, typed[0], cap);
      TypesAll(t, typed[1..], cap);
      TypesMore(s, t, s.(doc := TypeAll(s.doc, typed, cap)), typed[0], typed[1..], cap);
      assert typed == [typed[0]] + typed[1..];
    }
  }

  /** Any character without a meaning of its own. */
  lemma TypeKey(s: Session, c: char, cap: int)
    requires Idle(s) && !HasMeaning(c)
    ensures Types(s, Run(s, [c], cap), [c], cap)
  {
    OneKey(s, c, cap);
    TypesOne(s, Run(s, [c], cap), c, cap);
  }

  /** An escape sequence that is none: its last character shows it. */
  predicate NoSequence(keys: string) {
    && |keys| > 1 && keys[0] == '\U{1B}' && !Ends(keys[|keys| - 1])
    && (|keys| == 2 ==> keys[1] !in "[O")
    && (|keys| == 3 ==> keys[1] in "[O" && keys[2] !in "ABCDFH" && (keys[1] == '[' ==> keys[2] !in "13478"))
    && (|keys| >= 4 ==> |keys| == 4 && keys[1] == '[' && keys[2] in "13478" && keys[3] != '~')
  }

  lemma RejectTypes(s: Session, pending: string, c: char, cap: int)
    requires Idle(s) && pending != "" && EscapeAction(pending, c) == Reject && !Ends(c)
    ensures Types(s, Step(s.(pending := pending), c, cap), pending + [c], cap)
  {
    TypesAll(s, pending + [c], cap);
  }

  lemma TwoKeys(s: Session, c: char, cap: int)
    requires Idle(s)
    ensures Run(s, [ESC, c], cap) == Step(s.(pending := [ESC]), c, cap)
  {
    NextKey(s, [ESC, c], cap);
    assert [ESC, c][1..] == [c];
    OneKey(s.(pending := [ESC]), c, cap);
  }

  /** Keys that turn out to be no escape sequence are typed as they are. */
  lemma NoSequenceTypes(s: Session, keys: string, cap: int)
    requires Idle(s) && NoSequence(keys)
    ensures Types(s, Run(s, keys, cap), keys, cap)
  {
    if |keys| == 2 {
      assert keys == [ESC, keys[1]] == [ESC] + [keys[1]];
      TwoKeys(s, keys[1], cap);
      RejectTypes(s, [ESC], keys[1], cap);
    } else if |keys| == 3 {
      assert keys == [ESC, keys[1], keys[2]] == [ESC, keys[1]] + [keys[2]];
      Arrow(s, keys[1], keys[2], cap);
      RejectTypes(s, [ESC, keys[1]], keys[2], cap);
    } else {
      assert keys == [ESC, '[', keys[2], keys[3]] == [ESC, '[', keys[2]] + [keys[3]];
      Numbered(s, keys[2], keys[3], cap);
      RejectTypes(s, [ESC, '[', keys[2]], keys[3], cap);
    }
  }

  // ----- what stays on display

  lemma PlainNext(s: Session, keys: string, cap: int)
    requires PastOk(s.past) && keys != "" && Plain(s, keys[0], cap)
    ensures PastOk(Step(s, keys[0], cap).past)
    ensures AllPlain(s, keys, cap) == AllPlain(Step(s, keys[0], cap), keys[1..], cap)
  {
    StepKeepsPast(s, keys[0], cap);
  }

  lemma {:induction false} PlainAppend(s: Session, keys: string, more: string, cap: int)
    requires PastOk(s.past) && AllPlain(s, keys, cap)
    ensures PastOk(Run(s, keys, cap).past)
    ensures AllPlain(s, keys + more, cap) == AllPlain(Run(s, keys, cap), more, cap)
    decreases |keys|
  {
    var all := keys + more;
    if keys == "" {
      assert all == more;
    } else {
      StepKeepsPast(s, keys[0], cap);
      assert all[0] == keys[0] && all[1..] == keys[1..] + more;
      PlainNext(s, all, cap);
      PlainAppend(Step(s, keys[0], cap), keys[1..], more, cap);
    }
  }

  /** A printable character, a control code that edits the line, or a cursor key. */
  predicate Keystroke(k: string) {
    || (|k| == 1 && (' ' <= k[0] <= '~' || k[0] as int in {1, 2, 4, 5, 6, 8, 11, 15, 21, 24, 127, 255}))
    || (|k| == 3 && k[0] == '\U{1B}' && (k[1] == '[' || k[1] == 'O') && k[2] in "CDFH")
    || (|k| == 4 && k[0] == '\U{1B}' && k[1] == '[' && k[2] in "13478" && k[3] == '~')
  }

  /** The session is ready for the next keystroke, its line at most one longer. */
  ghost predicate Ready(s: Session, t: Session) {
    Idle(t) && |Text(t)| <= |Text(s)| + 1
  }

  lemma SinglePlain(s: Session, c: char, cap: int)
    requires Idle(s) && Keystroke([c]) && |Text(s)| + 1 < 1024
    ensures AllPlain(s, [c], cap) && Ready(s, Run(s, [c], cap))
  {
    PlainNext(s, [c], cap);
    OneKey(s, c, cap);
  }

  lemma OpenedPlain(s: Session, b: char, rest: string, cap: int)
    requires Idle(s) && (b == '[' || b == 'O')
    ensures AllPlain(s.(pending := [ESC]), [b] + rest, cap) == AllPlain(s.(pending := [ESC, b]), rest, cap)
  {
    PlainNext(s.(pending := [ESC]), [b] + rest, cap);
    assert ([b] + rest)[1..] == rest && [ESC] + [b] == [ESC, b];
  }

  lemma OpeningPlain(s: Session, b: char, rest: string, cap: int)
    requires Idle(s) && (b == '[' || b == 'O')
    ensures AllPlain(s, [ESC, b] + rest, cap) == AllPlain(s.(pending := [ESC, b]), rest, cap)
  {
    var keys := [ESC, b] + rest;
    PlainNext(s, keys, cap);
    assert keys[1..] == [b] + rest;
    OpenedPlain(s, b, rest, cap);
  }

  lemma ArrowPlain(s: Session, b: char, c: char, cap: int)
    requires Idle(s) && (b == '[' || b == 'O') && c in "CDFH"
    ensures AllPlain(s, [ESC, b, c], cap)
  {
    OpeningPlain(s, b, [c], cap);
    assert [ESC, b] + [c] == [ESC, b, c];
    PlainNext(s.(pending := [ESC, b]), [c], cap);
  }

  lemma DigitPlain(s: Session, d: char, cap: int)
    requires Idle(s) && d in "13478"
    ensures AllPlain(s.(pending := [ESC, '[']), [d, '~'], cap)
  {
    PlainNext(s.(pending := [ESC, '[']), [d, '~'], cap);
    assert [d, '~'][1..] == ['~'] && [ESC, '['] + [d] == [ESC, '[', d];
    PlainNext(s.(pending := [ESC, '[', d]), ['~'], cap);
  }

  lemma NumberedPlain(s: Session, d: char, cap: int)
    requires Idle(s) && d in "13478"
    ensures AllPlain(s, [ESC, '[', d, '~'], cap)
  {
    OpeningPlain(s, '[', [d, '~'], cap);
    assert [ESC, '['] + [d, '~'] == [ESC, '[', d, '~'];
    DigitPlain(s, d, cap);
  }

  lemma ArrowReady(s: Session, b: char, c: char, cap: int)
    requires Idle(s) && (b == '[' || b == 'O') && c in "CDFH"
    ensures Ready(s, Run(s, [ESC, b, c], cap))
  {
    Arrow(s, b, c, cap);
  }

  lemma NumberedReady(s: Session, d: char, cap: int)
    requires Idle(s) && d in "13478"
    ensures Ready(s, Run(s, [ESC, '[', d, '~'], cap))
  {
    Numbered(s, d, '~', cap);
  }

  lemma KeystrokePlain(s: Session, k: string, cap: int)
    requires Idle(s) && Keystroke(k) && |Text(s)| + 1 < 1024
    ensures AllPlain(s, k, cap) && Ready(s, Run(s, k, cap))
  {
    if |k| == 1 {
      assert k == [k[0]];
      SinglePlain(s, k[0], cap);
    } else if |k| == 3 {
      assert k == [ESC, k[1], k[2]];
      ArrowPlain(s, k[1], k[2], cap);
      ArrowReady(s, k[1], k[2], cap);
    } else {
      assert k == [ESC, '[', k[2], '~'];
      NumberedPlain(s, k[2], cap);
      NumberedReady(s, k[2], cap);
    }
  }

  ghost function Joined(ks: seq<string>): string {
    if ks == [] then "" else ks[0] + Joined(ks[1..])
  }

  /** Keystrokes that edit a line shorter than the print buffer keep the row and the cursor on display. */
  lemma {:induction false} KeystrokesPlain(s: Session, ks: seq<string>, cap: int)
    requires Idle(s) && (forall i :: 0 <= i < |ks| ==> Keystroke(ks[i])) && |Text(s)| + |ks| < 1024
    ensures AllPlain(s, Joined(ks), cap)
    decreases |ks|
  {
    if ks != [] {
      KeystrokePlain(s, ks[0], cap);
      KeystrokesPlain(Run(s, ks[0], cap), ks[1..], cap);
      PlainAppend(s, ks[0], Joined(ks[1..]), cap);
    }
  }
}
