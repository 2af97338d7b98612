/**
 * The line editor (common/cli_readline.c): a buffer, a cursor and incremental
 * terminal output, proved to follow the ideal editor key by key and to keep
 * the terminal row equal to the text.
 */
module LineEditor {
  import opened Terminal
  import opened LineEditorSpec
  import opened Wrappers
  import History

  /** What `printf` sends of a string. */
  function Printed(s: string): string {
    if |s| < PBSIZE then s else s[..PBSIZE - 1]
  }

  function Spaces(n: int): (s: string)
    ensures n >= 0 ==> |s| == n
    ensures AllPrintable(s) && forall i :: 0 <= i < |s| ==> s[i] == ' '
    decreases n
  {
    if n <= 0 then "" else " " + Spaces(n - 1)
  }

  /** `memmove(&buf[dst], &buf[src], n)`. */
  function MemMove(buf: string, dst: int, src: int, n: int): (r: string)
    requires 0 <= n && 0 <= dst && 0 <= src && dst + n <= |buf| && src + n <= |buf|
    ensures |r| == |buf|
  {
    buf[..dst] + buf[src..src + n] + buf[dst + n..]
  }

  // ----- what each piece of output does to the display

  lemma InsertShows(t: Terminal, left: string, right: string, c: char)
    requires Shows(t, left + right, |left|) && AllPrintable(right) && Printable(c)
    ensures Shows(PutBack(PutAll(t, [c] + right), |right|), left + [c] + right, |left| + 1)
  {
    var s := [c] + right;
    PrintShows(t, left + right, |left|, s);
    assert (left + right)[..|left|] + s == left + [c] + right;
    BackShows(PutAll(t, s), left + [c] + right, |left| + |s|, |right|);
  }

  lemma OverwriteShows(t: Terminal, left: string, right: string, c: char)
    requires Shows(t, left + right, |left|) && Printable(c) && right != ""
    ensures Shows(PutAll(t, [c]), left + [c] + right[1..], |left| + 1)
  {
    PutAllOverwrites(t, [c]);
    var u, text := PutAll(t, [c]), left + right;
    var text' := left + [c] + right[1..];
    forall i | 0 <= i < |text'| ensures u.row[i] == text'[i] {
      if i != |left| { assert u.row[i] == t.row[i] && t.row[..|text|][i] == text[i] == text'[i]; }
    }
    assert u.row[..|text'|] == text';
    forall i | |text'| <= i < |u.row| ensures u.row[i] == ' ' {
      assert u.row[i] == t.row[i];
    }
  }

  /** Reprinting the rest of a line that has become one shorter, with a blank over its last column. */
  lemma CloseGapShows(t: Terminal, left: string, gone: char, right: string)
    requires Shows(t, left + [gone] + right, |left|) && AllPrintable(right)
    ensures Shows(PutBack(PutAll(t, right + " "), |right| + 1), left + right, |left|)
  {
    var s := right + " ";
    PrintShows(t, left + [gone] + right, |left|, s);
    assert (left + [gone] + right)[..|left|] + s == (left + right) + " ";
    BackShows(PutAll(t, s), (left + right) + " ", |left| + |s|, |s|);
    TrimShows(PutBack(PutAll(t, s), |s|), left + right, " ", |left|);
  }

  lemma EraseShows(t: Terminal, left: string, right: string)
    requires Shows(t, left + right, |left|)
    ensures Shows(PutBack(PutAll(t, Spaces(|right|)), |right|), left, |left|)
  {
    var s := Spaces(|right|);
    PrintShows(t, left + right, |left|, s);
    assert (left + right)[..|left|] == left;
    BackShows(PutAll(t, s), left + s, |left| + |s|, |s|);
    TrimShows(PutBack(PutAll(t, s), |s|), left, s, |left|);
  }

  lemma ReprintShows(t: Terminal, left: string, right: string)
    requires Shows(t, left + right, |left|) && AllPrintable(right)
    ensures Shows(PutAll(t, right), left + right, |left| + |right|)
  {
    PrintShows(t, left + right, |left|, right);
    assert (left + right)[..|left|] + right == left + right;
  }

  lemma PutAllAppend(t: Terminal, s: string, c: char)
    requires 0 <= t.col <= |t.row| && AllPrintable(s) && Printable(c)
    ensures PutAll(t, s + [c]) == Put(PutAll(t, s), c)
  {
    PutAllOverwrites(t, s);
    PutAllOverwrites(t, s + [c]);
    var u := PutAll(t, s);
    assert Printable(c);
    assert Overwrite(t.row, t.col, s + [c]) == Put(u, c).row;
  }

  // ----- the editor

  ghost predicate NoNul(s: string) {
    forall i :: 0 <= i < |s| ==> s[i] as int != 0
  }

  /** While only one-column characters were typed into a short line, the row shows the text and the cursor. */
  ghost predicate ScreenOk(term: Terminal, d: Doc, clean: bool) {
    clean ==> Short(d) && AllPrintable(d.left) && AllPrintable(d.right) && Shows(term, d.left + d.right, |d.left|)
  }

  /** A stored line fits the buffer. */
  ghost predicate Fits(line: string, len: int) {
    |line| <= len && NoNul(line)
  }

  class Editor {
    const len: int
    const hist: History.History
    var buf: string
    var num: int
    var eol: int
    var insert: bool
    var escSave: string
    var term: Terminal
    ghost var clean: bool

    ghost predicate Shape()
      reads this
    {
      |buf| == len + 1 && 0 <= num <= eol <= len && |escSave| <= 3
    }

    ghost function Doc(): Doc
      requires Shape()
      reads this
    {
      LineEditorSpec.Doc(buf[..num], buf[num..eol], insert)
    }

    /** The text is NUL-free and on display. */
    ghost predicate Body()
      reads this
    {
      Shape() && NoNul(buf[..eol]) && ScreenOk(term, Doc(), clean)
    }

    ghost predicate Valid()
      reads this, hist
    {
      && Body() && NoNul(escSave) && (escSave != "" ==> escSave[0] == ESC)
      && hist.Valid() && forall i :: 0 <= i < |hist.stored| ==> Fits(hist.stored[i], len)
    }

    /** `cread_line` on entry, with an empty line on a blank row. */
    constructor (len: int, hist: History.History)
      requires len >= 0 && hist.Valid() && forall i :: 0 <= i < |hist.stored| ==> Fits(hist.stored[i], len)
      ensures Valid() && clean && this.len == len && this.hist == hist
      ensures Doc() == LineEditorSpec.Doc("", "", true) && escSave == ""
    {
      this.len, this.hist := len, hist;
      buf := seq(len + 1, _ => '\0');
      num, eol, insert, escSave := 0, 0, true, "";
      term := Terminal("", 0, 0);
      clean := true;
    }

    /** Lines 254-257: the buffer already holds a line, which is typed into it from itself. */
    constructor Prefilled(len: int, hist: History.History, initial: string)
      requires hist.Valid() && forall i :: 0 <= i < |hist.stored| ==> Fits(hist.stored[i], len)
      requires Fits(initial, len)
      ensures Valid() && this.len == len && this.hist == hist && clean == (AllPrintable(initial) && |initial| < PBSIZE)
      ensures Doc() == LineEditorSpec.Doc(initial, "", true) && escSave == ""
    {
      this.len, this.hist := len, hist;
      buf := initial + seq(len + 1 - |initial|, _ => '\0');
      num, eol, insert, escSave := 0, 0, true, "";
      term := Terminal("", 0, 0);
      clean := true;
      new;
      assert buf[0..|initial|] == initial;
      var i := 0;
      while i < |initial|
        invariant 0 <= i <= |initial| && Body() && eol == i && escSave == "" && hist.Valid()
        invariant Doc() == LineEditorSpec.Doc(initial[..i], "", true) && buf[i..|initial|] == initial[i..]
        invariant clean == (AllPrintable(initial[..i]) && i < PBSIZE)
        modifies this`buf, this`num, this`eol, this`term, this`clean
      {
        TypeLast(initial, i, len);
        ghost var before := buf;
        assert buf[i..|initial|][0] == initial[i..][0];
        AddChar(buf[i]);
        assert |Doc().left| == num && |Doc().right| == eol - num;
        TailKept(before, buf, i, initial);
        i := i + 1;
      }
      assert initial[..i] == initial;
    }

    method Putch(c: char)
      modifies this`term
      ensures term == Put(old(term), c)
    {
      term := Put(term, c);
    }

    /** `printf("%s", s)`. */
    method Print(s: string)
      modifies this`term
      ensures term == PutAll(old(term), Printed(s))
    {
      term := PutAll(term, Printed(s));
    }

    method Backspaces(n: int)
      requires n >= 0
      modifies this`term
      ensures term == PutBack(old(term), n)
    {
      var w := n;
      while w > 0
        invariant 0 <= w <= n && PutBack(term, w) == PutBack(old(term), n)
      {
        Putch(BACKSPACE);
        w := w - 1;
      }
    }

    /** BEGINNING_OF_LINE. */
    method BeginningOfLine()
      requires Shape()
      modifies this`num, this`term
      ensures num == 0 && term == PutBack(old(term), old(num))
    {
      while num > 0
        invariant 0 <= num <= old(num) && PutBack(term, num) == PutBack(old(term), old(num))
      {
        Putch(BACKSPACE);
        num := num - 1;
      }
    }

    /** ERASE_TO_EOL. */
    method EraseToEol()
      requires Shape()
      modifies this`eol, this`term
      ensures eol == num
      ensures term == PutBack(PutAll(old(term), Printed(Spaces(old(eol) - num))), old(eol) - num)
    {
      if num < eol {
        Print(Spaces(eol - num));
        ghost var t, n := term, eol - num;
        while eol > num
          invariant num <= eol <= old(eol) && PutBack(term, eol - num) == PutBack(t, n)
        {
          Putch(BACKSPACE);
          eol := eol - 1;
        }
      }
    }

    /** REFRESH_TO_EOL. */
    method RefreshToEol()
      requires Shape()
      modifies this`num, this`term
      ensures num == eol && term == PutAll(old(term), Printed(buf[old(num)..eol]))
    {
      if num < eol {
        Print(buf[num..eol]);
        num := eol;
      }
    }

    /** Lines 215-220: make room and store the character. */
    method StoreInserted(c: char)
      requires |buf| == len + 1 && 0 <= num <= eol < len && NoNul(buf[..eol]) && c as int != 0
      modifies this`buf, this`eol
      ensures |buf| == len + 1 && eol == old(eol) + 1 && NoNul(buf[..eol])
      ensures buf[..num + 1] == old(buf[..num]) + [c] && buf[num + 1..eol] == old(buf[num..eol])
      ensures buf[num..eol] == [c] + old(buf[num..eol]) && buf[eol..] == old(buf)[eol..]
    {
      InsertBuffer(buf, num, eol, c);
      eol := eol + 1;
      var wlen := eol - num;
      if wlen > 1 { buf := MemMove(buf, num + 1, num, wlen - 1); }
      buf := buf[num := c];
    }

    /** Lines 221-224: print from the cursor on, then go back to behind the new character. */
    method Echo(s: string, back: int)
      requires 0 <= back
      modifies this`term
      ensures term == PutBack(PutAll(old(term), Printed(s)), back)
    {
      Print(s);
      Backspaces(back);
    }

    /** Lines 215-224. */
    method InsertChar(c: char)
      requires Body() && eol < len && c as int != 0 && insert
      modifies this`buf, this`num, this`eol, this`term
      ensures Shape() && NoNul(buf[..eol]) && Doc() == TypeChar(old(Doc()), c, len)
      ensures ScreenOk(term, Doc(), clean && Printable(c) && eol < PBSIZE)
      ensures eol == old(eol) + 1 && buf[eol..] == old(buf)[eol..]
    {
      ghost var d := Doc();
      StoreInserted(c);
      Echo(buf[num..eol], eol - num - 1);
      num := num + 1;
      InsertScreen(old(term), d, c, clean, term, Doc());
    }

    /** Lines 225-231: echo the character over the old one, or at the end of the line. */
    method OverwriteChar(c: char)
      requires Body() && c as int != 0 && !insert
      requires num < eol || eol < len
      modifies this`buf, this`num, this`eol, this`term
      ensures Shape() && NoNul(buf[..eol]) && Doc() == TypeChar(old(Doc()), c, len)
      ensures ScreenOk(term, Doc(), clean && Printable(c) && eol < PBSIZE)
      ensures old(eol) <= eol <= old(eol) + 1 && buf[eol..] == old(buf)[eol..]
    {
      ghost var d := Doc();
      OverwriteScreen(term, d, c, clean);
      OverwriteBuffer(buf, num, eol, c);
      if num == eol { eol := eol + 1; }
      buf := buf[num := c];
      Print([buf[num]]);
      num := num + 1;
    }

    /** `cread_add_char`. */
    method AddChar(c: char)
      requires Shape() && NoNul(buf[..eol]) && ScreenOk(term, Doc(), clean) && c as int != 0
      modifies this`buf, this`num, this`eol, this`term, this`clean
      ensures Shape() && NoNul(buf[..eol]) && ScreenOk(term, Doc(), clean)
      ensures Doc() == TypeChar(old(Doc()), c, len) && old(eol) <= eol && buf[eol..] == old(buf)[eol..]
      ensures clean == (old(clean) && Printable(c) && eol < PBSIZE)
      ensures old(insert || num == eol) && old(eol) >= len ==> term == old(term).(bells := old(term).bells + 1)
    {
      if insert || num == eol {
        if eol > len - 1 {
          Putch(BELL);
          clean := clean && Printable(c) && eol < PBSIZE;
          return;
        }
      }
      if insert {
        InsertChar(c);
      } else {
        OverwriteChar(c);
      }
      clean := clean && Printable(c) && eol < PBSIZE;
    }

    /** `cread_add_str`. */
    method AddStr(s: string)
      requires Shape() && NoNul(buf[..eol]) && ScreenOk(term, Doc(), clean) && NoNul(s)
      modifies this`buf, this`num, this`eol, this`term, this`clean
      ensures Shape() && NoNul(buf[..eol]) && ScreenOk(term, Doc(), clean)
      ensures Doc() == TypeAll(old(Doc()), s, len)
      ensures clean == (old(clean) && AllPrintable(s) && eol < PBSIZE)
    {
      ghost var d := Doc();
      var i := 0;
      while i < |s|
        invariant 0 <= i <= |s| && Body()
        invariant TypeAll(Doc(), s[i..], len) == TypeAll(d, s, len)
        invariant clean == (old(clean) && eol < PBSIZE && forall j :: 0 <= j < i ==> Printable(s[j]))
      {
        TypeAllNext(Doc(), s, i, len);
        AddChar(s[i]);
        i := i + 1;
      }
    }

    // ----- editing keys

    /** Control-A. */
    method Home()
      requires Body()
      modifies this`num, this`term
      ensures Body() && Doc() == Edit(old(Doc()), Command.Home)
    {
      ghost var d := Doc();
      if clean { BackShows(term, d.left + d.right, num, num); }
      BeginningOfLine();
      assert buf[0..eol] == buf[..eol] == d.left + d.right;
    }

    /** Control-F. */
    method Forward()
      requires Body()
      modifies this`num, this`term
      ensures Body() && Doc() == Edit(old(Doc()), Command.Right)
    {
      ghost var d := Doc();
      if num < eol {
        if clean {
          assert Printable(d.right[0]);
          OverwriteShows(term, d.left, d.right, d.right[0]);
          assert d.left + [d.right[0]] + d.right[1..] == d.left + d.right;
          assert PutAll(term, [d.right[0]]) == Put(term, d.right[0]);
        }
        Putch(buf[num]);
        num := num + 1;
        assert buf[..num] == d.left + [d.right[0]] && buf[num..eol] == d.right[1..];
        assert buf[..num] + buf[num..eol] == d.left + d.right;
      }
    }

    /** Control-B. */
    method Backward()
      requires Body()
      modifies this`num, this`term
      ensures Body() && Doc() == Edit(old(Doc()), Command.Left)
    {
      ghost var d := Doc();
      if num > 0 {
        if clean { BackShows(term, d.left + d.right, num, 1); }
        assert PutBack(term, 1) == PutBack(Put(term, BACKSPACE), 0);
        Putch(BACKSPACE);
        num := num - 1;
        assert buf[..num] == d.left[..|d.left| - 1] && buf[num..eol] == [d.left[|d.left| - 1]] + d.right;
        assert buf[..num] + buf[num..eol] == d.left + d.right;
      }
    }

    /** The common end of both deletions: reprint what follows the gap, blank the last column, go back. */
    method CloseGap(ghost left: string, ghost gone: char, ghost right: string)
      requires |buf| == len + 1 && 0 <= num < eol <= len
      requires buf[..num] == left && buf[num..eol - 1] == right
      requires clean ==> eol < PBSIZE && AllPrintable(right) && Shows(term, left + [gone] + right, |left|)
      modifies this`eol, this`term
      ensures eol == old(eol) - 1
      ensures clean ==> Shows(term, left + right, |left|)
    {
      var wlen := eol - num - 1;
      ghost var t := term;
      Print(buf[num..num + wlen]);
      Putch(' ');
      Backspaces(wlen + 1);
      eol := eol - 1;
      if clean {
        PutAllAppend(t, right, ' ');
        CloseGapShows(t, left, gone, right);
      }
    }

    /** Lines 388-398 and 419-428: the character at the cursor goes. */
    method DropCharacter()
      requires Body() && num < eol
      modifies this`buf, this`eol, this`term
      ensures Body() && Doc() == Edit(old(Doc()), Command.DeleteRight)
    {
      ghost var d := Doc();
      GapBuffer(buf, num, eol);
      assert d.left + [d.right[0]] + d.right[1..] == d.left + d.right;
      buf := MemMove(buf, num, num + 1, eol - num - 1);
      CloseGap(d.left, d.right[0], d.right[1..]);
    }

    /** Control-D. */
    method DeleteRight()
      requires Body()
      modifies this`buf, this`eol, this`term
      ensures Body() && Doc() == Edit(old(Doc()), Command.DeleteRight)
    {
      if num < eol { DropCharacter(); }
    }

    /** Backspace and both DEL keys. */
    method DeleteLeft()
      requires Body()
      modifies this`buf, this`num, this`eol, this`term
      ensures Body() && Doc() == Edit(old(Doc()), Command.DeleteLeft)
    {
      if num > 0 {
        LeftThenDelete(Doc());
        Backward();
        DropCharacter();
      }
    }

    /** Control-K. */
    method KillRight()
      requires Body()
      modifies this`eol, this`term
      ensures Body() && Doc() == Edit(old(Doc()), Command.KillRight)
    {
      ghost var d := Doc();
      if clean { EraseShows(term, d.left, d.right); }
      EraseToEol();
      assert buf[num..eol] == "" && buf[..eol] == d.left && d.left + "" == d.left;
      assert NoNul(d.left) by { assert d.left == old(buf[..eol])[..num]; }
    }

    /** Control-E. */
    method End()
      requires Body()
      modifies this`num, this`term
      ensures Body() && Doc() == Edit(old(Doc()), Command.End)
    {
      ghost var d := Doc();
      if clean { ReprintShows(term, d.left, d.right); }
      RefreshToEol();
      assert buf[..eol] == d.left + d.right && buf[num..eol] == "";
      assert (d.left + d.right) + "" == d.left + d.right;
    }

    /** Control-X and control-U. */
    method KillLine()
      requires Body()
      modifies this`num, this`eol, this`term
      ensures Body() && Doc() == Edit(old(Doc()), Command.KillLine)
    {
      Home();
      KillRight();
    }

    /** Lines 447-457: replace the line by an earlier one. */
    method Replace(line: string)
      requires Body() && Fits(line, len)
      modifies this`buf, this`num, this`eol, this`term, this`clean
      ensures Body() && Doc() == LineEditorSpec.Doc(line, "", insert)
      ensures clean == (old(clean) && AllPrintable(line) && |line| < PBSIZE)
    {
      KillLine();
      ghost var t := term;
      buf := line + buf[|line|..];
      eol := |line|;
      RefreshToEol();
      assert buf[..eol] == line && buf[num..eol] == "" && buf[0..eol] == line && line + "" == line;
      clean := clean && AllPrintable(line) && |line| < PBSIZE;
      if clean { ReplaceShows(t, line); }
    }
  
    // ----- the key loop

    /** What the ideal editor's state should be. */
    ghost function View(status: Status): Session
      requires Shape()
      reads this, hist
    {
      Session(Doc(), escSave, PastView(), status)
    }

    ghost function PastView(): Past
      reads this, hist
    {
      Past(hist.stored, if hist.cur == -1 then 0 else hist.back, hist.cur != -1)
    }

    /** Lines 437-440. */
    method Fetch(older: bool) returns (line: Option<string>)
      requires hist.Valid() && forall i :: 0 <= i < |hist.stored| ==> Fits(hist.stored[i], len)
      requires len >= 0
      modifies hist`cur, hist`back
      ensures hist.Valid() && (line.Some? ==> Fits(line.value, len))
      ensures var r := if older then OlderLine(old(PastView())) else NewerLine(old(PastView()));
              PastView() == r.1 && (if line.Some? then r.0 == Some(line.value) else r.0 == None)
    {
      if older {
        line := hist.Prev();
      } else {
        line := hist.Next();
      }
    }

    /** Control-P and control-N. */
    method Browse(older: bool)
      requires Valid()
      modifies this`buf, this`num, this`eol, this`term, this`clean, hist`cur, hist`back
      ensures Valid()
      ensures View(Editing) == Apply(old(View(Editing)), if older then Older else Newer, len)
      ensures clean == (old(clean) && PlainCommand(old(View(Editing)), if older then Older else Newer, len))
      ensures !old(PastView()).active || old(PastView()).back == (if older then History.Reach(|hist.stored|) else 0) ==>
                term == old(term).(bells := old(term).bells + 1)
    {
      var line := Fetch(older);
      if line.None? {
        Putch(BELL);
        return;
      }
      Replace(line.value);
    }

    /** The keys that only edit the line. */
    method EditKey(cmd: Command)
      requires Body() && !cmd.Literal? && !cmd.Escape? && !cmd.Abort? && !cmd.Older? && !cmd.Newer?
      modifies this`buf, this`num, this`eol, this`insert, this`term
      ensures Body() && Doc() == Edit(old(Doc()), cmd)
    {
      match cmd
      case Home => Home();
      case Right => Forward();
      case Left => Backward();
      case DeleteRight => DeleteRight();
      case KillRight => KillRight();
      case End => End();
      case ToggleInsert => insert := !insert;
      case KillLine => KillLine();
      case DeleteLeft => DeleteLeft();
    }

    /** Lines 357-485: a key outside escape sequences, or one an escape sequence was converted to. */
    method Dispatch(ichar: char) returns (status: Status, impossible: bool)
      requires Valid() && escSave == "" && ichar as int != 0
      modifies this, hist`cur, hist`back
      ensures Valid() && !impossible
      ensures View(status) == Apply(old(View(Editing)), Binding(ichar), len)
      ensures clean == (old(clean) && PlainCommand(old(View(Editing)), Binding(ichar), len))
    {
      status, impossible := Editing, false;
      var cmd := KeyCommand(ichar);
      BindingOfLiteral(ichar);
      if cmd.Escape? {
        if |escSave| == 0 {
          escSave := [ichar];
        } else {
          impossible := true;
        }
      } else if cmd.Abort? {
        status := Aborted;
      } else if cmd.Older? || cmd.Newer? {
        Browse(cmd.Older?);
      } else if cmd.Literal? {
        AddChar(ichar);
      } else {
        EditKey(cmd);
      }
    }

    /** Lines 276-339: what the pending escape sequence and the next character convert to. */
    method ConvertEscape(c: char) returns (act: Action, ichar: char)
      requires 1 <= |escSave| <= 3
      ensures act == EscapeAction(escSave, c)
      ensures if act.Converted? then Binding(ichar) == act.cmd && ichar as int != 0 else ichar == c
      ensures act == Save ==> |escSave| < 3
    {
      act, ichar := Reject, c;
      if |escSave| == 1 {
        if c == '[' || c == 'O' { act := Save; }
      } else if |escSave| == 2 {
        if c == 'D' { act, ichar := Converted(Left), '\U{2}'; }
        else if c == 'C' { act, ichar := Converted(Right), '\U{6}'; }
        else if c == 'H' { act, ichar := Converted(Command.Home), '\U{1}'; }
        else if c == 'F' { act, ichar := Converted(Command.End), '\U{5}'; }
        else if c == 'A' { act, ichar := Converted(Older), '\U{10}'; }
        else if c == 'B' { act, ichar := Converted(Newer), '\U{E}'; }
        else if c in "13478" {
          if escSave[1] == '[' { act := Save; }
        }
      } else if c == '~' {
        if escSave[2] == '3' { act, ichar := Converted(Command.DeleteRight), '\U{4}'; }
        else if escSave[2] in "17" { act, ichar := Converted(Command.Home), '\U{1}'; }
        else if escSave[2] in "48" { act, ichar := Converted(Command.End), '\U{5}'; }
      }
    }

    /** One turn of the key loop (lines 260-485), for every key but TAB. */
    method Key(c: char) returns (status: Status, impossible: bool)
      requires Valid() && c != '\t'
      modifies this, hist`cur, hist`back
      ensures Valid() && !impossible
      ensures View(status) == Step(old(View(Editing)), c, len)
      ensures clean == (old(clean) && Plain(old(View(Editing)), c, len))
    {
      status, impossible := Editing, false;
      if c as int == 0 { return; }
      if c == '\n' || c == '\r' {
        status := Accepted;
        return;
      }
      var ichar := c;
      if |escSave| != 0 {
        var done;
        done, ichar := EscapeKey(c);
        if done { return; }
      }
      status, impossible := Dispatch(ichar);
    }

    /** Lines 275-355: a key inside an escape sequence; not done when it is passed on as a converted key. */
    method EscapeKey(c: char) returns (done: bool, ichar: char)
      requires Valid() && escSave != "" && c as int != 0
      modifies this`buf, this`num, this`eol, this`term, this`clean, this`escSave
      ensures Valid()
      ensures match EscapeAction(old(escSave), c)
              case Save =>
                done && Doc() == old(Doc()) && escSave == old(escSave) + [c] && clean == old(clean)
              case Reject =>
                done && Doc() == TypeAll(old(Doc()), old(escSave) + [c], len) && escSave == "" && !clean
              case Converted(cmd) =>
                !done && Doc() == old(Doc()) && escSave == "" && clean == old(clean) && eol == old(eol) &&
                Binding(ichar) == cmd && ichar as int != 0
    {
      var act;
      act, ichar := ConvertEscape(c);
      done := true;
      match act {
        case Save =>
          escSave := escSave + [c];
        case Reject =>
          NotPlain(escSave, c);
          AddStr(escSave + [c]);
          escSave := "";
        case Converted(_) =>
          escSave := "";
          done := false;
      }
    }

    /**
     * Any key sequence without TAB: the buffer is the ideal editor's text, and
     * while the keys typed only one-column characters into a line short enough
     * for the print buffer the row and cursor show it.
     */
    method ReadKeys(keys: string) returns (status: Status)
      requires Valid() && '\t' !in keys
      modifies this, hist`cur, hist`back
      ensures Valid() && View(status) == Run(old(View(Editing)), keys, len)
      ensures clean == (old(clean) && AllPlain(old(View(Editing)), keys, len))
    {
      status := Editing;
      ghost var v := View(Editing);
      var i := 0;
      while i < |keys| && status == Editing
        invariant 0 <= i <= |keys| && Valid() && PastOk(View(status).past)
        invariant Run(View(status), keys[i..], len) == Run(v, keys, len)
        invariant (clean && AllPlain(View(status), keys[i..], len)) == (old(clean) && AllPlain(v, keys, len))
      {
        ghost var rest := keys[i..];
        StepKeepsPast(View(Editing), keys[i], len);
        var impossible;
        status, impossible := Key(keys[i]);
        i := i + 1;
        assert rest[0] == keys[i - 1] && rest[1..] == keys[i..];
      }
      Finished(View(status), keys[i..], len);
    }
  
    /** Lines 487-492: terminate the line and remember it unless it is empty or starts with `!`. */
    method Finish() returns (line: string)
      requires Valid()
      modifies this`buf, hist
      ensures Valid() && line == old(Doc()).left + old(Doc()).right && Doc() == old(Doc())
      ensures hist.cur != -1 && hist.back == 0
      ensures hist.stored == old(hist.stored) + (if line != "" && line[0] != '!' then [line] else [])
    {
      line := buf[..eol];
      TerminatedLine(buf, num, eol);
      buf := buf[eol := '\0'];
      FitsMore(hist.stored, line, len);
      hist.Accept(line, buf[0] as int != 0 && buf[0] != '!');
    }

    /**
     * `cread_line` on a sequence of keys: an accepted line is the ideal
     * editor's and is remembered by the rule of `Finish`; after control-C the
     * buffer is empty and nothing is remembered.
     */
    method ReadLine(keys: string) returns (line: Option<string>)
      requires Valid() && '\t' !in keys
      modifies this, hist
      ensures var s := Run(old(View(Editing)), keys, len);
              match s.status
              case Accepted =>
                && Valid() && line == Some(s.doc.left + s.doc.right)
                && hist.stored == old(hist.stored) + (if Kept(line.value) then [line.value] else [])
              case Aborted => line == None && |buf| > 0 && buf[0] == '\0' && hist.stored == old(hist.stored)
              case Editing => line == None && Valid() && View(Editing) == s
    {
      var status := ReadKeys(keys);
      line := None;
      if status == Accepted {
        var text := Finish();
        line := Some(text);
      } else if status == Aborted {
        buf := buf[0 := '\0'];
      }
    }
  }

  /** Lines 490-491: empty lines and those that start with an exclamation mark are not remembered. */
  predicate Kept(line: string) {
    line != "" && line[0] != '!'
  }

  lemma TailKept(was: string, now: string, i: int, s: string)
    requires 0 <= i < |s| <= |was| == |now| && was[i..|s|] == s[i..] && now[i + 1..] == was[i + 1..]
    ensures now[i + 1..|s|] == s[i + 1..]
  {
    var x, y := now[i + 1..|s|], s[i + 1..];
    forall k | 0 <= k < |y| ensures x[k] == y[k] {
      assert now[i + 1..][k] == was[i + 1..][k] && was[i..|s|][k + 1] == s[i..][k + 1];
    }
  }

  lemma TypeLast(s: string, i: int, cap: int)
    requires 0 <= i < |s| <= cap
    ensures TypeChar(LineEditorSpec.Doc(s[..i], "", true), s[i], cap) == LineEditorSpec.Doc(s[..i + 1], "", true)
    ensures AllPrintable(s[..i + 1]) == (AllPrintable(s[..i]) && Printable(s[i]))
  {
    var t, u := s[..i], s[..i + 1];
    assert u == t + [s[i]];
    if AllPrintable(u) {
      assert Printable(u[i]);
      forall k | 0 <= k < |t| ensures Printable(t[k]) { assert u[k] == t[k]; }
    }
  }

  lemma FitsMore(stored: seq<string>, line: string, len: int)
    requires Fits(line, len) && forall i :: 0 <= i < |stored| ==> Fits(stored[i], len)
    ensures forall i :: 0 <= i < |stored + [line]| ==> Fits((stored + [line])[i], len)
  {
  }

  lemma TerminatedLine(buf: string, num: int, eol: int)
    requires 0 <= num <= eol < |buf| && NoNul(buf[..eol])
    ensures var b := buf[eol := '\0'];
            && b[..num] == buf[..num] && b[num..eol] == buf[num..eol] && b[..eol] == buf[..eol]
            && buf[..eol] == buf[..num] + buf[num..eol]
            && (b[0] as int != 0 <==> eol > 0) && (eol > 0 ==> b[0] == buf[..eol][0])
  {
    if eol > 0 { assert buf[..eol][0] as int != 0; }
  }

  /** CTL_CH. */
  function CtlCh(c: char): char
    requires 'a' <= c <= 'z'
  {
    (c as int - 'a' as int + 1) as char
  }

  const DEL: char := '\U{FF}'
  const DEL7: char := '\U{7F}'

  /** The labels of the switch in lines 357-485. */
  method KeyCommand(ichar: char) returns (cmd: Command)
    ensures cmd == Binding(ichar)
  {
    if ichar == ESC { cmd := Escape; }
    else if ichar == CtlCh('a') { cmd := Home; }
    else if ichar == CtlCh('c') { cmd := Abort; }
    else if ichar == CtlCh('f') { cmd := Right; }
    else if ichar == CtlCh('b') { cmd := Left; }
    else if ichar == CtlCh('d') { cmd := DeleteRight; }
    else if ichar == CtlCh('k') { cmd := KillRight; }
    else if ichar == CtlCh('e') { cmd := End; }
    else if ichar == CtlCh('o') { cmd := ToggleInsert; }
    else if ichar == CtlCh('x') || ichar == CtlCh('u') { cmd := KillLine; }
    else if ichar == DEL || ichar == DEL7 || ichar as int == 8 { cmd := DeleteLeft; }
    else if ichar == CtlCh('p') { cmd := Older; }
    else if ichar == CtlCh('n') { cmd := Newer; }
    else { cmd := Literal(ichar); }
  }

  lemma LeftThenDelete(d: Doc)
    requires d.left != ""
    ensures Edit(Edit(d, Left), Command.DeleteRight) == Edit(d, Command.DeleteLeft)
  {
    assert ([d.left[|d.left| - 1]] + d.right)[1..] == d.right;
  }

  lemma BindingOfLiteral(c: char)
    ensures Binding(c).Literal? ==> Binding(c).c == c
    ensures Binding(c).Escape? ==> c == ESC
  {
  }

  lemma NotPlain(pending: string, c: char)
    requires pending != "" && pending[0] == ESC
    ensures !AllPrintable(pending + [c])
  {
    assert !Printable((pending + [c])[0]);
  }

  /** Keys after the end of the line change nothing. */
  lemma {:induction false} Finished(s: Session, keys: string, cap: int)
    requires PastOk(s.past) && (s.status != Editing || keys == "")
    ensures Run(s, keys, cap) == s && AllPlain(s, keys, cap)
    decreases |keys|
  {
    if keys != "" { Finished(s, keys[1..], cap); }
  }

  lemma ReplaceShows(t: Terminal, line: string)
    requires Shows(t, "", 0) && AllPrintable(line)
    ensures Shows(PutAll(t, line), line, |line|)
  {
    PrintShows(t, "", 0, line);
    assert ""[..0] + line == line;
  }

  /** Moving the rest of the text one place left drops the character at the cursor. */
  lemma GapBuffer(buf: string, num: int, eol: int)
    requires 0 <= num < eol < |buf|
    ensures var b := MemMove(buf, num, num + 1, eol - num - 1);
            b[..num] == buf[..num] && b[num..eol - 1] == buf[num..eol][1..] &&
            (NoNul(buf[..eol]) ==> NoNul(b[..eol - 1])) && (eol == num + 1 ==> b == buf)
  {
    var b := MemMove(buf, num, num + 1, eol - num - 1);
    assert b[..eol - 1] == buf[..num] + buf[num + 1..eol];
  }

  lemma TypeAllNext(d: Doc, s: string, i: int, cap: int)
    requires 0 <= i < |s|
    ensures TypeAll(d, s[i..], cap) == TypeAll(TypeChar(d, s[i], cap), s[i + 1..], cap)
  {
    assert s[i..][0] == s[i] && s[i..][1..] == s[i + 1..];
  }

  lemma InsertScreen(t: Terminal, d: Doc, c: char, clean: bool, u: Terminal, e: Doc)
    requires ScreenOk(t, d, clean) && e == Doc(d.left + [c], d.right, d.insert)
    requires u == PutBack(PutAll(t, Printed([c] + d.right)), |d.right|)
    ensures ScreenOk(u, e, clean && Printable(c) && |e.left| + |e.right| < PBSIZE)
  {
    if clean && Printable(c) && |d.left| + 1 + |d.right| < PBSIZE {
      InsertShows(t, d.left, d.right, c);
      AppendPrintable(d.left, c);
    }
  }

  lemma OverwriteScreen(t: Terminal, d: Doc, c: char, clean: bool)
    requires ScreenOk(t, d, clean)
    ensures var e := Doc(d.left + [c], if d.right == "" then "" else d.right[1..], d.insert);
            ScreenOk(PutAll(t, [c]), e, clean && Printable(c) && Short(e))
  {
    if clean && Printable(c) {
      AppendPrintable(d.left, c);
      if d.right == "" {
        InsertShows(t, d.left, d.right, c);
        assert [c] + d.right == [c];
      } else {
        OverwriteShows(t, d.left, d.right, c);
      }
    }
  }

  lemma AppendPrintable(s: string, c: char)
    requires AllPrintable(s) && Printable(c)
    ensures AllPrintable(s + [c])
  {
  }

  /** The buffer after an insertion: the character between the two halves of the text. */
  lemma InsertBuffer(buf: string, num: int, eol: int, c: char)
    requires 0 <= num <= eol < |buf| - 1 && NoNul(buf[..eol]) && c as int != 0
    ensures var b := (if eol + 1 - num > 1 then MemMove(buf, num + 1, num, eol - num) else buf)[num := c];
            b[..num + 1] == buf[..num] + [c] && b[num + 1..eol + 1] == buf[num..eol] &&
            b[num..eol + 1] == [c] + buf[num..eol] && NoNul(b[..eol + 1])
  {
    var m := if eol + 1 - num > 1 then MemMove(buf, num + 1, num, eol - num) else buf;
    var b := m[num := c];
    assert b[..num] == buf[..num];
    assert b[num + 1..eol + 1] == buf[num..eol];
    assert b[..eol + 1] == buf[..num] + [c] + buf[num..eol];
  }

  lemma OverwriteBuffer(buf: string, num: int, eol: int, c: char)
    requires 0 <= num <= eol < |buf| && NoNul(buf[..eol]) && c as int != 0
    ensures var b := buf[num := c];
            b[..num + 1] == buf[..num] + [c] &&
            (if num == eol then NoNul(b[..eol + 1]) && b[num + 1..eol + 1] == ""
             else NoNul(b[..eol]) && b[num + 1..eol] == buf[num..eol][1..])
  {
    var b := buf[num := c];
    assert b[..num] == buf[..num];
  }
}
