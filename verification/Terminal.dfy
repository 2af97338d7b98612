/** One row of a terminal: what characters and backspaces sent to it leave on display. */
module Terminal {

  const BACKSPACE := '\U{8}'
  const BELL := '\U{7}'

  /** The row, to the right of the prompt, the cursor column, and how often the bell has rung. */
  datatype Terminal = Terminal(row: string, col: int, bells: nat)

  /** A character that takes one column. */
  predicate Printable(c: char) {
    ' ' <= c <= '~'
  }

  ghost predicate AllPrintable(s: string) {
    forall i :: 0 <= i < |s| ==> Printable(s[i])
  }

  function Put(t: Terminal, c: char): Terminal {
    if c == BELL then t.(bells := t.bells + 1)
    else if c == BACKSPACE then (if t.col > 0 then t.(col := t.col - 1) else t)
    else if 0 <= t.col < |t.row| then t.(row := t.row[t.col := c], col := t.col + 1)
    else t.(row := t.row + [c], col := t.col + 1)
  }

  function PutAll(t: Terminal, s: string): Terminal
    decreases |s|
  {
    if s == "" then t else PutAll(Put(t, s[0]), s[1..])
  }

  function PutBack(t: Terminal, n: int): Terminal
    decreases n
  {
    if n <= 0 then t else PutBack(Put(t, BACKSPACE), n - 1)
  }

  /** The row shows `text`, blank behind it, with the cursor at `col`. */
  ghost predicate Shows(t: Terminal, text: string, col: int) {
    t.col == col && 0 <= col <= |text| <= |t.row| && t.row[..|text|] == text &&
    forall i :: |text| <= i < |t.row| ==> t.row[i] == ' '
  }

  /** Printing overwrites from the cursor on. */
  ghost function Overwrite(row: string, col: int, s: string): string
    requires 0 <= col <= |row|
  {
    row[..col] + s + (if col + |s| <= |row| then row[col + |s|..] else "")
  }

  lemma {:induction false} PutAllOverwrites(t: Terminal, s: string)
    requires 0 <= t.col <= |t.row| && AllPrintable(s)
    ensures PutAll(t, s) == t.(row := Overwrite(t.row, t.col, s), col := t.col + |s|)
    decreases |s|
  {
    if s == "" {
      assert Overwrite(t.row, t.col, s) == t.row;
    } else {
      assert Printable(s[0]);
      var u := Put(t, s[0]);
      PutAllOverwrites(u, s[1..]);
      OverwriteTwice(t.row, t.col, s);
      assert u.row == Overwrite(t.row, t.col, [s[0]]);
    }
  }

  lemma OverwriteTwice(row: string, col: int, s: string)
    requires 0 <= col <= |row| && s != ""
    ensures Overwrite(Overwrite(row, col, [s[0]]), col + 1, s[1..]) == Overwrite(row, col, s)
  {
    assert s == [s[0]] + s[1..];
  }

  lemma {:induction false} PutBackMoves(t: Terminal, n: int)
    requires 0 <= n <= t.col
    ensures PutBack(t, n) == t.(col := t.col - n)
    decreases n
  {
    if n > 0 { PutBackMoves(Put(t, BACKSPACE), n - 1); }
  }

  /** Going back over what is shown only moves the cursor. */
  lemma BackShows(t: Terminal, text: string, col: int, n: int)
    requires Shows(t, text, col) && 0 <= n <= col
    ensures Shows(PutBack(t, n), text, col - n)
  {
    PutBackMoves(t, n);
  }

  /**
   * Printing `s` at the cursor replaces the rest of the text by `s`, provided
   * `s` is long enough to cover what stood there.
   */
  lemma PrintShows(t: Terminal, text: string, col: int, s: string)
    requires Shows(t, text, col) && AllPrintable(s) && col + |s| >= |text|
    ensures Shows(PutAll(t, s), text[..col] + s, col + |s|)
  {
    PutAllOverwrites(t, s);
    var row, text' := Overwrite(t.row, t.col, s), text[..col] + s;
    assert row[..|text'|] == text' by { assert t.row[..col] == text[..col]; }
    assert |row| == if col + |s| <= |t.row| then |t.row| else col + |s|;
    forall i | |text'| <= i < |row| ensures row[i] == ' ' {
      assert row[i] == t.row[i];
    }
  }

  /** Trailing blanks are not part of what is shown. */
  lemma TrimShows(t: Terminal, text: string, blanks: string, col: int)
    requires Shows(t, text + blanks, col) && col <= |text| && forall i :: 0 <= i < |blanks| ==> blanks[i] == ' '
    ensures Shows(t, text, col)
  {
    assert t.row[..|text|] == (text + blanks)[..|text|] == text;
    forall i | |text| <= i < |t.row| ensures t.row[i] == ' ' {
      if i < |text + blanks| { assert t.row[i] == (text + blanks)[i]; }
    }
  }
}
