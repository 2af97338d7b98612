/**
 * The ideal line editor: two strings around a cursor, an escape-sequence
 * decoder and a list of earlier lines, stepped one key at a time.
 */
module LineEditorSpec {
  import opened Wrappers
  import History
  import Terminal

  /** The text left and right of the cursor, and whether typing inserts or overwrites. */
  datatype Doc = Doc(left: string, right: string, insert: bool)

  /** Earlier lines, and how many of them back the user is; not usable before the first line is accepted. */
  datatype Past = Past(stored: seq<string>, back: int, active: bool)

  /** CONFIG_SYS_PBSIZE: `printf` sends at most one character less than this. */
  const PBSIZE := 1024

  /** The whole line can be printed at once. */
  predicate Short(d: Doc) {
    |d.left| + |d.right| < PBSIZE
  }

  datatype Status = Editing | Accepted | Aborted

  datatype Session = Session(doc: Doc, pending: string, past: Past, status: Status)

  datatype Command =
    | Home | End | Left | Right | DeleteLeft | DeleteRight | KillRight | KillLine
    | ToggleInsert | Older | Newer | Abort | Escape | Literal(c: char)

  const ESC := '\U{1B}'

  /** Keys outside escape sequences. */
  function Binding(c: char): Command {
    var k := c as int;
    if k == 1 then Home
    else if k == 2 then Left
    else if k == 3 then Abort
    else if k == 4 then DeleteRight
    else if k == 5 then End
    else if k == 6 then Right
    else if k == 8 || k == 127 || k == 255 then DeleteLeft
    else if k == 11 then KillRight
    else if k == 14 then Newer
    else if k == 15 then ToggleInsert
    else if k == 16 then Older
    else if k == 21 || k == 24 then KillLine
    else if k == 27 then Escape
    else Literal(c)
  }

  /** What the characters of an escape sequence so far, then `c`, amount to. */
  datatype Action = Save | Reject | Converted(cmd: Command)

  function EscapeAction(pending: string, c: char): Action {
    if |pending| == 1 then (if c == '[' || c == 'O' then Save else Reject)
    else if |pending| == 2 then
      if c == 'D' then Converted(Left)
      else if c == 'C' then Converted(Right)
      else if c == 'H' then Converted(Home)
      else if c == 'F' then Converted(End)
      else if c == 'A' then Converted(Older)
      else if c == 'B' then Converted(Newer)
      else if c in "13478" && pending[1] == '[' then Save
      else Reject
    else if |pending| == 3 && c == '~' then
      if pending[2] == '3' then Converted(DeleteRight)
      else if pending[2] in "17" then Converted(Home)
      else if pending[2] in "48" then Converted(End)
      else Reject
    else Reject
  }

  /** Typing one character into a line of at most `cap`. */
  function TypeChar(d: Doc, c: char, cap: int): Doc {
    if !d.insert && d.right != "" then Doc(d.left + [c], d.right[1..], d.insert)
    else if |d.left| + |d.right| >= cap then d
    else Doc(d.left + [c], d.right, d.insert)
  }

  function TypeAll(d: Doc, s: string, cap: int): Doc
    decreases |s|
  {
    if s == "" then d else TypeAll(TypeChar(d, s[0], cap), s[1..], cap)
  }

  function Edit(d: Doc, cmd: Command): Doc {
    match cmd
    case Home => Doc("", d.left + d.right, d.insert)
    case End => Doc(d.left + d.right, "", d.insert)
    case Left => if d.left == "" then d else
      Doc(d.left[..|d.left| - 1], [d.left[|d.left| - 1]] + d.right, d.insert)
    case Right => if d.right == "" then d else Doc(d.left + [d.right[0]], d.right[1..], d.insert)
    case DeleteLeft => if d.left == "" then d else d.(left := d.left[..|d.left| - 1])
    case DeleteRight => if d.right == "" then d else d.(right := d.right[1..])
    case KillRight => d.(right := "")
    case KillLine => Doc("", "", d.insert)
    case ToggleInsert => d.(insert := !d.insert)
    case _ => d
  }

  /** One step back through the earlier lines, if there is one. */
  function OlderLine(p: Past): (r: (Option<string>, Past))
    requires 0 <= p.back <= History.Reach(|p.stored|)
  {
    if !p.active || p.back == History.Reach(|p.stored|) then (None, p)
    else (Some(p.stored[|p.stored| - p.back - 1]), p.(back := p.back + 1))
  }

  /** One step forward, ending in the empty line. */
  function NewerLine(p: Past): (r: (Option<string>, Past))
    requires 0 <= p.back <= History.Reach(|p.stored|)
  {
    if !p.active || p.back == 0 then (None, p)
    else (Some(if p.back == 1 then "" else p.stored[|p.stored| - p.back + 1]), p.(back := p.back - 1))
  }

  function Recall(s: Session, r: (Option<string>, Past)): Session {
    match r.0
    case None => s
    case Some(line) => s.(doc := Doc(line, "", s.doc.insert), past := r.1)
  }

  function Apply(s: Session, cmd: Command, cap: int): Session
    requires 0 <= s.past.back <= History.Reach(|s.past.stored|)
  {
    match cmd
    case Literal(c) => s.(doc := TypeChar(s.doc, c, cap))
    case Escape => s.(pending := [ESC])
    case Abort => s.(status := Aborted)
    case Older => Recall(s, OlderLine(s.past))
    case Newer => Recall(s, NewerLine(s.past))
    case _ => s.(doc := Edit(s.doc, cmd))
  }

  /** One key. NUL is ignored, a line end accepts the line whatever is pending. */
  function Step(s: Session, c: char, cap: int): Session
    requires 0 <= s.past.back <= History.Reach(|s.past.stored|)
  {
    if s.status != Editing || c as int == 0 then s
    else if c == '\n' || c == '\r' then s.(status := Accepted)
    else if s.pending == "" then Apply(s, Binding(c), cap)
    else
      match EscapeAction(s.pending, c)
      case Save => s.(pending := s.pending + [c])
      case Reject => s.(doc := TypeAll(s.doc, s.pending + [c], cap), pending := "")
      case Converted(cmd) => Apply(s.(pending := ""), cmd, cap)
  }

  ghost predicate PlainRecall(r: (Option<string>, Past)) {
    r.0.Some? ==> Terminal.AllPrintable(r.0.value) && |r.0.value| < PBSIZE
  }

  ghost predicate PlainCommand(s: Session, cmd: Command, cap: int)
    requires 0 <= s.past.back <= History.Reach(|s.past.stored|)
  {
    match cmd
    case Literal(c) => Terminal.Printable(c) && Short(TypeChar(s.doc, c, cap))
    case Older => PlainRecall(OlderLine(s.past))
    case Newer => PlainRecall(NewerLine(s.past))
    case _ => true
  }

  /** The key puts only one-column characters into the line, and the line stays short enough for the print buffer. */
  ghost predicate Plain(s: Session, c: char, cap: int)
    requires 0 <= s.past.back <= History.Reach(|s.past.stored|)
  {
    if s.status != Editing || c as int == 0 || c == '\n' || c == '\r' then true
    else if s.pending == "" then PlainCommand(s, Binding(c), cap)
    else
      match EscapeAction(s.pending, c)
      case Save => true
      case Reject => false
      case Converted(cmd) => PlainCommand(s, cmd, cap)
  }

  ghost predicate PastOk(p: Past) {
    0 <= p.back <= History.Reach(|p.stored|)
  }

  lemma StepKeepsPast(s: Session, c: char, cap: int)
    requires PastOk(s.past)
    ensures PastOk(Step(s, c, cap).past)
  {
  }

  /** A whole key sequence. */
  ghost function Run(s: Session, keys: string, cap: int): Session
    requires PastOk(s.past)
    decreases |keys|
  {
    if keys == "" then s
    else
      StepKeepsPast(s, keys[0], cap);
      Run(Step(s, keys[0], cap), keys[1..], cap)
  }

  /** Every key of a sequence is plain when its turn comes. */
  ghost predicate AllPlain(s: Session, keys: string, cap: int)
    requires PastOk(s.past)
    decreases |keys|
  {
    keys == "" ||
    (Plain(s, keys[0], cap) && (StepKeepsPast(s, keys[0], cap); AllPlain(Step(s, keys[0], cap), keys[1..], cap)))
  }
}
