/** The command history of the line editor (common/cli_readline.c). */
module History {
  import opened Wrappers

  const HIST_MAX := 20

  /** The `n` most recent lines, newest first. */
  ghost function Recent(lines: seq<string>, n: int): (r: seq<string>)
    requires 0 <= n <= |lines|
    ensures |r| == n
  {
    if n == 0 then [] else [lines[|lines| - 1]] + Recent(lines[..|lines| - 1], n - 1)
  }

  lemma {:induction false} RecentAt(lines: seq<string>, n: int, i: int)
    requires 0 <= i < n <= |lines|
    ensures |Recent(lines, n)| == n && Recent(lines, n)[i] == lines[|lines| - 1 - i]
  {
    if i > 0 {
      RecentAt(lines[..|lines| - 1], n - 1, i - 1);
    } else if n > 1 {
      RecentAt(lines[..|lines| - 1], n - 1, 0);
    }
  }

  /** How far back one can step: one slot of the ring is always kept as the end marker. */
  function Reach(n: int): int {
    if n < HIST_MAX then n else HIST_MAX - 1
  }

  /** The ring position `i` places before the next free slot. */
  function Position(addIdx: int, max: int, i: int): int {
    if i <= addIdx then addIdx - i else addIdx - i + max + 1
  }

  ghost predicate Holds(list: seq<string>, addIdx: int, max: int, stored: seq<string>, i: int)
    requires 0 < i <= |stored|
  {
    var p := Position(addIdx, max, i);
    0 <= p < |list| && list[p] == stored[|stored| - i]
  }

  /** The ring holds the most recent lines. */
  ghost predicate RingOk(list: seq<string>, addIdx: int, max: int, stored: seq<string>) {
    |list| == HIST_MAX && 0 <= addIdx <= max < HIST_MAX &&
    (if |stored| < HIST_MAX then addIdx == max == |stored| else max == HIST_MAX - 1) &&
    forall i :: 0 < i <= Reach(|stored|) ==> Holds(list, addIdx, max, stored, i)
  }

  /** Storing a line moves every other one place back and forgets the oldest of a full ring. */
  lemma StoreLine(list: seq<string>, addIdx: int, max: int, stored: seq<string>, line: string)
    requires RingOk(list, addIdx, max, stored)
    ensures var a := if addIdx + 1 >= HIST_MAX then 0 else addIdx + 1;
            RingOk(list[addIdx := line], a, if a > max then a else max, stored + [line])
  {
    var a := if addIdx + 1 >= HIST_MAX then 0 else addIdx + 1;
    var m, stored', list' := if a > max then a else max, stored + [line], list[addIdx := line];
    forall i | 0 < i <= Reach(|stored'|) ensures Holds(list', a, m, stored', i) {
      if i > 1 { assert Holds(list, addIdx, max, stored, i - 1); }
    }
  }

  class History {
    var list: seq<string>
    var max: int
    var addIdx: int
    var cur: int
    // every line stored so far, and how many lines back the user has stepped
    ghost var stored: seq<string>
    ghost var back: int

    ghost predicate Valid()
      reads this
    {
      RingOk(list, addIdx, max, stored) &&
      (cur == -1 || (0 <= back <= Reach(|stored|) && cur == Position(addIdx, max, back)))
    }

    /** `hist_init`. */
    constructor ()
      ensures Valid() && stored == [] && cur == -1
    {
      list := seq(HIST_MAX, _ => "");
      max, addIdx, cur := 0, 0, -1;
      stored, back := [], 0;
    }

    /** `cread_add_to_hist`, followed by the `hist_cur = hist_add_idx` of lines 490-492. */
    method Accept(line: string, keep: bool)
      requires Valid()
      modifies this
      ensures Valid() && cur != -1 && back == 0
      ensures stored == if keep then old(stored) + [line] else old(stored)
    {
      if keep {
        StoreLine(list, addIdx, max, stored, line);
        list := list[addIdx := line];
        addIdx := addIdx + 1;
        if addIdx >= HIST_MAX { addIdx := 0; }
        if addIdx > max { max := addIdx; }
        stored := stored + [line];
      }
      cur := addIdx;
      back := 0;
    }

    /** `hist_prev`. */
    method Prev() returns (line: Option<string>)
      requires Valid()
      modifies this`cur, this`back
      ensures Valid()
      ensures if old(cur) == -1 || old(back) == Reach(|stored|)
              then line == None && cur == old(cur) && back == old(back)
              else cur != -1 && back == old(back) + 1 && line == Some(stored[|stored| - back])
    {
      if cur < 0 { return None; }
      var oldCur := cur;
      cur := cur - 1;
      if cur < 0 { cur := max; }
      if cur == addIdx {
        cur := oldCur;
        line := None;
      } else {
        back := back + 1;
        assert Holds(list, addIdx, max, stored, back);
        line := Some(list[cur]);
      }
    }

    /** `hist_next`. */
    method Next() returns (line: Option<string>)
      requires Valid()
      modifies this`cur, this`back
      ensures Valid()
      ensures if old(cur) == -1 || old(back) == 0
              then line == None && cur == old(cur) && back == old(back)
              else cur != -1 && back == old(back) - 1 &&
                   line == Some(if back == 0 then "" else stored[|stored| - back])
    {
      if cur < 0 { return None; }
      if cur == addIdx { return None; }
      cur := cur + 1;
      if cur > max { cur := 0; }
      back := back - 1;
      if cur == addIdx {
        line := Some("");
      } else {
        assert Holds(list, addIdx, max, stored, back);
        line := Some(list[cur]);
      }
    }

    /** Repeated `hist_prev` from the resting position: the most recent lines, newest first, and then nothing. */
    method AllBack() returns (up: seq<string>)
      requires Valid() && cur != -1 && back == 0
      modifies this`cur, this`back
      ensures Valid() && cur != -1 && back == Reach(|stored|)
      ensures up == Recent(stored, Reach(|stored|)) && |up| == if |stored| < 19 then |stored| else 19
    {
      up := [];
      var line := Prev();
      while line.Some?
        invariant Valid() && cur != -1 && |up| <= Reach(|stored|)
        invariant if line.Some? then back == |up| + 1 && line.value == stored[|stored| - back]
                  else back == |up| == Reach(|stored|)
        invariant forall i :: 0 <= i < |up| ==> up[i] == stored[|stored| - 1 - i]
        decreases Reach(|stored|) - |up|, line.Some?
      {
        up := up + [line.value];
        line := Prev();
      }
      RecentIs(stored, up);
    }

    /** Repeated `hist_next` from there: the same lines the other way, the empty line, and then nothing. */
    method AllForward() returns (down: seq<string>)
      requires Valid() && cur != -1 && back == Reach(|stored|)
      modifies this`cur, this`back
      ensures Valid() && cur != -1 && back == 0
      ensures |down| == Reach(|stored|)
      ensures forall i :: 0 <= i < |down| ==>
                down[i] == if i == |down| - 1 then "" else Recent(stored, |down|)[|down| - 2 - i]
    {
      down := [];
      var n := Reach(|stored|);
      var line := Next();
      while line.Some?
        invariant Valid() && cur != -1 && |down| <= n
        invariant if line.Some?
                  then back == n - |down| - 1 && line.value == (if back == 0 then "" else stored[|stored| - back])
                  else back == 0 && |down| == n
        invariant forall i :: 0 <= i < |down| ==> down[i] == if i == n - 1 then "" else stored[|stored| - (n - 1 - i)]
        decreases n - |down|, line.Some?
      {
        down := down + [line.value];
        line := Next();
      }
      forall i | 0 <= i < n - 1 ensures down[i] == Recent(stored, n)[n - 2 - i] {
        RecentAt(stored, n, n - 2 - i);
      }
    }
  }

  lemma RecentIs(lines: seq<string>, up: seq<string>)
    requires |up| <= |lines| && forall i :: 0 <= i < |up| ==> up[i] == lines[|lines| - 1 - i]
    ensures up == Recent(lines, |up|)
  {
    if |up| > 0 { RecentAt(lines, |up|, 0); }
    forall i | 0 <= i < |up| ensures up[i] == Recent(lines, |up|)[i] {
      RecentAt(lines, |up|, i);
    }
  }
}
