/** NULL-terminated linked lists threaded through a map of words. */
module AllocatorLists {
  import opened AllocatorState

  lemma LinkedTail(next: Words, head: int, s: seq<int>)
    requires Linked(next, head, s) && s != []
    ensures Linked(next, Rd(next, head), s[1..])
  {
    assert s[0] == head;
    forall i | 0 <= i < |s[1..]|
      ensures s[1..][i] != 0 && Rd(next, s[1..][i]) == At(s[1..], i + 1)
    {
      assert s[1..][i] == s[i + 1];
    }
  }

  /** Only the words of the list matter. */
  lemma LinkedFrame(next: Words, next': Words, head: int, s: seq<int>)
    requires Linked(next, head, s)
    requires forall x :: x in s ==> Rd(next', x) == Rd(next, x)
    ensures Linked(next', head, s)
  {
  }

  lemma LinkedPush(next: Words, head: int, s: seq<int>, a: int)
    requires Linked(next, head, s) && a != 0 && a !in s
    ensures Linked(next[a := head], a, [a] + s)
  {
    var t, next' := [a] + s, next[a := head];
    forall i | 0 <= i < |t|
      ensures t[i] != 0 && Rd(next', t[i]) == At(t, i + 1)
    {
      if i > 0 { assert t[i] == s[i - 1] && At(t, i + 1) == At(s, i); }
    }
  }

  /** Unlinking the element at `i`. */
  ghost function Without(s: seq<int>, i: int): seq<int>
    requires 0 <= i < |s|
  {
    s[..i] + s[i + 1..]
  }

  lemma LinkedUnlink(next: Words, head: int, s: seq<int>, i: int)
    requires Linked(next, head, s) && NoDup(s) && 0 < i < |s|
    ensures Linked(next[s[i - 1] := Rd(next, s[i])], head, Without(s, i))
  {
    var t, next' := Without(s, i), next[s[i - 1] := Rd(next, s[i])];
    forall j | 0 <= j < |t|
      ensures t[j] != 0 && Rd(next', t[j]) == At(t, j + 1)
    {
      if j < i - 1 {
        assert t[j] == s[j] && t[j + 1] == s[j + 1];
      } else if j == i - 1 {
        assert t[j] == s[j] && At(t, j + 1) == At(s, i + 1);
      } else {
        assert t[j] == s[j + 1] && At(t, j + 1) == At(s, j + 2);
      }
    }
  }

  lemma WithoutMembers(s: seq<int>, i: int)
    requires 0 <= i < |s| && NoDup(s)
    ensures NoDup(Without(s, i))
    ensures forall x :: x in Without(s, i) <==> x in s && x != s[i]
  {
    var t := Without(s, i);
    forall j | 0 <= j < |t| ensures t[j] == s[if j < i then j else j + 1] {
    }
    forall x | x in s && x != s[i] ensures x in t {
      var j :| 0 <= j < |s| && s[j] == x;
      assert t[if j < i then j else j - 1] == x;
    }
  }

  /** In a list without repetitions only one element points to a given one. */
  lemma UniquePredecessor(next: Words, head: int, s: seq<int>, i: int, j: int)
    requires Linked(next, head, s) && NoDup(s) && 0 <= i < |s| && 0 <= j < |s|
    requires Rd(next, s[i]) == s[j]
    ensures j == i + 1
  {
    assert s[j] != 0;
  }
}
