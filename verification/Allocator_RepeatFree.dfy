/**
 * What the repeat-free test of `free` (lib/malloc.c, lines 133-140) catches:
 * all but the last block of a free list when they are freed again, and also
 * blocks freed once, when two of one page are freed in the order they were
 * allocated.
 */
module AllocatorRepeatFree {
  import opened AllocatorState
  import opened AllocatorSteps
  import opened AllocatorRuns

  /** The last block of a free list ends it and every other one links to its successor. */
  lemma LinkOf(mem: Words, head: int, fs: seq<int>, i: int)
    requires Linked(mem, head, fs) && 0 <= i < |fs|
    ensures Rd(mem, fs[i]) in fs[1..] <==> i < |fs| - 1
  {
    if i < |fs| - 1 {
      assert fs[1..][i] == fs[i + 1];
    } else {
      assert forall j :: 0 <= j < |fs[1..]| ==> fs[1..][j] == fs[j + 1] && fs[j + 1] != 0;
    }
  }

  /** A block that is already free holds a link of its free list if and only if it is not the last one. */
  lemma RepeatCaught(s: State, d: int, b: int)
    requires s.Inv() && d in s.bucket && b in s.free[d]
    ensures b in s.blocks[d]
    ensures Rd(s.mem, b) in s.free[d][1..] <==> b != s.free[d][|s.free[d]| - 1]
  {
    var fs := s.free[d];
    assert FreeListOk(s.mem, Rd(s.freeptr, d), fs, s.blocks[d], s.live);
    var i :| 0 <= i < |fs| && fs[i] == b;
    LinkOf(s.mem, Rd(s.freeptr, d), fs, i);
  }

  /** The first three free blocks of a page and the links between them. */
  lemma FirstThree(s: State, d: int)
    requires s.Inv() && d in s.bucket && |s.free[d]| >= 3
    ensures var fs := s.free[d];
            Rd(s.freeptr, d) == fs[0] && Rd(s.mem, fs[0]) == fs[1] && Rd(s.mem, fs[1]) == fs[2] && NoDup(fs)
  {
    assert FreeListOk(s.mem, Rd(s.freeptr, d), s.free[d], s.blocks[d], s.live);
  }

  lemma PopTwice(s: State, d: int)
    requires s.Inv() && d in s.bucket && |s.free[d]| >= 3
    ensures Pop(s, d).Inv() && Pop(Pop(s, d), d).Inv()
  {
    PopInv(s, d);
    PopInv(Pop(s, d), d);
  }

  lemma RefcntAfterTwo(t: State, d: int, a: int, b: int)
    requires t.Inv() && a in t.live && b in t.live && a != b && t.live[a] == t.live[b] == d
    ensures FreeNext(t, a) == Push(t, a) && FreeNext(t, a).Inv()
  {
    PushInv(t, a);
    var u := Push(t, a);
    assert b in LiveOf(u.live, d);
    assert Rd(u.refcnt, d) == |LiveOf(u.live, d)|;
  }

  /** Freeing the live block `b` now ends in the repeat-free panic. */
  ghost predicate Alarms(t: State, b: int) {
    t.Inv() && b in t.live && RepeatFreeAlarm(t, b)
  }

  /** `a` may be freed now, and `b` may not be freed after it. */
  ghost predicate SecondFreeAlarms(t: State, a: int, b: int) {
    t.Inv() && a in t.live && b in t.live && !RepeatFreeAlarm(t, a) && Alarms(FreeNext(t, a), b)
  }

  /** `a` and `b` are live blocks of `d` that still hold the links to `b` and to `c`, its first free block. */
  ghost predicate BothTaken(t: State, d: int, a: int, b: int, c: int, rest: seq<int>) {
    && a in t.live && b in t.live && a != b && t.live[a] == t.live[b] == d && d in t.bucket && d in t.free
    && t.free[d] == [c] + rest && b !in rest && Rd(t.mem, a) == b && Rd(t.mem, b) == c
  }

  /** Two blocks taken from a page: neither has been written, so each still holds its old link. */
  lemma TwoTaken(s: State, d: int, fs: seq<int>)
    requires d in s.bucket && d in s.free && fs == s.free[d] && |fs| >= 3 && NoDup(fs)
    requires Rd(s.mem, fs[0]) == fs[1] && Rd(s.mem, fs[1]) == fs[2]
    ensures BothTaken(Pop(Pop(s, d), d), d, fs[0], fs[1], fs[2], fs[3..])
  {
    assert fs[1..][1..] == [fs[2]] + fs[3..];
  }

  /** In terms of the state with both blocks taken, the rest of the free list starting with `c`. */
  lemma AlarmsWhenLinked(t: State, d: int, a: int, b: int, c: int, rest: seq<int>)
    requires t.Inv() && BothTaken(t, d, a, b, c, rest)
    ensures SecondFreeAlarms(t, a, b)
  {
    assert t.free[d][1..] == rest;
    RefcntAfterTwo(t, d, a, b);
    assert Push(t, a).free[d][1..] == t.free[d];
  }

  /**
   * From every state with three free blocks a, b, c in a page: allocate a and
   * b, free a, free b. The first call of `free` passes the test and the
   * second one fails it, although b was never freed before.
   */
  lemma InOrderFreeAlarms(s: State, d: int)
    requires s.Inv() && d in s.bucket && |s.free[d]| >= 3
    ensures SecondFreeAlarms(Pop(Pop(s, d), d), s.free[d][0], s.free[d][1])
  {
    var fs := s.free[d];
    FirstThree(s, d);
    PopTwice(s, d);
    TwoTaken(s, d, fs);
    AlarmsWhenLinked(Pop(Pop(s, d), d), d, fs[0], fs[1], fs[2], fs[3..]);
  }

  // ----- a run from the start

  lemma {:induction false} CarveLength(a: int, size: int, n: nat)
    ensures |Carve(a, size, n)| == n
    decreases n
  {
    if n > 0 { CarveLength(a + size, size, n - 1); }
  }

  lemma SmallBuckets(len: int)
    requires len <= 1024
    ensures var k := BucketFor(len, 0); 0 <= k <= 6 && CountOf(k) >= 4
  {
    assert SizeOf(6) == 1024;
    assert CountOf(6) == 4 && CountOf(5) == 8 && CountOf(4) == 16 && CountOf(3) == 32;
    assert CountOf(2) == 64 && CountOf(1) == 128 && CountOf(0) == 256;
  }

  /** The first allocation takes page 0 for descriptors and page 1 for the bucket. */
  lemma FirstGrowth(base: int, n: nat, paging: nat, mem: Words, k: int)
    requires base > 0 && base % PAGE_SIZE == 0 && 2 <= n <= paging && 0 <= k <= 6 && CountOf(k) >= 4
    ensures var s := Initial(base, n, paging, mem);
            s.Inv() && var r := Grow(s, k);
            r.Done? && r.t.chains[k] == [r.ptr] && |r.t.free[r.ptr]| >= 4
  {
    var s := Initial(base, n, paging, mem);
    InitialValid(base, n, paging, mem);
    FirstFreeUnique(s.use, 0);
    AddStorageInv(s, 0);
    var s1 := AddStorage(s, 0);
    FirstFreeUnique(s1.use, 1);
    CarveLength(PageAddr(base, 1), SizeOf(k), CountOf(k));
  }

  /** With one descriptor with room in the chain, the allocation takes its first block. */
  lemma FromOnlyPage(s: State, len: int, d: int)
    requires s.Inv() && BucketFor(len, 0) < BUCKETS && s.chains[BucketFor(len, 0)] == [d]
    requires d in s.bucket && s.free[d] != []
    ensures MallocNext(s, len) == Done(Pop(s, d), s.free[d][0])
  {
    RoomIsFreeBlock(s, BucketFor(len, 0), 0);
  }

  /** In an empty heap the chain is empty, so the allocation grows the bucket. */
  lemma FromEmpty(s: State, len: int)
    requires s.Inv() && BucketFor(len, 0) < BUCKETS && s.chains[BucketFor(len, 0)] == []
    requires Grow(s, BucketFor(len, 0)).Done?
    ensures var r := Grow(s, BucketFor(len, 0)); MallocNext(s, len) == Done(Pop(r.t, r.ptr), r.t.free[r.ptr][0])
  {
  }

  lemma ExtendRun(ss: seq<State>, es: seq<Event>, e: Event, t: State)
    requires IsRun(ss, es) && Step(ss[|es|], e, t)
    ensures IsRun(ss + [t], es + [e])
  {
    var ss', es' := ss + [t], es + [e];
    forall i | 0 <= i < |es'| ensures StepAt(ss', es', i) {
      if i < |es| { assert StepAt(ss, es, i); }
    }
  }

  /** The first allocation grows the bucket by a page and takes its first block. */
  lemma FirstCall(base: int, n: nat, paging: nat, mem: Words, len: int) returns (s: State, d: int)
    requires base > 0 && base % PAGE_SIZE == 0 && 2 <= n <= paging && len <= 1024
    ensures s.Inv() && d in s.bucket && |s.free[d]| >= 4 && s.live == map[]
    ensures BucketFor(len, 0) < BUCKETS && s.chains[BucketFor(len, 0)] == [d]
    ensures IsRun([Initial(base, n, paging, mem)] + [Pop(s, d)], [] + [Malloc(len)])
  {
    var s0, k := Initial(base, n, paging, mem), BucketFor(len, 0);
    SmallBuckets(len);
    FirstGrowth(base, n, paging, mem, k);
    s, d := Grow(s0, k).t, Grow(s0, k).ptr;
    FromEmpty(s0, len);
    ExtendRun([s0], [], Malloc(len), Pop(s, d));
  }

  lemma AnotherCall(ss: seq<State>, es: seq<Event>, len: int, d: int)
    requires IsRun(ss, es)
    requires var s := ss[|es|];
             && s.Inv() && BucketFor(len, 0) < BUCKETS && s.chains[BucketFor(len, 0)] == [d]
             && d in s.bucket && s.free[d] != []
    ensures IsRun(ss + [Pop(ss[|es|], d)], es + [Malloc(len)])
  {
    FromOnlyPage(ss[|es|], len, d);
    ExtendRun(ss, es, Malloc(len), Pop(ss[|es|], d));
  }

  lemma FreeCall(two: seq<State>, len: int, a: int, b: int) returns (t: State)
    requires |two| == 3 && IsRun(two, [Malloc(len), Malloc(len)]) && SecondFreeAlarms(two[2], a, b)
    ensures IsRun(two + [t], [Malloc(len), Malloc(len), Free(a)]) && Alarms(t, b)
  {
    t := FreeNext(two[2], a);
    ExtendRun(two, [Malloc(len), Malloc(len)], Free(a), t);
    assert [Malloc(len), Malloc(len)] + [Free(a)] == [Malloc(len), Malloc(len), Free(a)];
  }

  /** The first two allocations take the first two blocks of one page. */
  lemma FirstTwo(base: int, n: nat, paging: nat, mem: Words, len: int) returns (ss: seq<State>, s: State, d: int)
    requires base > 0 && base % PAGE_SIZE == 0 && 2 <= n <= paging && len <= 1024
    ensures s.Inv() && d in s.bucket && |s.free[d]| >= 3 && s.live == map[]
    ensures |ss| == 3 && ss[0] == Initial(base, n, paging, mem) && ss[1] == Pop(s, d) && ss[2] == Pop(Pop(s, d), d)
    ensures IsRun(ss, [Malloc(len), Malloc(len)])
  {
    s, d := FirstCall(base, n, paging, mem, len);
    var one := [Initial(base, n, paging, mem)] + [Pop(s, d)];
    PopInv(s, d);
    AnotherCall(one, [] + [Malloc(len)], len, d);
    ss := one + [Pop(Pop(s, d), d)];
    assert [] + [Malloc(len)] + [Malloc(len)] == [Malloc(len), Malloc(len)];
  }

  lemma TwoLive(s: State, d: int)
    requires s.Inv() && d in s.bucket && |s.free[d]| >= 3 && s.live == map[]
    ensures var a, b := s.free[d][0], s.free[d][1];
            a != b && Pop(s, d).live.Keys == {a} && Pop(Pop(s, d), d).live.Keys == {a, b}
  {
    FirstThree(s, d);
  }

  lemma TwoCalls(base: int, n: nat, paging: nat, mem: Words, len: int) returns (ss: seq<State>, a: int, b: int)
    requires base > 0 && base % PAGE_SIZE == 0 && 2 <= n <= paging && len <= 1024
    ensures |ss| == 3 && ss[0] == Initial(base, n, paging, mem) && IsRun(ss, [Malloc(len), Malloc(len)])
    ensures a != b && ss[1].live.Keys == {a} && ss[2].live.Keys == {a, b} && SecondFreeAlarms(ss[2], a, b)
  {
    var s, d;
    ss, s, d := FirstTwo(base, n, paging, mem, len);
    TwoLive(s, d);
    InOrderFreeAlarms(s, d);
    a, b := s.free[d][0], s.free[d][1];
  }

  /**
   * From `memory_init` on any arena of two pages or more, for any length of at
   * most 1024: allocate blocks a and b, free a, and freeing b panics. No
   * client has written a word.
   */
  lemma FirstInFirstOutPanics(base: int, n: nat, paging: nat, mem: Words, len: int)
    returns (ss: seq<State>, a: int, b: int)
    requires base > 0 && base % PAGE_SIZE == 0 && 2 <= n <= paging && len <= 1024
    ensures |ss| == 4 && ss[0] == Initial(base, n, paging, mem)
    ensures IsRun(ss, [Malloc(len), Malloc(len), Free(a)])
    ensures ss[1].live.Keys == {a} && ss[2].live.Keys == {a, b} && a != b
    ensures Alarms(ss[3], b)
  {
    var two;
    two, a, b := TwoCalls(base, n, paging, mem, len);
    var t := FreeCall(two, len, a, b);
    ss := two + [t];
  }
}
