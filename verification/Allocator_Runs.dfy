/**
 * Whole calls of `malloc` and `free` as functions on the allocator's state,
 * client writes between them, and what holds over every run of them.
 */
module AllocatorRuns {
  import opened AllocatorState
  import opened AllocatorLists
  import opened AllocatorSteps
  import opened AllocatorTheorems

  /** `i` is the lowest page that is not in use, or the number of pages. */
  ghost predicate IsFirstFree(use: seq<int>, i: int) {
    0 <= i <= |use| && (i < |use| ==> use[i] == 0) && forall j :: 0 <= j < i ==> use[j] != 0
  }

  ghost function FirstFree(use: seq<int>): (i: int)
    ensures IsFirstFree(use, i)
  {
    if use == [] then 0
    else
      var i := FirstFree(use[..|use| - 1]);
      if i < |use| - 1 || use[|use| - 1] == 0 then i else |use|
  }

  lemma FirstFreeUnique(use: seq<int>, i: int)
    requires IsFirstFree(use, i)
    ensures FirstFree(use) == i
  {
    assert IsFirstFree(use, FirstFree(use));
  }

  /** The position of the first descriptor of a chain with a free block, or its length. */
  ghost function FirstWithRoom(c: seq<int>, freeptr: Words): (i: int)
    ensures 0 <= i <= |c|
    ensures i < |c| ==> Rd(freeptr, c[i]) != 0
    ensures forall j :: 0 <= j < i ==> Rd(freeptr, c[j]) == 0
  {
    if c == [] || Rd(freeptr, c[0]) != 0 then 0
    else
      var i := FirstWithRoom(c[1..], freeptr);
      assert forall j :: 1 <= j < i + 1 ==> c[j] == c[1..][j - 1];
      i + 1
  }

  /** The bucket `malloc(len)` uses, 9 when there is none. */
  function BucketFor(len: int, k: int): (r: int)
    requires 0 <= k <= BUCKETS
    ensures k <= r <= BUCKETS
    ensures r < BUCKETS ==> len <= SizeOf(r)
    ensures forall j :: k <= j < r ==> SizeOf(j) < len
    decreases BUCKETS - k
  {
    if k == BUCKETS || len <= SizeOf(k) then k else BucketFor(len, k + 1)
  }

  datatype Result = Done(t: State, ptr: int) | Panic

  /** Lines 75-93: a new page for bucket `k`, with a page of descriptors first if none is left. */
  ghost function Grow(s: State, k: int): (r: Result)
    requires s.Inv() && 0 <= k < BUCKETS
    ensures r.Done? ==> r.t.Inv() && r.ptr in r.t.bucket && r.t.bucket[r.ptr] == k && r.t.free[r.ptr] != []
    ensures r.Done? ==> r.ptr !in s.bucket && r.t.live == s.live
  {
    if s.slots == [] && FirstFree(s.use) == |s.use| then Panic
    else
      var s1 := if s.slots == [] then (AddStorageInv(s, FirstFree(s.use)); AddStorage(s, FirstFree(s.use))) else s;
      CarveHead(PageAddr(s.base, FirstFree(s.use)), DESC_SIZE, DESCS_PER_PAGE);
      assert s1.slots != [];
      if FirstFree(s1.use) == |s1.use| then Panic
      else
        AddBucketInv(s1, k, FirstFree(s1.use));
        CarveHead(PageAddr(s1.base, FirstFree(s1.use)), SizeOf(k), CountOf(k));
        Done(AddBucket(s1, k, FirstFree(s1.use)), s1.slots[0])
  }

  /** `malloc(len)`. */
  ghost function MallocNext(s: State, len: int): (r: Result)
    requires s.Inv()
  {
    var k := BucketFor(len, 0);
    if k == BUCKETS then Done(s, 0)
    else
      var c := s.chains[k];
      var j := FirstWithRoom(c, s.freeptr);
      if j < |c| then
        RoomIsFreeBlock(s, k, j);
        Done(Pop(s, c[j]), s.free[c[j]][0])
      else
        match Grow(s, k)
        case Panic => Panic
        case Done(t, d) => Done(Pop(t, d), t.free[d][0])
  }

  /** A descriptor has a block to give exactly when its free pointer is not NULL. */
  lemma RoomIsFreeBlock(s: State, k: int, j: int)
    requires s.Inv() && 0 <= k < BUCKETS && 0 <= j < |s.chains[k]|
    ensures var d := s.chains[k][j]; d in s.bucket && s.bucket[d] == k && (s.free[d] != [] <==> Rd(s.freeptr, d) != 0)
  {
    var d := s.chains[k][j];
    assert ChainOk(s.next, s.heads[k], s.chains[k], k, s.bucket);
    assert d in s.chains[k];
    assert FreeListOk(s.mem, Rd(s.freeptr, d), s.free[d], s.blocks[d], s.live);
  }

  /** The position of `d` in its chain. */
  ghost function IndexOf(c: seq<int>, d: int): (i: int)
    requires d in c
    ensures 0 <= i < |c| && c[i] == d
  {
    if c[0] == d then 0 else
      assert c == [c[0]] + c[1..];
      IndexOf(c[1..], d) + 1
  }

  /** `free(a)` of a live block that passes the repeat-free check. */
  ghost function FreeNext(s: State, a: int): State
    requires s.Inv() && a in s.live
  {
    PushInv(s, a);
    var t, d := Push(s, a), s.live[a];
    if Rd(t.refcnt, d) != 0 then t
    else
      LastBlockFreed(t, d);
      Release(t, d, IndexOf(t.chains[t.bucket[d]], d))
  }

  lemma LastBlockFreed(t: State, d: int)
    requires t.Inv() && d in t.bucket && Rd(t.refcnt, d) == 0
    ensures LiveOf(t.live, d) == {} && 0 <= t.bucket[d] < BUCKETS && d in t.chains[t.bucket[d]]
    ensures var i := IndexOf(t.chains[t.bucket[d]], d);
            0 <= PageIndex(t.base, Rd(t.page, d)) < |t.use| && Release(t, d, i).Inv()
  {
    assert Covered(d, t.blocks[d], t.free[d], t.live) && Rd(t.refcnt, d) == |LiveOf(t.live, d)|;
    ReleaseInv(t, d, IndexOf(t.chains[t.bucket[d]], d));
  }

  /** The repeat-free check fires: the block's first word equals a link of its page's free list. */
  ghost predicate RepeatFreeAlarm(s: State, a: int)
    requires s.Inv() && a in s.live
  {
    var fs := s.free[s.live[a]];
    fs != [] && Rd(s.mem, a) in fs[1..]
  }

  // ----- what a call keeps

  /** Blocks live before and after stay where they are, with their contents. */
  ghost predicate KeepsBlocks(s: State, t: State) {
    s.base == t.base && |s.use| == |t.use| && s.storage <= t.storage &&
    forall a :: a in s.live && a in t.live ==>
      t.live[a] == s.live[a] && KeepsBlock(s, t, a)
  }

  ghost predicate KeepsBlock(s: State, t: State, a: int)
    requires a in s.live
  {
    var d := s.live[a];
    d in s.bucket && d in t.bucket && t.bucket[d] == s.bucket[d] &&
    forall w :: Within(s, a, w) ==> Rd(t.mem, w) == Rd(s.mem, w)
  }

  lemma KeepsBlocksTransitive(s: State, t: State, u: State)
    requires KeepsBlocks(s, t) && KeepsBlocks(t, u)
    requires forall a :: a in s.live && a in u.live ==> a in t.live
    ensures KeepsBlocks(s, u)
  {
    forall a | a in s.live && a in u.live ensures u.live[a] == s.live[a] && KeepsBlock(s, u, a) {
      assert KeepsBlock(s, t, a) && KeepsBlock(t, u, a);
      forall w | Within(s, a, w) ensures Rd(u.mem, w) == Rd(s.mem, w) {
        assert Within(t, a, w);
      }
    }
  }

  lemma PopKeeps(s: State, d: int)
    requires s.Inv() && d in s.bucket && s.free[d] != []
    ensures KeepsBlocks(s, Pop(s, d))
  {
    var t := Pop(s, d);
    assert FreeListOk(s.mem, Rd(s.freeptr, d), s.free[d], s.blocks[d], s.live);
    assert s.free[d][0] in s.free[d];
    forall a | a in s.live && a in t.live ensures t.live[a] == s.live[a] && KeepsBlock(s, t, a) {
      assert s.live[a] in s.blocks;
    }
  }

  lemma SameMemoryKeeps(s: State, t: State)
    requires s.Inv() && s.base == t.base && |s.use| == |t.use| && s.storage <= t.storage
    requires s.mem == t.mem && s.live == t.live && s.bucket == t.bucket
    ensures KeepsBlocks(s, t)
  {
    forall a | a in s.live && a in t.live ensures t.live[a] == s.live[a] && KeepsBlock(s, t, a) {
      assert s.live[a] in s.blocks;
    }
  }

  lemma AddBucketKeeps(s: State, k: int, i: int)
    requires s.Inv() && s.slots != [] && 0 <= k < BUCKETS && 0 <= i < |s.use| && s.use[i] == 0
    ensures KeepsBlocks(s, AddBucket(s, k, i))
  {
    var t, p := AddBucket(s, k, i), PageAddr(s.base, i);
    AddBucketInv(s, k, i);
    PageAddrOf(s.base, |s.use|, i);
    forall a | a in s.live && a in t.live ensures t.live[a] == s.live[a] && KeepsBlock(s, t, a) {
      LiveBlockPlaced(s, a);
      forall w | Within(s, a, w) ensures Rd(t.mem, w) == Rd(s.mem, w) {
        SamePage(Rd(s.page, s.live[a]), w);
        if w in Carve(p, SizeOf(k), CountOf(k)) {
          assert w in PageBlocks(p, k);
          BlockPage(p, k, w);
        }
        LinkAllFrame(s.mem, p, SizeOf(k), CountOf(k), 0, w);
      }
    }
  }

  lemma GrowKeeps(s: State, k: int)
    requires s.Inv() && 0 <= k < BUCKETS && Grow(s, k).Done?
    ensures KeepsBlocks(s, Grow(s, k).t)
  {
    if s.slots == [] {
      var i := FirstFree(s.use);
      var s1 := AddStorage(s, i);
      AddStorageInv(s, i);
      CarveHead(PageAddr(s.base, i), DESC_SIZE, DESCS_PER_PAGE);
      SameMemoryKeeps(s, s1);
      AddBucketKeeps(s1, k, FirstFree(s1.use));
      KeepsBlocksTransitive(s, s1, Grow(s, k).t);
    } else {
      AddBucketKeeps(s, k, FirstFree(s.use));
    }
  }

  /** Only the page being grown or popped from changes its set of live blocks. */
  lemma GrowIdle(s: State, k: int)
    requires s.Valid() && 0 <= k < BUCKETS && Grow(s, k).Done?
    ensures var r := Grow(s, k); forall e :: e in r.t.bucket && e != r.ptr ==> LiveOf(r.t.live, e) != {}
  {
  }

  lemma PopNoIdle(s: State, d: int)
    requires s.Inv() && d in s.bucket && s.free[d] != []
    requires forall e :: e in s.bucket && e != d ==> LiveOf(s.live, e) != {}
    ensures Pop(s, d).NoIdlePage()
  {
    PopInv(s, d);
    var t, r := Pop(s, d), s.free[d][0];
    forall e | e in t.bucket ensures LiveOf(t.live, e) != {} {
      LiveOfAdded(s.live, r, d, e);
    }
  }

  // ----- malloc

  /** The smallest bucket that holds `len` bytes. */
  ghost predicate Fits(k: int, len: int) {
    0 <= k < BUCKETS && len <= SizeOf(k) && forall j :: 0 <= j < k ==> SizeOf(j) < len
  }

  ghost predicate Allocated(s: State, t: State, len: int, ptr: int) {
    ptr != 0 && ptr !in s.live && ptr in t.live && t.live == s.live[ptr := t.live[ptr]] &&
    t.live[ptr] in t.bucket && Fits(t.bucket[t.live[ptr]], len)
  }

  lemma PopAllocates(s: State, d: int, len: int)
    requires s.Inv() && d in s.bucket && s.free[d] != [] && Fits(s.bucket[d], len)
    ensures Allocated(s, Pop(s, d), len, s.free[d][0])
  {
    PopInv(s, d);
    BlockOfPage(s, d, s.free[d][0]);
  }

  /**
   * `malloc(len)`: the request is refused with NULL exactly when no bucket is
   * large enough; otherwise the call returns a block of the smallest bucket
   * that fits, not live before, and every other live block keeps its place
   * and its contents.
   */
  lemma MallocTheorem(s: State, len: int)
    requires s.Valid()
    ensures var r := MallocNext(s, len);
            r.Done? ==> r.t.Valid() && KeepsBlocks(s, r.t) &&
                        (if len > PAGE_SIZE then r.t == s && r.ptr == 0 else Allocated(s, r.t, len, r.ptr))
  {
    var k := BucketFor(len, 0);
    LargestBucket(len);
    if k == BUCKETS {
      SameMemoryKeeps(s, s);
    } else {
      var c, r := s.chains[k], MallocNext(s, len);
      var j := FirstWithRoom(c, s.freeptr);
      if j < |c| {
        RoomIsFreeBlock(s, k, j);
        PopInv(s, c[j]);
        PopKeeps(s, c[j]);
        PopNoIdle(s, c[j]);
        PopAllocates(s, c[j], len);
      } else if r.Done? {
        MallocByGrowing(s, k, len);
      }
    }
  }

  lemma MallocByGrowing(s: State, k: int, len: int)
    requires s.Valid() && Fits(k, len) && Grow(s, k).Done?
    ensures var t, d := Grow(s, k).t, Grow(s, k).ptr;
            Pop(t, d).Valid() && KeepsBlocks(s, Pop(t, d)) && Allocated(s, Pop(t, d), len, t.free[d][0])
  {
    var t, d := Grow(s, k).t, Grow(s, k).ptr;
    GrowKeeps(s, k);
    GrowIdle(s, k);
    PopInv(t, d);
    PopKeeps(t, d);
    PopNoIdle(t, d);
    PopAllocates(t, d, len);
    KeepsBlocksTransitive(s, t, Pop(t, d));
  }

  /** A block has one of nine sizes, is large enough, and less than twice as large unless it is a smallest one. */
  lemma BlockSizes(k: int, len: int)
    requires Fits(k, len)
    ensures SizeOf(k) in [16, 32, 64, 128, 256, 512, 1024, 2048, 4096]
    ensures len <= SizeOf(k) && (SizeOf(k) == 16 || SizeOf(k) < 2 * len)
  {
    assert SizeOf(3) == 128 && SizeOf(6) == 1024;
    if k > 0 { assert SizeOf(k - 1) < len; }
  }

  lemma LargestBucket(len: int)
    ensures BucketFor(len, 0) == BUCKETS <==> len > PAGE_SIZE
  {
    assert SizeOf(8) == 4096;
  }

  // ----- when malloc runs out of pages

  lemma {:induction false} SumBounds(use: seq<int>)
    requires forall i :: 0 <= i < |use| ==> use[i] == 0 || use[i] == 1
    ensures 0 <= Sum(use) <= |use|
    ensures FirstFree(use) == |use| <==> Sum(use) == |use|
  {
    if use != [] { SumBounds(use[..|use| - 1]); }
  }

  lemma {:induction false} SumUpdate(use: seq<int>, i: int)
    requires 0 <= i < |use| && use[i] == 0
    ensures Sum(use[i := 1]) == Sum(use) + 1
  {
    var n := |use| - 1;
    if i == n {
      assert use[i := 1][..n] == use[..n];
    } else {
      SumUpdate(use[..n], i);
      assert use[i := 1][..n] == use[..n][i := 1];
    }
  }

  /** Pages a call needs when no page of its bucket has a free block. */
  ghost function PagesNeeded(s: State): int {
    if s.slots == [] then 2 else 1
  }

  lemma GrowPanicsExactly(s: State, k: int)
    requires s.Inv() && 0 <= k < BUCKETS
    ensures Grow(s, k).Panic? <==> |s.use| - Sum(s.use) < PagesNeeded(s)
  {
    PagesConserved(s);
    SumBounds(s.use);
    if s.slots == [] && FirstFree(s.use) < |s.use| {
      var i := FirstFree(s.use);
      var s1 := AddStorage(s, i);
      AddStorageInv(s, i);
      CarveHead(PageAddr(s.base, i), DESC_SIZE, DESCS_PER_PAGE);
      PagesConserved(s1);
      SumBounds(s1.use);
      SumUpdate(s.use, i);
    }
  }

  /**
   * The out-of-memory panic: it happens exactly when the bucket has no free
   * block and fewer pages are unused than the call must take.
   */
  lemma MallocPanicsExactly(s: State, len: int)
    requires s.Inv()
    ensures MallocNext(s, len).Panic? <==>
            len <= PAGE_SIZE && (forall d :: d in s.chains[BucketFor(len, 0)] ==> s.free[d] == []) &&
            |s.use| - Sum(s.use) < PagesNeeded(s)
  {
    LargestBucket(len);
    var k := BucketFor(len, 0);
    if k < BUCKETS {
      var c := s.chains[k];
      var j := FirstWithRoom(c, s.freeptr);
      forall i | 0 <= i < |c|
        ensures c[i] in s.bucket && (s.free[c[i]] != [] <==> Rd(s.freeptr, c[i]) != 0)
      {
        RoomIsFreeBlock(s, k, i);
      }
      assert j < |c| ==> c[j] in c;
      GrowPanicsExactly(s, k);
    }
  }

  // ----- free

  lemma PushKeeps(s: State, a: int)
    requires s.Inv() && a in s.live && s.live[a] in s.free
    ensures KeepsBlocks(s, Push(s, a))
  {
    var t := Push(s, a);
    LiveBlockPlaced(s, a);
    forall b | b in s.live && b in t.live ensures t.live[b] == s.live[b] && KeepsBlock(s, t, b) {
      LiveBlockPlaced(s, b);
      forall w | Within(s, b, w) ensures Rd(t.mem, w) == Rd(s.mem, w) {
        LiveBlocksDisjoint(s, b, a, w);
      }
    }
  }

  lemma ReleaseKeeps(s: State, d: int, i: int)
    requires s.Inv() && d in s.bucket && LiveOf(s.live, d) == {}
    requires 0 <= i < |s.chains[s.bucket[d]]| && s.chains[s.bucket[d]][i] == d
    ensures 0 <= PageIndex(s.base, Rd(s.page, d)) < |s.use| && KeepsBlocks(s, Release(s, d, i))
  {
    ReleaseInv(s, d, i);
    var t := Release(s, d, i);
    var p := Rd(s.page, d);
    assert DescOk(s.base, |s.use|, s.kmap, s.owner, d, s.bucket[d], p, Rd(s.size, d));
    forall b | b in s.live && b in t.live ensures t.live[b] == s.live[b] && KeepsBlock(s, t, b) {
      LiveBlockPlaced(s, b);
      var e := s.live[b];
      assert b in LiveOf(s.live, e);
      assert DescOk(s.base, |s.use|, s.kmap, s.owner, e, s.bucket[e], Rd(s.page, e), Rd(s.size, e));
      forall w | Within(s, b, w) ensures Rd(t.mem, w) == Rd(s.mem, w) {
        OtherPageKept(s.mem, p, Rd(s.page, e), w);
      }
    }
  }

  lemma OtherPageKept(mem: Words, p: int, q: int, w: int)
    requires p % PAGE_SIZE == 0 && q % PAGE_SIZE == 0 && p != q && q <= w < q + PAGE_SIZE
    ensures Rd(ZeroPage(mem, p), w) == Rd(mem, w)
  {
    SamePage(q, w);
    if p <= w < p + PAGE_SIZE { SamePage(p, w); }
  }

  lemma PushLeavesOthers(s: State, a: int)
    requires s.Valid() && a in s.live
    ensures s.live[a] in s.bucket && Push(s, a).Inv()
    ensures var t, d := Push(s, a), s.live[a];
            LiveOf(t.live, d) == LiveOf(s.live, d) - {a} && a in LiveOf(s.live, d) &&
            (Rd(t.refcnt, d) == 0 <==> LiveOf(s.live, d) == {a}) &&
            forall e :: e in s.bucket && e != d ==> LiveOf(t.live, e) != {}
  {
    PushInv(s, a);
    var t, d := Push(s, a), s.live[a];
    LiveOfRemoved(s.live, a, d);
    assert Covered(d, t.blocks[d], t.free[d], t.live) && Rd(t.refcnt, d) == |LiveOf(t.live, d)|;
    assert |LiveOf(t.live, d)| == 0 <==> LiveOf(s.live, d) - {a} == {};
    forall e | e in s.bucket && e != d ensures LiveOf(t.live, e) != {} {
      LiveOfRemoved(s.live, a, e);
    }
  }

  /**
   * `free(a)`: exactly this block is given back, every other live block keeps
   * its place and its contents, and the page is released exactly when no
   * other block of it is live.
   */
  lemma FreeTheorem(s: State, a: int)
    requires s.Valid() && a in s.live
    ensures var t, d := FreeNext(s, a), s.live[a];
            t.Valid() && t.live == s.live - {a} && KeepsBlocks(s, t) && d in s.bucket &&
            (d in t.bucket <==> LiveOf(s.live, d) != {a}) &&
            (forall e :: e in s.bucket && e != d ==> e in t.bucket)
  {
    var t, d := Push(s, a), s.live[a];
    PushLeavesOthers(s, a);
    PushKeeps(s, a);
    if Rd(t.refcnt, d) == 0 {
      LastBlockFreed(t, d);
      var i := IndexOf(t.chains[t.bucket[d]], d);
      ReleaseKeeps(t, d, i);
      KeepsBlocksTransitive(s, t, Release(t, d, i));
    }
  }

  // ----- runs

  datatype Event = Malloc(len: int) | Free(a: int) | ClientWrite(w: int, v: int)

  /** The state `memory_init` leaves: `n` unused pages, no chain, no descriptor. */
  ghost function Initial(base: int, n: nat, paging: nat, mem: Words): State {
    State(base, seq(n, _ => 0), seq(paging, _ => 0), seq(BUCKETS, _ => 0), 0,
          mem, map[], map[], map[], map[], map[],
          seq(BUCKETS, _ => []), map[], map[], map[], [], {}, map[], map[])
  }

  lemma InitialValid(base: int, n: nat, paging: nat, mem: Words)
    requires base > 0 && base % PAGE_SIZE == 0 && n <= paging
    ensures Initial(base, n, paging, mem).Valid()
  {
    var s := Initial(base, n, paging, mem);
    forall k | 0 <= k < BUCKETS ensures ChainOk(s.next, s.heads[k], s.chains[k], k, s.bucket) {
    }
  }

  /** One whole call, or one word written by a client into a block it owns. */
  ghost predicate Step(s: State, e: Event, t: State) {
    s.Inv() ==>
      match e
      case Malloc(len) => MallocNext(s, len).Done? && t == MallocNext(s, len).t
      case Free(a) => a in s.live && !RepeatFreeAlarm(s, a) && t == FreeNext(s, a)
      case ClientWrite(w, v) => (exists a :: Within(s, a, w)) && t == Write(s, w, v)
  }

  ghost predicate StepAt(ss: seq<State>, es: seq<Event>, i: int)
    requires |ss| == |es| + 1 && 0 <= i < |es|
  {
    Step(ss[i], es[i], ss[i + 1])
  }

  ghost predicate IsRun(ss: seq<State>, es: seq<Event>) {
    |ss| == |es| + 1 && forall i :: 0 <= i < |es| ==> StepAt(ss, es, i)
  }

  lemma WriteValid(s: State, w: int, v: int)
    requires s.Valid() && exists a :: Within(s, a, w)
    ensures Write(s, w, v).Valid()
  {
    var a :| Within(s, a, w);
    WriteInv(s, a, w, v);
    assert Write(s, w, v).live == s.live && Write(s, w, v).bucket == s.bucket;
  }

  lemma StepValid(s: State, e: Event, t: State)
    requires s.Valid() && Step(s, e, t)
    ensures t.Valid()
  {
    match e
    case Malloc(len) => MallocTheorem(s, len);
    case Free(a) => FreeTheorem(s, a);
    case ClientWrite(w, v) => WriteValid(s, w, v);
  }

  /** The invariant holds throughout every run from a state that satisfies it. */
  lemma {:induction false} RunValid(ss: seq<State>, es: seq<Event>, i: int)
    requires IsRun(ss, es) && ss[0].Valid() && 0 <= i < |ss|
    ensures ss[i].Valid()
    decreases i
  {
    if i > 0 {
      RunValid(ss, es, i - 1);
      assert StepAt(ss, es, i - 1);
      StepValid(ss[i - 1], es[i - 1], ss[i]);
    }
  }

  /**
   * Safety over every run from `memory_init`: at every moment the live blocks
   * are aligned, inside the arena, and disjoint from each other, from every
   * free block and from every descriptor page, and pages are accounted for.
   */
  lemma EveryRunIsSafe(ss: seq<State>, es: seq<Event>, i: int, base: int, n: nat, paging: nat, mem: Words)
    requires base > 0 && base % PAGE_SIZE == 0 && n <= paging
    requires IsRun(ss, es) && ss[0] == Initial(base, n, paging, mem) && 0 <= i < |ss|
    ensures var s := ss[i];
      s.Valid() && Sum(s.use) == |s.storage| + |s.bucket| &&
      (forall a :: a in s.live ==> s.live[a] in s.bucket && a % BlockSize(s, a) == 0) &&
      (forall a, b, w :: Within(s, a, w) && b in s.live && a != b ==> !Within(s, b, w)) &&
      (forall a, w :: Within(s, a, w) ==> PageBase(w) !in s.storage) &&
      (forall a, w, d, f :: Within(s, a, w) && d in s.bucket && f in s.free[d] ==> !(f <= w < f + SizeOf(s.bucket[d])))
  {
    var s := ss[i];
    InitialValid(base, n, paging, mem);
    RunValid(ss, es, i);
    PagesConserved(s);
    forall a | a in s.live ensures s.live[a] in s.bucket && a % BlockSize(s, a) == 0 {
      LiveBlockPlaced(s, a);
    }
    forall a, b, w | Within(s, a, w) && b in s.live && a != b ensures !Within(s, b, w) {
      LiveBlocksDisjoint(s, a, b, w);
    }
    forall a, w | Within(s, a, w) ensures PageBase(w) !in s.storage {
      LiveBlocksAvoidDescriptors(s, a, w);
    }
    forall a, w, d, f | Within(s, a, w) && d in s.bucket && f in s.free[d]
      ensures !(f <= w < f + SizeOf(s.bucket[d]))
    {
      LiveBlocksAvoidFreeBlocks(s, a, d, f, w);
    }
  }

  // ----- what survives a run

  lemma StepKeepsWord(s: State, e: Event, t: State, a: int, w: int)
    requires s.Valid() && Step(s, e, t) && Within(s, a, w) && a in t.live
    requires e.ClientWrite? ==> e.w != w
    ensures Within(t, a, w) && t.live[a] == s.live[a] && Rd(t.mem, w) == Rd(s.mem, w)
  {
    match e
    case Malloc(len) =>
      MallocTheorem(s, len);
      assert KeepsBlocks(s, t) && KeepsBlock(s, t, a);
    case Free(b) =>
      FreeTheorem(s, b);
      assert KeepsBlocks(s, t) && KeepsBlock(s, t, a);
    case ClientWrite(x, v) =>
  }

  /** A block that stays live keeps every word its owner does not write. */
  lemma {:induction false} RunKeepsContents(ss: seq<State>, es: seq<Event>, j: int, a: int, w: int)
    requires IsRun(ss, es) && ss[0].Valid() && 0 <= j < |ss| && Within(ss[0], a, w)
    requires forall i :: 0 <= i <= j ==> a in ss[i].live
    requires forall i :: 0 <= i < j && es[i].ClientWrite? ==> es[i].w != w
    ensures Within(ss[j], a, w) && ss[j].live[a] == ss[0].live[a] && Rd(ss[j].mem, w) == Rd(ss[0].mem, w)
    decreases j
  {
    if j > 0 {
      RunKeepsContents(ss, es, j - 1, a, w);
      RunStepKeepsWord(ss, es, j - 1, a, w);
    }
  }

  lemma RunStepKeepsWord(ss: seq<State>, es: seq<Event>, i: int, a: int, w: int)
    requires IsRun(ss, es) && ss[0].Valid() && 0 <= i < |es| && Within(ss[i], a, w) && a in ss[i + 1].live
    requires es[i].ClientWrite? ==> es[i].w != w
    ensures Within(ss[i + 1], a, w) && ss[i + 1].live[a] == ss[i].live[a] && Rd(ss[i + 1].mem, w) == Rd(ss[i].mem, w)
  {
    RunValid(ss, es, i);
    assert StepAt(ss, es, i);
    StepKeepsWord(ss[i], es[i], ss[i + 1], a, w);
  }

  /** `a` is live in both states, under the same descriptor and bucket, and no descriptor page is lost. */
  ghost predicate SamePlace(s: State, t: State, a: int) {
    a in s.live && a in t.live && t.live[a] == s.live[a] && s.live[a] in s.bucket && s.live[a] in t.bucket &&
    t.bucket[s.live[a]] == s.bucket[s.live[a]] && s.storage <= t.storage
  }

  lemma KeptInPlace(s: State, t: State, a: int)
    requires KeepsBlocks(s, t) && a in s.live && a in t.live
    ensures SamePlace(s, t, a)
  {
    assert KeepsBlock(s, t, a);
  }

  lemma StepKeepsBlock(s: State, e: Event, t: State, a: int)
    requires s.Valid() && Step(s, e, t) && a in s.live && e != Free(a)
    ensures SamePlace(s, t, a)
  {
    match e
    case Malloc(len) =>
      MallocKeepsPlace(s, len, a);
    case Free(b) =>
      FreeKeepsPlace(s, b, a);
    case ClientWrite(x, v) =>
      LiveBlockPlaced(s, a);
  }

  lemma MallocKeepsPlace(s: State, len: int, a: int)
    requires s.Valid() && a in s.live && MallocNext(s, len).Done?
    ensures SamePlace(s, MallocNext(s, len).t, a)
  {
    MallocTheorem(s, len);
    KeptInPlace(s, MallocNext(s, len).t, a);
  }

  lemma FreeKeepsPlace(s: State, b: int, a: int)
    requires s.Valid() && a in s.live && b in s.live && a != b
    ensures SamePlace(s, FreeNext(s, b), a)
  {
    FreeTheorem(s, b);
    KeptInPlace(s, FreeNext(s, b), a);
  }

  lemma RunStepKeepsBlock(ss: seq<State>, es: seq<Event>, i: int, a: int)
    requires IsRun(ss, es) && ss[0].Valid() && 0 <= i < |es| && a in ss[i].live && es[i] != Free(a)
    ensures SamePlace(ss[i], ss[i + 1], a)
  {
    RunValid(ss, es, i);
    assert StepAt(ss, es, i);
    StepKeepsBlock(ss[i], es[i], ss[i + 1], a);
  }

  lemma SamePlaceTransitive(s: State, t: State, u: State, a: int)
    requires SamePlace(s, t, a) && SamePlace(t, u, a)
    ensures SamePlace(s, u, a)
  {
  }

  lemma {:induction false} KeptUpTo(ss: seq<State>, es: seq<Event>, a: int, i: int)
    requires IsRun(ss, es) && ss[0].Valid() && a in ss[0].live && Free(a) !in es && 0 <= i < |ss|
    ensures SamePlace(ss[0], ss[i], a)
    decreases i
  {
    if i == 0 {
      LiveBlockPlaced(ss[0], a);
    } else {
      KeptUpTo(ss, es, a, i - 1);
      RunStepKeepsBlock(ss, es, i - 1, a);
      SamePlaceTransitive(ss[0], ss[i - 1], ss[i], a);
    }
  }

  /**
   * Whatever whole calls interrupt handlers run, a block they do not free
   * stays live under the same descriptor and bucket, and an address that was
   * a descriptor stays one.
   */
  lemma InterruptsKeepBlock(ss: seq<State>, es: seq<Event>, a: int)
    requires IsRun(ss, es) && ss[0].Valid() && a in ss[0].live && Free(a) !in es
    ensures var s, t := ss[0], ss[|es|];
            t.Valid() && SamePlace(s, t, a)
  {
    RunValid(ss, es, |es|);
    KeptUpTo(ss, es, a, |es|);
  }

  lemma LinkStaysInList(next: Words, head: int, s: seq<int>, x: int)
    requires Linked(next, head, s)
    ensures x in s ==> Rd(next, x) == 0 || Rd(next, x) in s
  {
    if x in s {
      var j :| 0 <= j < |s| && s[j] == x;
      assert j + 1 < |s| ==> s[j + 1] in s;
    }
  }

  /**
   * A stale predecessor is harmless: any descriptor whose link still leads to
   * a chained descriptor is its predecessor in its own chain.
   */
  lemma StalePredecessor(s: State, d: int, prev: int)
    requires s.Inv() && d in s.bucket && IsDesc(s.storage, prev) && Rd(s.next, prev) == d
    ensures var c := s.chains[s.bucket[d]]; var i := IndexOf(c, d); i > 0 && c[i - 1] == prev
  {
    var k := s.bucket[d];
    var c := s.chains[k];
    var i := IndexOf(c, d);
    assert ChainOk(s.next, s.heads[k], c, k, s.bucket);
    assert c[i] != 0;
    LinkStaysInList(s.next, s.freeDesc, s.slots, prev);
    if prev in s.bucket {
      var k', c' := s.bucket[prev], s.chains[s.bucket[prev]];
      assert ChainOk(s.next, s.heads[k'], c', k', s.bucket);
      var j :| 0 <= j < |c'| && c'[j] == prev;
      assert At(c', j + 1) == d && d != 0;
      assert c'[j + 1] in c';
      UniquePredecessor(s.next, s.heads[k], c, j, i);
    }
  }

  /**
   * Interrupted `free`: between finding the descriptor and disabling
   * interrupts, handlers run whole calls on other blocks. What the lookup
   * found still holds, and completing the call unlinks at most this one
   * descriptor, from its own chain, leaving every other chain as it is.
   */
  lemma InterruptedFree(ss: seq<State>, es: seq<Event>, a: int, prev: int)
    requires IsRun(ss, es) && ss[0].Valid() && a in ss[0].live && Free(a) !in es
    requires prev == 0 || IsDesc(ss[0].storage, prev)
    ensures var s, t := ss[0], ss[|es|];
      t.Valid() && SamePlace(s, t, a) && (prev == 0 || IsDesc(t.storage, prev)) &&
      var d := t.live[a];
      var k := t.bucket[d];
      0 <= k < BUCKETS && d in t.chains[k] &&
      FreeNext(t, a).chains ==
        if LiveOf(t.live, d) == {a} then t.chains[k := Without(t.chains[k], IndexOf(t.chains[k], d))] else t.chains
  {
    InterruptsKeepBlock(ss, es, a);
    PushLeavesOthers(ss[|es|], a);
  }
}
