/**
 * Released pages are cleared (common/memory.c, line 53): whatever a client
 * left in a page, the next owner of the page finds zeros.
 */
module AllocatorClearing {
  import opened AllocatorState
  import opened AllocatorLists
  import opened AllocatorSteps
  import opened AllocatorTheorems
  import opened AllocatorRuns

  /** `free` of the last live block of a page clears the page and changes no word outside it. */
  lemma LastFreeClears(s: State, a: int)
    requires s.Valid() && a in s.live && LiveOf(s.live, s.live[a]) == {a}
    ensures var t, p := FreeNext(s, a), Rd(s.page, s.live[a]);
            Cleared(t.mem, p) && SameOutside(s.mem, t.mem, p)
  {
    var d := s.live[a];
    var p, u := Rd(s.page, d), Push(s, a);
    LiveBlockPlaced(s, a);
    PushLeavesOthers(s, a);
    LastBlockFreed(u, d);
    ZeroPageClears(u.mem, p);
    assert FreeNext(s, a).mem == ZeroPage(u.mem, p);
  }

  /** `free` of any other block writes one word of memory, the link in the block itself. */
  lemma OtherFreeKeeps(s: State, a: int)
    requires s.Valid() && a in s.live && LiveOf(s.live, s.live[a]) != {a}
    ensures var t, d := FreeNext(s, a), s.live[a];
            d in s.free && Rd(t.mem, a) == At(s.free[d], 0) && forall w :: w != a ==> Rd(t.mem, w) == Rd(s.mem, w)
  {
    var d := s.live[a];
    LiveBlockPlaced(s, a);
    PushLeavesOthers(s, a);
    assert FreeListOk(s.mem, Rd(s.freeptr, d), s.free[d], s.blocks[d], s.live);
  }

  // ----- over runs

  /** Page `i` of the arena is not in use. */
  ghost predicate Unused(s: State, i: int) {
    0 <= i < |s.use| && s.use[i] == 0
  }

  /** Page `i` reads 0 if it is not in use. */
  ghost predicate Clean(s: State, i: int) {
    Unused(s, i) ==> Cleared(s.mem, PageAddr(s.base, i))
  }

  lemma PagesApart(p: int, q: int)
    requires p % PAGE_SIZE == 0 && q % PAGE_SIZE == 0 && p != q
    ensures p + PAGE_SIZE <= q || q + PAGE_SIZE <= p
  {
  }

  /** Bucket pages are in use. */
  lemma OwnedElsewhere(s: State, i: int, d: int)
    requires s.Inv() && Unused(s, i) && d in s.bucket
    ensures var p, q := PageAddr(s.base, i), Rd(s.page, d); p + PAGE_SIZE <= q || q + PAGE_SIZE <= p
  {
    var p, q := PageAddr(s.base, i), Rd(s.page, d);
    assert DescOk(s.base, |s.use|, s.kmap, s.owner, d, s.bucket[d], q, Rd(s.size, d));
    PageAddrOf(s.base, |s.use|, i);
    PagesApart(p, q);
  }

  /** A change inside one page leaves another one clear. */
  lemma ClearedElsewhere(was: Words, now: Words, p: int, q: int)
    requires Cleared(was, p) && SameOutside(was, now, q) && (p + PAGE_SIZE <= q || q + PAGE_SIZE <= p)
    ensures Cleared(now, p)
  {
  }

  /** A new bucket page is written where it is, and nowhere else. */
  lemma AddBucketWrites(s: State, k: int, j: int, i: int)
    requires s.Inv() && s.slots != [] && 0 <= k < BUCKETS && 0 <= j < |s.use| && s.use[j] == 0
    requires Clean(s, i)
    ensures Clean(AddBucket(s, k, j), i)
  {
    var t, q := AddBucket(s, k, j), PageAddr(s.base, j);
    if Unused(t, i) {
      var p := PageAddr(s.base, i);
      PageAddrOf(s.base, |s.use|, i);
      PageAddrOf(s.base, |s.use|, j);
      forall w | p <= w < p + PAGE_SIZE ensures Rd(t.mem, w) == 0 {
        SamePage(p, w);
        if w in Carve(q, SizeOf(k), CountOf(k)) {
          assert w in PageBlocks(q, k);
          BlockPage(q, k, w);
        }
        LinkAllFrame(s.mem, q, SizeOf(k), CountOf(k), 0, w);
      }
    }
  }

  lemma GrowClean(s: State, k: int, i: int)
    requires s.Inv() && 0 <= k < BUCKETS && Grow(s, k).Done? && Clean(s, i)
    ensures Clean(Grow(s, k).t, i)
  {
    if s.slots == [] {
      var j := FirstFree(s.use);
      var s1 := AddStorage(s, j);
      AddStorageInv(s, j);
      CarveHead(PageAddr(s.base, j), DESC_SIZE, DESCS_PER_PAGE);
      assert Unused(s1, i) ==> Unused(s, i);
      AddBucketWrites(s1, k, FirstFree(s1.use), i);
    } else {
      AddBucketWrites(s, k, FirstFree(s.use), i);
    }
  }

  lemma MallocClean(s: State, len: int, i: int)
    requires s.Inv() && MallocNext(s, len).Done? && Clean(s, i)
    ensures Clean(MallocNext(s, len).t, i)
  {
    var k := BucketFor(len, 0);
    if k < BUCKETS {
      var c := s.chains[k];
      var j := FirstWithRoom(c, s.freeptr);
      if j < |c| {
        RoomIsFreeBlock(s, k, j);
      } else {
        GrowClean(s, k, i);
      }
    }
  }

  /** Whatever `free` does to memory, it does in the page of the block. */
  lemma FreeWritesOnePage(s: State, a: int)
    requires s.Valid() && a in s.live
    ensures s.live[a] in s.bucket && SameOutside(s.mem, FreeNext(s, a).mem, Rd(s.page, s.live[a]))
  {
    LiveBlockPlaced(s, a);
    if LiveOf(s.live, s.live[a]) == {a} { LastFreeClears(s, a); } else { OtherFreeKeeps(s, a); }
  }

  /** The page that stops being in use is the one of the block, and it was its last one. */
  lemma FreedPage(s: State, a: int, i: int)
    requires s.Valid() && a in s.live && !Unused(s, i) && Unused(FreeNext(s, a), i)
    ensures LiveOf(s.live, s.live[a]) == {a} && PageAddr(s.base, i) == Rd(s.page, s.live[a])
  {
    var d := s.live[a];
    LiveBlockPlaced(s, a);
    PushLeavesOthers(s, a);
    LastBlockFreed(Push(s, a), d);
    PageIndexOf(s.base, |s.use|, Rd(s.page, d));
  }

  lemma FreeClean(s: State, a: int, i: int)
    requires s.Valid() && a in s.live && Clean(s, i)
    ensures Clean(FreeNext(s, a), i)
  {
    var t := FreeNext(s, a);
    FreeTheorem(s, a);
    if Unused(t, i) {
      if Unused(s, i) {
        FreeWritesOnePage(s, a);
        OwnedElsewhere(s, i, s.live[a]);
        ClearedElsewhere(s.mem, t.mem, PageAddr(s.base, i), Rd(s.page, s.live[a]));
      } else {
        FreedPage(s, a, i);
        LastFreeClears(s, a);
      }
    }
  }

  lemma WriteClean(s: State, w: int, v: int, i: int)
    requires s.Valid() && (exists a :: Within(s, a, w)) && Clean(s, i)
    ensures Clean(Write(s, w, v), i)
  {
    var a :| Within(s, a, w);
    LiveBlockPlaced(s, a);
    if Unused(s, i) {
      OwnedElsewhere(s, i, s.live[a]);
      ClearedElsewhere(s.mem, Write(s, w, v).mem, PageAddr(s.base, i), Rd(s.page, s.live[a]));
    }
  }

  lemma StepClean(s: State, e: Event, t: State, i: int)
    requires s.Valid() && Step(s, e, t) && Clean(s, i)
    ensures Clean(t, i)
  {
    match e
    case Malloc(len) => MallocClean(s, len, i);
    case Free(a) => FreeClean(s, a, i);
    case ClientWrite(w, v) => WriteClean(s, w, v, i);
  }

  lemma RunStepClean(ss: seq<State>, es: seq<Event>, i: int, j: int)
    requires IsRun(ss, es) && ss[0].Valid() && 0 <= j < |es| && Clean(ss[j], i)
    ensures Clean(ss[j + 1], i)
  {
    RunValid(ss, es, j);
    assert StepAt(ss, es, j);
    StepClean(ss[j], es[j], ss[j + 1], i);
  }

  lemma {:induction false} StaysClean(ss: seq<State>, es: seq<Event>, i: int, first: int, last: int)
    requires IsRun(ss, es) && ss[0].Valid() && 0 <= first <= last < |ss| && Clean(ss[first], i)
    ensures Clean(ss[last], i)
    decreases last - first
  {
    if first < last {
      StaysClean(ss, es, i, first, last - 1);
      RunStepClean(ss, es, i, last - 1);
    }
  }

  /**
   * Over every run: a page that was in use, or read 0, at some moment reads 0
   * at every later moment at which it is not in use.
   */
  lemma ReleasedPagesReadZero(ss: seq<State>, es: seq<Event>, i: int, first: int, last: int)
    requires IsRun(ss, es) && ss[0].Valid() && 0 <= first <= last < |ss| && 0 <= i < |ss[first].use|
    requires ss[first].use[i] != 0 || Cleared(ss[first].mem, PageAddr(ss[first].base, i))
    requires i < |ss[last].use| && ss[last].use[i] == 0
    ensures var p := PageAddr(ss[last].base, i);
            forall w :: p <= w < p + PAGE_SIZE ==> Rd(ss[last].mem, w) == 0
  {
    StaysClean(ss, es, i, first, last);
  }

  /**
   * From `memory_init` on an arena of zeros: at every moment of every run all
   * pages that are not in use read 0.
   */
  lemma UnusedPagesReadZero(ss: seq<State>, es: seq<Event>, j: int, i: int, base: int, n: nat, paging: nat, mem: Words)
    requires base > 0 && base % PAGE_SIZE == 0 && n <= paging && Cleared(mem, PageAddr(base, i))
    requires IsRun(ss, es) && ss[0] == Initial(base, n, paging, mem) && 0 <= j < |ss|
    ensures Clean(ss[j], i)
  {
    InitialValid(base, n, paging, mem);
    StaysClean(ss, es, i, 0, j);
  }
}
