/**
 * `malloc` and `free` (lib/malloc.c) over `get_free_page` and `free_page`
 * (common/memory.c), as methods that update the allocator's fields in place.
 *
 * The ghost field `st` mirrors the fields and records what the links mean;
 * each method is proved to take it where the functions of AllocatorRuns say.
 */
module Allocator {
  import W = Words
  import opened AllocatorState
  import opened AllocatorLists
  import opened AllocatorSteps
  import opened AllocatorTheorems
  import opened AllocatorRuns
  import opened AllocatorRepeatFree

  /** A call either returns a pointer or ends in `panic`, which does not return. */
  datatype Outcome = Returned(ptr: int) | Panicked

  /** What `free` knows when it reaches `local_irq_save`. */
  datatype Lookup = Found(bdir: int, bdesc: int, prev: int) | Unaligned | BadAddress | RepeatFree

  /** The carving loops (lines 41-46 and 85-89): `n` pieces from `a` on, the last one pointing to `tail`. */
  method LinkPieces(m: Words, a: int, size: int, n: int, tail: int) returns (links: Words)
    requires n >= 1
    ensures links == LinkAll(m, a, size, n, tail)
  {
    links := m;
    var p, i := a, n;
    while i > 1
      invariant 1 <= i
      invariant LinkAll(links, p, size, i, tail) == LinkAll(m, a, size, n, tail)
    {
      links := links[p := p + size];
      p := p + size;
      i := i - 1;
    }
    links := links[p := tail];
  }

  class Heap {
    const base: int
    const limit: int
    // mem_map[].use
    var use: seq<int>
    // bd_kmap, bucket_dir[].chain, free_bucket_desc
    var kmap: seq<int>
    var heads: seq<int>
    var freeDesc: int
    // memory, and the fields of struct bucket_desc
    var mem: Words
    var next: Words
    var page: Words
    var freeptr: Words
    var refcnt: Words
    var size: Words
    ghost var st: State

    ghost predicate Mirrors()
      reads this
    {
      st.base == base && st.use == use && st.kmap == kmap && st.heads == heads && st.freeDesc == freeDesc &&
      st.mem == mem && st.next == next && st.page == page && st.freeptr == freeptr &&
      st.refcnt == refcnt && st.size == size &&
      limit / PAGE_SIZE == |use|
    }

    ghost predicate Inv()
      reads this
    {
      Mirrors() && st.Inv()
    }

    ghost predicate Valid()
      reads this
    {
      Mirrors() && st.Valid()
    }

    /** `memory_init`; bytes behind the last whole page are left alone. */
    constructor (base: int, limit: int, paging: nat, contents: Words)
      requires base > 0 && base % PAGE_SIZE == 0
      requires limit >= 0 && limit / PAGE_SIZE <= paging
      ensures Valid() && st == Initial(base, limit / PAGE_SIZE, paging, contents)
      ensures this.base == base && this.limit == limit
    {
      var n := limit / PAGE_SIZE;
      this.base, this.limit := base, limit;
      use := seq(n, _ => 0);
      kmap := seq(paging, _ => 0);
      heads := seq(BUCKETS, _ => 0);
      freeDesc := 0;
      mem := contents;
      next, page, freeptr, refcnt, size := map[], map[], map[], map[], map[];
      st := Initial(base, n, paging, contents);
      InitialValid(base, n, paging, contents);
    }

    /** `get_free_page`: the lowest unused page `i`, or NULL. */
    method GetFreePage() returns (p: int, ghost i: int)
      requires base > 0
      modifies this`use
      ensures IsFirstFree(old(use), i)
      ensures if i == |old(use)| then p == 0 && use == old(use)
              else p == PageAddr(base, i) > 0 && use == old(use)[i := 1]
    {
      i := 0;
      var n := 0;
      while n < |use|
        invariant 0 <= n <= |use| && i == n && use == old(use)
        invariant forall j :: 0 <= j < n ==> use[j] != 0
      {
        if use[n] == 0 {
          use := use[n := use[n] + 1];
          p := PageAddr(base, n);
          return;
        }
        n := n + 1;
        i := n;
      }
      p := 0;
    }

    /** `free_page`: only a page of the arena whose use count is 1 is given back and cleared. */
    method FreePage(addr: int)
      requires base % PAGE_SIZE == 0 && limit / PAGE_SIZE == |use|
      modifies this`use, this`mem
      ensures if IsPage(base, |old(use)|, addr) && old(use)[PageIndex(base, addr)] == 1
              then use == old(use)[PageIndex(base, addr) := 0] && mem == ZeroPage(old(mem), addr) &&
                   Cleared(mem, addr) && SameOutside(old(mem), mem, addr)
              else use == old(use) && mem == old(mem)
    {
      if addr < base { return; }
      if addr >= base + limit { return; }
      if addr % PAGE_SIZE != 0 { return; }
      var nr := PageIndex(base, addr);
      // entries behind the last page have never been in use
      if nr >= |use| { return; }
      PageIndexOf(base, |use|, addr);
      if use[nr] - 1 != 0 { return; }
      use := use[nr := use[nr] - 1];
      ZeroPageClears(mem, addr);
      mem := ZeroPage(mem, addr);
    }

    /** `init_bucket_desc`: a page of linked descriptors; false stands for the panic. */
    method InitBucketDesc() returns (ok: bool, ghost i: int)
      requires Mirrors() && base > 0
      modifies this`use, this`next, this`freeDesc, this`st
      ensures IsFirstFree(old(use), i)
      ensures ok <==> i < |old(use)|
      ensures ok ==> Mirrors() && st == AddStorage(old(st), i)
    {
      var first;
      first, i := GetFreePage();
      ok := first != 0;
      if !ok { return; }
      next := LinkPieces(next, first, DESC_SIZE, PAGE_SIZE / DESC_SIZE, freeDesc);
      freeDesc := first;
      st := AddStorage(st, i);
    }

    /** Lines 77-80: take the first unused descriptor. */
    method TakeDescriptor(k: int) returns (bdesc: int)
      modifies this`freeDesc, this`refcnt, this`size
      ensures bdesc == old(freeDesc) && freeDesc == Rd(next, bdesc)
      ensures refcnt == old(refcnt)[bdesc := 0] && size == old(size)[bdesc := SizeOf(k)]
    {
      bdesc := freeDesc;
      freeDesc := Rd(next, bdesc);
      refcnt := refcnt[bdesc := 0];
      size := size[bdesc := SizeOf(k)];
    }

    /** Lines 81-93: give the descriptor a fresh page, carved into blocks of bucket `k`, and chain it. */
    method AttachPage(k: int, bdesc: int) returns (ok: bool, ghost i: int)
      requires base > 0 && base % PAGE_SIZE == 0 && |use| <= |kmap| && 0 <= k < BUCKETS == |heads|
      modifies this`use, this`kmap, this`heads, this`mem, this`next, this`page, this`freeptr
      ensures IsFirstFree(old(use), i) && (ok <==> i < |old(use)|)
      ensures var p := PageAddr(base, i);
              ok ==>
                use == old(use)[i := 1] && kmap == old(kmap)[i := SizeOf(k)] && heads == old(heads)[k := bdesc] &&
                next == old(next)[bdesc := old(heads)[k]] && mem == LinkAll(old(mem), p, SizeOf(k), CountOf(k), 0) &&
                page == old(page)[bdesc := p] && freeptr == old(freeptr)[bdesc := p]
    {
      var cp;
      cp, i := GetFreePage();
      page, freeptr := page[bdesc := cp], freeptr[bdesc := cp];
      ok := cp != 0;
      if !ok { return; }
      var n := BlocksPerPage(k);
      mem := LinkPieces(mem, cp, SizeOf(k), n, 0);
      next := next[bdesc := heads[k]];
      heads := heads[k := bdesc];
      PageAddrOf(base, |use|, i);
      kmap := kmap[PageIndex(base, Rd(page, bdesc)) := SizeOf(k)];
    }

    /** Lines 67-69: the first descriptor of the chain with a free block, or NULL. */
    method FindRoom(k: int, ghost c: seq<int>) returns (bdesc: int)
      requires 0 <= k < |heads| && Linked(next, heads[k], c)
      ensures bdesc == At(c, FirstWithRoom(c, freeptr))
    {
      bdesc := heads[k];
      ghost var j := 0;
      while bdesc != 0
        invariant 0 <= j <= |c| && bdesc == At(c, j)
        invariant forall i :: 0 <= i < j ==> Rd(freeptr, c[i]) == 0
        decreases |c| - j
      {
        if Rd(freeptr, bdesc) != 0 { break; }
        bdesc := Rd(next, bdesc);
        j := j + 1;
      }
    }

    /** Lines 95-97: unlink the first free block of a descriptor. */
    method TakeBlock(bdesc: int) returns (retval: int)
      requires Mirrors() && bdesc in st.free && st.free[bdesc] != [] && Rd(freeptr, bdesc) == st.free[bdesc][0]
      modifies this`freeptr, this`refcnt, this`st
      ensures Mirrors() && st == Pop(old(st), bdesc) && retval == old(st).free[bdesc][0]
    {
      retval := Rd(freeptr, bdesc);
      freeptr := freeptr[bdesc := Rd(mem, retval)];
      refcnt := refcnt[bdesc := Rd(refcnt, bdesc) + 1];
      st := Pop(st, bdesc);
    }

    /** Lines 75-76: make sure there is an unused descriptor. */
    method EnsureDescriptor() returns (ok: bool)
      requires Inv()
      modifies this`use, this`next, this`freeDesc, this`st
      ensures var i := FirstFree(old(st).use);
              if old(st).slots != [] then ok && st == old(st) && Mirrors()
              else (ok <==> i < |old(st).use|) && (ok ==> Mirrors() && st == AddStorage(old(st), i))
    {
      SlotsHead(st);
      ok := true;
      if freeDesc == 0 {
        ghost var i;
        ok, i := InitBucketDesc();
        FirstFreeUnique(old(use), i);
      }
    }

    /** Lines 77-93. */
    method NewBucketPage(k: int) returns (bdesc: int, ok: bool)
      requires Mirrors() && st.Inv() && st.slots != [] && 0 <= k < BUCKETS
      modifies this
      ensures var i := FirstFree(old(st).use);
              (ok <==> i < |old(st).use|) &&
              (ok ==> Mirrors() && st == AddBucket(old(st), k, i) && bdesc == old(st).slots[0])
    {
      SlotsHead(st);
      bdesc := TakeDescriptor(k);
      ghost var i;
      ok, i := AttachPage(k, bdesc);
      FirstFreeUnique(old(use), i);
      if ok { st := AddBucket(st, k, i); }
    }

    /** Lines 71-94. */
    method GrowBucket(k: int) returns (bdesc: int, ok: bool)
      requires Inv() && 0 <= k < BUCKETS
      modifies this
      ensures ok <==> Grow(old(st), k).Done?
      ensures ok ==> Inv() && st == Grow(old(st), k).t && bdesc == Grow(old(st), k).ptr
    {
      bdesc := 0;
      ok := EnsureDescriptor();
      if !ok { return; }
      StorageReady(old(st), st);
      bdesc, ok := NewBucketPage(k);
    }

    /**
     * `malloc`: performs exactly the transition of `MallocNext`; by
     * `MallocTheorem` a returned block is new, fits, and disturbs nothing.
     */
    method Malloc(len: int) returns (r: Outcome)
      requires Valid()
      modifies this
      ensures match MallocNext(old(st), len)
              case Panic => r == Panicked
              case Done(t, p) => r == Returned(p) && Valid() && st == t && KeepsBlocks(old(st), st) &&
                                 (p != 0 ==> Allocated(old(st), st, len, p)) && (p == 0 <==> len > PAGE_SIZE)
    {
      ghost var s := st;
      MallocTheorem(s, len);
      LargestBucket(len);
      var k := 0;
      while k < BUCKETS && SizeOf(k) < len
        invariant 0 <= k <= BUCKETS && BucketFor(len, 0) == BucketFor(len, k)
      {
        k := k + 1;
      }
      if k == BUCKETS { return Returned(0); }
      r := MallocFrom(k);
    }

    /** Lines 66-98, with the bucket chosen. */
    method MallocFrom(k: int) returns (r: Outcome)
      requires Inv() && 0 <= k < BUCKETS
      modifies this
      ensures var s := old(st);
              var c := s.chains[k];
              var j := FirstWithRoom(c, s.freeptr);
              if j < |c| then
                c[j] in s.free && s.free[c[j]] != [] && Mirrors() && st == Pop(s, c[j]) &&
                r == Returned(s.free[c[j]][0])
              else
                match Grow(s, k)
                case Panic => r == Panicked
                case Done(t, d) => Mirrors() && st == Pop(t, d) && r == Returned(t.free[d][0])
    {
      ghost var s, c := st, st.chains[k];
      ghost var j := FirstWithRoom(c, freeptr);
      ChainLinked(s, k);
      var bdesc := FindRoom(k, c);
      if j < |c| { RoomIsFreeBlock(s, k, j); }
      if bdesc == 0 {
        var ok;
        bdesc, ok := GrowBucket(k);
        if !ok { return Panicked; }
      }
      FreeHead(st, bdesc);
      var retval := TakeBlock(bdesc);
      r := Returned(retval);
    }
  
    /** A client writes a word of a block it owns. */
    method Store(w: int, v: int)
      requires Valid() && exists a :: Within(st, a, w)
      modifies this`mem, this`st
      ensures Valid() && st == Write(old(st), w, v)
    {
      WriteValid(st, w, v);
      mem := mem[w := v];
      st := Write(st, w, v);
    }

    // ----- free

    /** Lines 123-128: the first descriptor `i` of the chain with this page, and the one before it. */
    method SearchChain(k: int, pg: int, ghost c: seq<int>) returns (bdesc: int, prev: int, ghost i: int)
      requires 0 <= k < |heads| && Linked(next, heads[k], c)
      ensures 0 <= i <= |c| && bdesc == At(c, i) && prev == At(c, i - 1)
      ensures forall j :: 0 <= j < i ==> Rd(page, c[j]) != pg
      ensures i < |c| ==> Rd(page, c[i]) == pg
    {
      bdesc, prev, i := heads[k], 0, 0;
      while bdesc != 0
        invariant 0 <= i <= |c| && bdesc == At(c, i) && prev == At(c, i - 1)
        invariant forall j :: 0 <= j < i ==> Rd(page, c[j]) != pg
        decreases |c| - i
      {
        if Rd(page, bdesc) == pg { return; }
        prev := bdesc;
        bdesc := Rd(next, bdesc);
        i := i + 1;
      }
    }

    /** Lines 133-140: does any link of the free list equal the block's first word? */
    method RepeatCheck(first: int, word: int, ghost fs: seq<int>) returns (alarm: bool)
      requires Linked(mem, first, fs)
      ensures alarm <==> fs != [] && word in fs[1..]
    {
      if first != 0 {
        var f := first;
        ghost var j := 0;
        while Rd(mem, f) != 0
          invariant 0 <= j < |fs| && f == fs[j]
          invariant forall i :: 0 < i <= j ==> fs[i] != word
          decreases |fs| - j
        {
          if Rd(mem, f) == word {
            assert word == fs[1..][j];
            return true;
          }
          f := Rd(mem, f);
          j := j + 1;
        }
        assert forall i :: 0 <= i < |fs[1..]| ==> fs[1..][i] == fs[i + 1];
      }
      alarm := false;
    }

    /**
     * Lines 111-140, up to `local_irq_save`. For a block of a chained page,
     * live or free, the alignment and bad-address panics are out of reach, the
     * descriptor found is the page's own, and the repeat-free panic happens
     * exactly when the block's first word equals a link of its free list.
     */
    method FreeLookup(obj: int, ghost d: int) returns (r: Lookup)
      requires Valid() && d in st.bucket && obj in st.blocks[d]
      ensures if st.free[d] != [] && Rd(st.mem, obj) in st.free[d][1..] then r == RepeatFree
              else r.Found? && r.bdesc == d && r.bdir == st.bucket[d] && (r.prev == 0 || IsDesc(st.storage, r.prev))
    {
      BlockLookup(st, obj, d);
      var pg := PageBase(obj);
      var sz := kmap[PageIndex(base, pg)];
      if W.And(obj, sz - 1) != 0 { return Unaligned; }
      var bdir := 0;
      while bdir < BUCKETS
        invariant 0 <= bdir <= st.bucket[d]
      {
        if SizeOf(bdir) < sz {
          SizesIncrease(bdir, st.bucket[d]);
          bdir := bdir + 1;
          continue;
        }
        SizesOrdered(bdir, st.bucket[d]);
        ghost var c := st.chains[bdir];
        ChainLinked(st, bdir);
        var bdesc, prev;
        ghost var i;
        bdesc, prev, i := SearchChain(bdir, pg, c);
        FoundOwnDescriptor(st, d, pg, c, i);
        FreeListLinked(st, d);
        var alarm := RepeatCheck(Rd(freeptr, bdesc), Rd(mem, obj), st.free[d]);
        if alarm { return RepeatFree; }
        return Found(bdir, bdesc, prev);
      }
      r := BadAddress;
    }
  
    /** Lines 149-151: walk the chain for the descriptor before `bdesc`. */
    method Predecessor(k: int, bdesc: int, ghost c: seq<int>, ghost i: int) returns (prev: int)
      requires 0 <= k < |heads| && Linked(next, heads[k], c) && NoDup(c) && 0 <= i < |c| && c[i] == bdesc
      ensures prev == At(c, i - 1)
    {
      prev := heads[k];
      ghost var j := 0;
      while prev != 0
        invariant 0 <= j <= |c| && prev == At(c, j)
        invariant 0 < i ==> j < i
        decreases |c| - j
      {
        if Rd(next, prev) == bdesc {
          UniquePredecessor(next, heads[k], c, j, i);
          break;
        }
        prev := Rd(next, prev);
        j := j + 1;
      }
    }

    /**
     * Lines 147-158. Whatever descriptor `stale` is, the recheck unlinks
     * exactly `bdesc`: the rest of its chain keeps its order, and the
     * "chains corrupted" panic is out of reach.
     */
    method Unlink(k: int, bdesc: int, stale: int, ghost c: seq<int>, ghost i: int) returns (panicked: bool)
      requires 0 <= k < |heads| && Linked(next, heads[k], c) && NoDup(c) && 0 <= i < |c| && c[i] == bdesc
      requires stale != 0 && Rd(next, stale) == bdesc ==> i > 0 && c[i - 1] == stale
      modifies this`next, this`heads
      ensures !panicked
      ensures next == (if i == 0 then old(next) else old(next)[c[i - 1] := Rd(old(next), bdesc)])
      ensures heads == (if i == 0 then old(heads)[k := Rd(old(next), bdesc)] else old(heads))
    {
      var prev := stale;
      if (prev != 0 && Rd(next, prev) != bdesc) || (prev == 0 && heads[k] != bdesc) {
        prev := Predecessor(k, bdesc, c, i);
      }
      HeadOnlyFirst(next, heads[k], c, i);
      assert prev == At(c, i - 1);
      if prev != 0 {
        next := next[prev := Rd(next, bdesc)];
      } else {
        if heads[k] != bdesc { return true; }
        heads := heads[k := Rd(next, bdesc)];
      }
      panicked := false;
    }

    /** Lines 143-145. */
    method GiveBlock(obj: int, bdesc: int)
      requires Mirrors() && obj in st.live && st.live[obj] == bdesc && bdesc in st.free
      modifies this`mem, this`freeptr, this`refcnt, this`st
      ensures Mirrors() && st == Push(old(st), obj)
    {
      mem := mem[obj := Rd(freeptr, bdesc)];
      freeptr := freeptr[bdesc := obj];
      refcnt := refcnt[bdesc := Rd(refcnt, bdesc) - 1];
      st := Push(st, obj);
    }

    /** Lines 147-162 on the fields, `i` being the position of `bdesc` in its chain `c`. */
    method Dismantle(k: int, bdesc: int, stale: int, ghost c: seq<int>, ghost i: int) returns (panicked: bool)
      requires 0 <= k < |heads| && Linked(next, heads[k], c) && NoDup(c) && 0 <= i < |c| && c[i] == bdesc
      requires stale != 0 && Rd(next, stale) == bdesc ==> i > 0 && c[i - 1] == stale
      requires base % PAGE_SIZE == 0 && limit / PAGE_SIZE == |use| && IsPage(base, |use|, Rd(page, bdesc))
      requires 0 <= PageIndex(base, Rd(page, bdesc)) < |use| && use[PageIndex(base, Rd(page, bdesc))] == 1
      modifies this`next, this`heads, this`use, this`mem, this`freeDesc
      ensures !panicked && freeDesc == bdesc
      ensures next == NextAfterRelease(old(next), c, i, old(freeDesc))
      ensures heads == if i == 0 then old(heads)[k := Rd(old(next), bdesc)] else old(heads)
      ensures use == old(use)[PageIndex(base, Rd(page, bdesc)) := 0] && mem == ZeroPage(old(mem), Rd(page, bdesc))
    {
      panicked := Unlink(k, bdesc, stale, c, i);
      if panicked { return; }
      FreePage(Rd(page, bdesc));
      next := next[bdesc := freeDesc];
      freeDesc := bdesc;
    }

    /** Lines 147-162: the descriptor of an idle page leaves its chain and its page is given back. */
    method ReleasePage(k: int, bdesc: int, stale: int, ghost i: int) returns (panicked: bool)
      requires Mirrors() && base % PAGE_SIZE == 0 && bdesc in st.bucket && k == st.bucket[bdesc]
      requires Releasable(st, bdesc, stale, i)
      modifies this`next, this`heads, this`use, this`mem, this`freeDesc, this`st
      ensures !panicked && Mirrors() && st == Release(old(st), bdesc, i)
    {
      panicked := Dismantle(k, bdesc, stale, st.chains[k], i);
      st := Release(st, bdesc, i);
    }

    /**
     * Lines 142-164, run with whatever predecessor the lookup left behind:
     * exactly the transition of `FreeNext`, without a panic.
     */
    method FreeCommit(obj: int, found: Lookup) returns (panicked: bool)
      requires Valid() && obj in st.live
      requires found.Found? && found.bdesc == st.live[obj] && found.bdesc in st.bucket
      requires found.bdir == st.bucket[found.bdesc] && (found.prev == 0 || IsDesc(st.storage, found.prev))
      modifies this
      ensures !panicked && Valid() && st == FreeNext(old(st), obj)
    {
      ghost var s := st;
      FreeTheorem(s, obj);
      PushLeavesOthers(s, obj);
      GiveBlock(obj, found.bdesc);
      panicked := false;
      if Rd(refcnt, found.bdesc) == 0 {
        LastBlockFreed(st, found.bdesc);
        ghost var i := ReleaseReady(st, found.bdesc, found.prev);
        panicked := ReleasePage(found.bdir, found.bdesc, found.prev, i);
      }
    }

    /** `free` of a live block, without interruption. */
    method Free(obj: int) returns (r: Outcome)
      requires Valid() && obj in st.live
      modifies this
      ensures if RepeatFreeAlarm(old(st), obj) then r == Panicked
              else r == Returned(0) && Valid() && st == FreeNext(old(st), obj)
    {
      LiveBlockPlaced(st, obj);
      var found := FreeLookup(obj, st.live[obj]);
      if !found.Found? { return Panicked; }
      var panicked := FreeCommit(obj, found);
      r := if panicked then Panicked else Returned(0);
    }

    /**
     * Lines 111-140 on a block that is already free: the repeated `free` is
     * caught if and only if the block is not the last one of its free list.
     */
    method FreeAgain(obj: int, ghost d: int) returns (caught: bool)
      requires Valid() && d in st.bucket && obj in st.free[d]
      ensures caught <==> obj != st.free[d][|st.free[d]| - 1]
    {
      RepeatCaught(st, d, obj);
      var found := FreeLookup(obj, d);
      caught := found.RepeatFree?;
    }

    /** One whole call or client write of an interrupt handler, as the run says. */
    method Handle(e: Event, ghost t: State)
      requires Valid() && Step(st, e, t)
      modifies this
      ensures Valid() && st == t
    {
      match e
      case Malloc(len) =>
        var r := Malloc(len);
      case Free(a) =>
        var r := Free(a);
      case ClientWrite(w, v) =>
        Store(w, v);
    }

    method RunHandlers(handlers: seq<Event>, ghost ss: seq<State>)
      requires Valid() && IsRun(ss, handlers) && ss[0] == st
      modifies this
      ensures Valid() && st == ss[|handlers|]
    {
      for i := 0 to |handlers|
        invariant Valid() && st == ss[i]
      {
        assert StepAt(ss, handlers, i);
        Handle(handlers[i], ss[i + 1]);
      }
    }

    /**
     * `free` of a live block with interrupt handlers running whole calls on
     * other blocks between the lookup and `local_irq_save`: unless the
     * repeat-free test fires, it returns without a panic, gives exactly this
     * block back, and unlinks its own descriptor from its own chain if and
     * only if no other block of the page is live by then.
     */
    method FreeInterrupted(obj: int, handlers: seq<Event>, ghost ss: seq<State>) returns (r: Outcome)
      requires Valid() && obj in st.live && IsRun(ss, handlers) && ss[0] == st && Event.Free(obj) !in handlers
      modifies this
      ensures RepeatFreeAlarm(old(st), obj) ==> r == Panicked
      ensures !RepeatFreeAlarm(old(st), obj) ==>
                r == Returned(0) && Valid() && CompletesFree(ss[|handlers|], obj, st) &&
                st == FreeNext(ss[|handlers|], obj)
    {
      LiveBlockPlaced(st, obj);
      var found := FreeLookup(obj, st.live[obj]);
      if !found.Found? { return Panicked; }
      InterruptedFree(ss, handlers, obj, found.prev);
      FreeCompletes(ss[|handlers|], obj);
      RunHandlers(handlers, ss);
      var panicked := FreeCommit(obj, found);
      r := if panicked then Panicked else Returned(0);
    }
  }

  /** From `t` to `u` exactly block `a` is given back, and at most its own descriptor leaves its chain. */
  ghost predicate CompletesFree(t: State, a: int, u: State) {
    t.Inv() && a in t.live && t.live[a] in t.bucket &&
    var d := t.live[a];
    var k := t.bucket[d];
    0 <= k < BUCKETS && d in t.chains[k] && u.live == t.live - {a} && KeepsBlocks(t, u) &&
    u.chains == if LiveOf(t.live, d) == {a} then t.chains[k := Without(t.chains[k], IndexOf(t.chains[k], d))]
                else t.chains
  }

  lemma FreeCompletes(t: State, a: int)
    requires t.Valid() && a in t.live
    ensures CompletesFree(t, a, FreeNext(t, a))
  {
    FreeTheorem(t, a);
    PushLeavesOthers(t, a);
  }

  lemma HeadOnlyFirst(next: Words, head: int, c: seq<int>, i: int)
    requires Linked(next, head, c) && NoDup(c) && 0 <= i < |c|
    ensures head == c[i] <==> i == 0
    ensures At(c, i - 1) == 0 <==> i == 0
  {
  }

  /** `d` is at position `i` of its chain, its page is in use, and `stale` is either useless or its predecessor. */
  ghost predicate Releasable(s: State, d: int, stale: int, i: int)
    requires d in s.bucket
  {
    var k, p := s.bucket[d], Rd(s.page, d);
    0 <= k < |s.heads| && k < |s.chains| && 0 <= i < |s.chains[k]| && s.chains[k][i] == d &&
    Linked(s.next, s.heads[k], s.chains[k]) && NoDup(s.chains[k]) &&
    (stale != 0 && Rd(s.next, stale) == d ==> i > 0 && s.chains[k][i - 1] == stale) &&
    IsPage(s.base, |s.use|, p) && 0 <= PageIndex(s.base, p) < |s.use| && s.use[PageIndex(s.base, p)] == 1
  }

  lemma ReleaseReady(s: State, d: int, stale: int) returns (i: int)
    requires s.Inv() && d in s.bucket && LiveOf(s.live, d) == {}
    requires stale == 0 || IsDesc(s.storage, stale)
    ensures 0 <= s.bucket[d] < BUCKETS && d in s.chains[s.bucket[d]] && i == IndexOf(s.chains[s.bucket[d]], d)
    ensures Releasable(s, d, stale, i)
  {
    var k := s.bucket[d];
    assert ChainOk(s.next, s.heads[k], s.chains[k], k, s.bucket);
    assert DescOk(s.base, |s.use|, s.kmap, s.owner, d, k, Rd(s.page, d), Rd(s.size, d));
    i := IndexOf(s.chains[k], d);
    ReleaseInv(s, d, i);
    if stale != 0 && Rd(s.next, stale) == d { StalePredecessor(s, d, stale); }
  }

  lemma {:induction false} SizesIncrease(j: int, k: int)
    requires 0 <= j && 0 <= k && SizeOf(j) < SizeOf(k)
    ensures j < k
  {
    if k <= j { SizesOrdered(j, k); }
  }

  /** Sizes grow with the bucket number. */
  lemma {:induction false} SizesOrdered(j: int, k: int)
    requires 0 <= j && 0 <= k
    ensures j < k ==> SizeOf(j) < SizeOf(k)
    ensures j >= k ==> SizeOf(j) >= SizeOf(k)
    decreases if j < k then k - j else j - k
  {
    if j < k - 1 {
      SizesOrdered(j, k - 1);
    } else if j > k {
      SizesOrdered(j - 1, k);
    }
  }

  lemma {:induction false} SizeIsPow2(k: int)
    requires 0 <= k
    ensures SizeOf(k) == W.Pow2(4 + k)
  {
    if k == 0 { assert W.Pow2(4) == 16; } else { SizeIsPow2(k - 1); }
  }

  /** What `free` reads about a live block: its page is in `bd_kmap` and it is aligned. */
  lemma BlockLookup(s: State, a: int, d: int)
    requires s.Inv() && d in s.bucket && a in s.blocks[d]
    ensures 0 <= s.bucket[d] < BUCKETS && PageBase(a) == Rd(s.page, d)
    ensures 0 <= PageIndex(s.base, PageBase(a)) < |s.kmap|
    ensures a > 0 && s.kmap[PageIndex(s.base, PageBase(a))] == SizeOf(s.bucket[d])
    ensures W.And(a, SizeOf(s.bucket[d]) - 1) == 0
  {
    BlockPlaced(s, a, d);
    SamePage(Rd(s.page, d), a);
    assert DescOk(s.base, |s.use|, s.kmap, s.owner, d, s.bucket[d], Rd(s.page, d), Rd(s.size, d));
    AlignedMask(a, s.bucket[d]);
  }

  /** The alignment test of line 114 on a multiple of the size. */
  lemma AlignedMask(a: nat, k: int)
    requires 0 <= k < BUCKETS && a % SizeOf(k) == 0
    ensures W.And(a, SizeOf(k) - 1) == 0
  {
    SizeIsPow2(k);
    W.LowBitsMask(a, 4 + k);
  }

  lemma FoundOwnDescriptor(s: State, d: int, pg: int, c: seq<int>, i: int)
    requires s.Inv() && d in s.bucket && pg == Rd(s.page, d) && c == s.chains[s.bucket[d]]
    requires 0 <= i <= |c| && (forall j :: 0 <= j < i ==> Rd(s.page, c[j]) != pg)
    requires i < |c| ==> Rd(s.page, c[i]) == pg
    ensures At(c, i) == d
    ensures At(c, i - 1) == 0 || IsDesc(s.storage, At(c, i - 1))
  {
    assert ChainOk(s.next, s.heads[s.bucket[d]], c, s.bucket[d], s.bucket);
    assert d in c;
    assert i < |c|;
    assert c[i] in c && (i > 0 ==> c[i - 1] in c);
    var e := c[i];
    assert DescOk(s.base, |s.use|, s.kmap, s.owner, d, s.bucket[d], Rd(s.page, d), Rd(s.size, d));
    assert DescOk(s.base, |s.use|, s.kmap, s.owner, e, s.bucket[e], Rd(s.page, e), Rd(s.size, e));
  }

  lemma FreeListLinked(s: State, d: int)
    requires s.Inv() && d in s.bucket
    ensures Linked(s.mem, Rd(s.freeptr, d), s.free[d])
  {
    assert FreeListOk(s.mem, Rd(s.freeptr, d), s.free[d], s.blocks[d], s.live);
  }

  method BlocksPerPage(k: int) returns (n: int)
    requires 0 <= k < BUCKETS
    ensures n == CountOf(k)
  {
    SizeTimesCount(k);
    W.ModMultiple(CountOf(k), SizeOf(k));
    n := PAGE_SIZE / SizeOf(k);
  }

  lemma SlotsHead(s: State)
    requires s.Inv()
    ensures s.freeDesc == 0 <==> s.slots == []
    ensures s.slots != [] ==> s.freeDesc == s.slots[0]
  {
  }

  lemma StorageReady(s: State, s1: State)
    requires s.Inv()
    requires if s.slots != [] then s1 == s
             else FirstFree(s.use) < |s.use| && s1 == AddStorage(s, FirstFree(s.use))
    ensures s1.Inv() && s1.slots != []
  {
    if s.slots == [] {
      AddStorageInv(s, FirstFree(s.use));
      CarveHead(PageAddr(s.base, FirstFree(s.use)), DESC_SIZE, DESCS_PER_PAGE);
    }
  }

  lemma ChainLinked(s: State, k: int)
    requires s.Inv() && 0 <= k < BUCKETS
    ensures Linked(s.next, s.heads[k], s.chains[k])
  {
    assert ChainOk(s.next, s.heads[k], s.chains[k], k, s.bucket);
  }

  lemma FreeHead(s: State, d: int)
    requires s.Inv() && d in s.bucket && s.free[d] != []
    ensures Rd(s.freeptr, d) == s.free[d][0]
  {
    assert FreeListOk(s.mem, Rd(s.freeptr, d), s.free[d], s.blocks[d], s.live);
  }
}
