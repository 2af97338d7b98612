/**
 * The transitions of the allocator on its state, and that each keeps the
 * invariant. The methods of the allocator class are proved to perform them.
 */
module AllocatorSteps {
  import opened AllocatorState
  import opened AllocatorLists

  // ----- geometry

  lemma {:induction false} CarveAt(a: int, size: int, n: int, b: int)
    requires size > 0 && n >= 0
    ensures |Carve(a, size, n)| == n
    ensures b in Carve(a, size, n) ==> a <= b && b + size <= a + size * n
    decreases n
  {
    if n > 0 {
      CarveAt(a + size, size, n - 1, b);
      assert size * n == size + size * (n - 1);
    }
  }

  lemma {:induction false} SizeTimesCount(k: int)
    requires 0 <= k < BUCKETS
    ensures SizeOf(k) * CountOf(k) == PAGE_SIZE
  {
    if k == 0 {
      assert CountOf(0) == 256;
    } else {
      SizeTimesCount(k - 1);
      assert SizeOf(k) * CountOf(k) == SizeOf(k - 1) * (2 * CountOf(k));
    }
  }

  /** A block lies inside its page. */
  lemma BlockInPage(p: int, k: int, a: int)
    requires 0 <= k < BUCKETS && a in PageBlocks(p, k)
    ensures p <= a && a + SizeOf(k) <= p + PAGE_SIZE
  {
    SizeTimesCount(k);
    CarveAt(p, SizeOf(k), CountOf(k), a);
  }

  lemma {:induction false} CarveSpacing(a: int, size: int, n: int, b: int, c: int)
    requires size > 0 && b in Carve(a, size, n) && c in Carve(a, size, n) && b < c
    ensures b + size <= c
    decreases n
  {
    var rest := Carve(a + size, size, n - 1);
    assert b == a || b in rest;
    assert c == a || c in rest;
    CarveAt(a + size, size, n - 1, b);
    CarveAt(a + size, size, n - 1, c);
    if b in rest { CarveSpacing(a + size, size, n - 1, b, c); }
  }

  /** Different blocks of one page do not overlap. */
  lemma BlockSpacing(p: int, k: int, a: int, b: int)
    requires a in PageBlocks(p, k) && b in PageBlocks(p, k) && a < b
    ensures a + SizeOf(k) <= b
  {
    CarveSpacing(p, SizeOf(k), CountOf(k), a, b);
  }

  /** A block address determines its page. */
  lemma BlockPage(p: int, k: int, a: int)
    requires 0 <= k < BUCKETS && p % PAGE_SIZE == 0 && a in PageBlocks(p, k)
    ensures PageBase(a) == p
  {
    BlockInPage(p, k, a);
  }

  /** No address is a block of two pages. */
  ghost predicate Separate(blocks: map<int, set<int>>) {
    forall d, e, a :: d in blocks && e in blocks && a in blocks[d] && a in blocks[e] ==> d == e
  }

  lemma PagesSeparate(s: State)
    requires s.Inv()
    ensures Separate(s.blocks)
  {
    forall d, e, a | d in s.blocks && e in s.blocks && a in s.blocks[d] && a in s.blocks[e] ensures d == e {
      BlockOfPage(s, d, a);
      BlockOfPage(s, e, a);
    }
  }

  lemma BlockOfPage(s: State, d: int, a: int)
    requires s.Inv() && d in s.blocks && a in s.blocks[d]
    ensures PageBase(a) == Rd(s.page, d) && PageBase(a) in s.owner && s.owner[PageBase(a)] == d
    ensures s.base <= a
  {
    assert DescOk(s.base, |s.use|, s.kmap, s.owner, d, s.bucket[d], Rd(s.page, d), Rd(s.size, d));
    BlockPage(Rd(s.page, d), s.bucket[d], a);
  }

  lemma LiveOfAdded(live: map<int, int>, a: int, d: int, e: int)
    requires a !in live
    ensures LiveOf(live[a := d], e) == if e == d then LiveOf(live, d) + {a} else LiveOf(live, e)
    ensures |LiveOf(live[a := d], e)| == |LiveOf(live, e)| + if e == d then 1 else 0
  {
    var live' := live[a := d];
    assert LiveOf(live', e) == if e == d then LiveOf(live, d) + {a} else LiveOf(live, e);
    assert a !in LiveOf(live, d);
  }

  lemma LiveOfRemoved(live: map<int, int>, a: int, e: int)
    requires a in live
    ensures LiveOf(live - {a}, e) == if e == live[a] then LiveOf(live, e) - {a} else LiveOf(live, e)
    ensures |LiveOf(live - {a}, e)| == |LiveOf(live, e)| - if e == live[a] then 1 else 0
  {
    var live' := live - {a};
    assert LiveOf(live', e) == if e == live[a] then LiveOf(live, e) - {a} else LiveOf(live, e);
    assert a in LiveOf(live, live[a]);
  }

  // ----- taking a block from a page (lib/malloc.c:95-97)

  ghost function Pop(s: State, d: int): State
    requires d in s.free && s.free[d] != []
  {
    var r := s.free[d][0];
    s.(freeptr := s.freeptr[d := Rd(s.mem, r)],
       refcnt := s.refcnt[d := Rd(s.refcnt, d) + 1],
       free := s.free[d := s.free[d][1..]],
       live := s.live[r := d])
  }

  lemma PopInv(s: State, d: int)
    requires s.Inv() && d in s.bucket && s.free[d] != []
    ensures Pop(s, d).Inv()
    ensures s.free[d][0] !in s.live && s.free[d][0] in s.blocks[d]
  {
    PagesSeparate(s);
    PopFreeLists(s.mem, s.freeptr, s.free, s.blocks, s.live, d);
    PopLive(s.live, s.free, s.blocks, s.refcnt, d);
  }

  lemma PopFreeLists(mem: Words, freeptr: Words, free: map<int, seq<int>>,
                     blocks: map<int, set<int>>, live: map<int, int>, d: int)
    requires FreeListsOk(mem, freeptr, free, blocks, live) && Separate(blocks)
    requires d in blocks && free[d] != []
    ensures var r := free[d][0];
            FreeListsOk(mem, freeptr[d := Rd(mem, r)], free[d := free[d][1..]], blocks, live[r := d]) &&
            r !in live && r in blocks[d]
  {
    var r := free[d][0];
    assert r in free[d];
    LinkedTail(mem, Rd(freeptr, d), free[d]);
    forall e | e in blocks && e != d ensures FreeListOk(mem, Rd(freeptr, e), free[e], blocks[e], live[r := d]) {
      assert FreeListOk(mem, Rd(freeptr, e), free[e], blocks[e], live);
    }
  }

  lemma PopLive(live: map<int, int>, free: map<int, seq<int>>, blocks: map<int, set<int>>, refcnt: Words, d: int)
    requires LiveOk(live, free, blocks, refcnt) && Separate(blocks)
    requires d in blocks && free[d] != [] && free[d][0] !in live && free[d][0] in blocks[d]
    ensures LiveOk(live[free[d][0] := d], free[d := free[d][1..]], blocks, refcnt[d := Rd(refcnt, d) + 1])
  {
    var r, live' := free[d][0], live[free[d][0] := d];
    assert free[d] == [r] + free[d][1..];
    forall e | e in blocks ensures |LiveOf(live', e)| == |LiveOf(live, e)| + if e == d then 1 else 0 {
      LiveOfAdded(live, r, d, e);
    }
    forall e | e in blocks && e != d ensures Covered(e, blocks[e], free[e], live') {
      assert Covered(e, blocks[e], free[e], live);
    }
    assert Covered(d, blocks[d], free[d], live);
  }

  // ----- giving a block back to its page (lib/malloc.c:143-145)

  ghost function Push(s: State, a: int): State
    requires a in s.live && s.live[a] in s.free
  {
    var d := s.live[a];
    s.(mem := s.mem[a := Rd(s.freeptr, d)],
       freeptr := s.freeptr[d := a],
       refcnt := s.refcnt[d := Rd(s.refcnt, d) - 1],
       free := s.free[d := [a] + s.free[d]],
       live := s.live - {a})
  }

  lemma PushInv(s: State, a: int)
    requires s.Inv() && a in s.live
    ensures s.live[a] in s.bucket && Push(s, a).Inv()
  {
    BlockOfPage(s, s.live[a], a);
    PagesSeparate(s);
    PushFreeLists(s.mem, s.freeptr, s.free, s.blocks, s.live, a);
    PushLive(s.live, s.free, s.blocks, s.refcnt, a);
  }

  lemma PushFreeLists(mem: Words, freeptr: Words, free: map<int, seq<int>>,
                      blocks: map<int, set<int>>, live: map<int, int>, a: int)
    requires FreeListsOk(mem, freeptr, free, blocks, live)
    requires a in live && a != 0 && live[a] in blocks && a in blocks[live[a]]
    ensures var d := live[a];
            FreeListsOk(mem[a := Rd(freeptr, d)], freeptr[d := a], free[d := [a] + free[d]], blocks, live - {a})
  {
    var d := live[a];
    var mem', live' := mem[a := Rd(freeptr, d)], live - {a};
    assert FreeListOk(mem, Rd(freeptr, d), free[d], blocks[d], live);
    LinkedPush(mem, Rd(freeptr, d), free[d], a);
    assert FreeListOk(mem', a, [a] + free[d], blocks[d], live');
    forall e | e in blocks && e != d ensures FreeListOk(mem', Rd(freeptr, e), free[e], blocks[e], live') {
      assert FreeListOk(mem, Rd(freeptr, e), free[e], blocks[e], live);
      LinkedFrame(mem, mem', Rd(freeptr, e), free[e]);
    }
  }

  lemma PushLive(live: map<int, int>, free: map<int, seq<int>>, blocks: map<int, set<int>>, refcnt: Words, a: int)
    requires LiveOk(live, free, blocks, refcnt) && Separate(blocks)
    requires a in live
    ensures var d := live[a];
            LiveOk(live - {a}, free[d := [a] + free[d]], blocks, refcnt[d := Rd(refcnt, d) - 1])
  {
    var d, live' := live[a], live - {a};
    forall e | e in blocks ensures |LiveOf(live', e)| == |LiveOf(live, e)| - if e == d then 1 else 0 {
      LiveOfRemoved(live, a, e);
    }
    forall e | e in blocks && e != d ensures Covered(e, blocks[e], free[e], live') {
      assert Covered(e, blocks[e], free[e], live);
    }
    assert Covered(d, blocks[d], free[d], live);
    assert Covered(d, blocks[d], [a] + free[d], live');
  }

  // ----- a client writing into its own block

  ghost function Write(s: State, w: int, v: int): State {
    s.(mem := s.mem[w := v])
  }

  /** An address inside a live block is not the first word of any free block. */
  lemma LiveAddressNotFree(s: State, a: int, w: int)
    requires s.Inv() && a in s.live && s.live[a] in s.bucket
    requires a <= w < a + SizeOf(s.bucket[s.live[a]])
    ensures forall d :: d in s.blocks ==> w !in s.free[d]
  {
    var e := s.live[a];
    BlockOfPage(s, e, a);
    var p, k := Rd(s.page, e), s.bucket[e];
    assert DescOk(s.base, |s.use|, s.kmap, s.owner, e, k, p, Rd(s.size, e));
    BlockInPage(p, k, a);
    SamePage(p, w);
    forall d | d in s.blocks ensures w !in s.free[d] {
      assert FreeListOk(s.mem, Rd(s.freeptr, d), s.free[d], s.blocks[d], s.live);
      if w in s.free[d] {
        BlockOfPage(s, d, w);
        if a < w { BlockSpacing(p, k, a, w); }
      }
    }
  }

  lemma SamePage(p: int, w: int)
    requires p % PAGE_SIZE == 0 && p <= w < p + PAGE_SIZE
    ensures PageBase(w) == p
  {
  }

  lemma WriteInv(s: State, a: int, w: int, v: int)
    requires s.Inv() && a in s.live && s.live[a] in s.bucket
    requires a <= w < a + SizeOf(s.bucket[s.live[a]])
    ensures Write(s, w, v).Inv()
  {
    LiveAddressNotFree(s, a, w);
    FreeListsFrame(s.mem, s.mem[w := v], s.freeptr, s.free, s.blocks, s.live);
  }

  lemma FreeListsFrame(mem: Words, mem': Words, freeptr: Words, free: map<int, seq<int>>,
                       blocks: map<int, set<int>>, live: map<int, int>)
    requires FreeListsOk(mem, freeptr, free, blocks, live)
    requires forall d, f :: d in blocks && f in free[d] ==> Rd(mem', f) == Rd(mem, f)
    ensures FreeListsOk(mem', freeptr, free, blocks, live)
  {
    forall d | d in blocks ensures FreeListOk(mem', Rd(freeptr, d), free[d], blocks[d], live) {
      assert FreeListOk(mem, Rd(freeptr, d), free[d], blocks[d], live);
      LinkedFrame(mem, mem', Rd(freeptr, d), free[d]);
    }
  }

  // ----- page arithmetic

  lemma PageIndexOf(base: int, n: int, p: int)
    requires base % PAGE_SIZE == 0 && IsPage(base, n, p)
    ensures 0 <= PageIndex(base, p) < n && PageAddr(base, PageIndex(base, p)) == p
  {
  }

  lemma PageAddrOf(base: int, n: int, i: int)
    requires base % PAGE_SIZE == 0 && 0 <= i < n
    ensures IsPage(base, n, PageAddr(base, i)) && PageIndex(base, PageAddr(base, i)) == i
  {
  }

  /** Marking one more page: `p` moves from unused to storage or owned. */
  lemma PageTaken(base: int, use: seq<int>, storage: set<int>, owner: map<int, int>,
                  i: int, storage': set<int>, owner': map<int, int>)
    requires base % PAGE_SIZE == 0 && PagesOk(base, use, storage, owner)
    requires 0 <= i < |use| && use[i] == 0
    requires var p := PageAddr(base, i);
             (storage' == storage + {p} && owner' == owner) ||
             (storage' == storage && p in owner' && owner' == owner[p := owner'[p]])
    ensures PagesOk(base, use[i := 1], storage', owner')
    ensures PageAddr(base, i) !in storage && PageAddr(base, i) !in owner
  {
    PageAddrOf(base, |use|, i);
    var use' := use[i := 1];
    forall j | 0 <= j < |use'|
      ensures use'[j] == if PageAddr(base, j) in storage' || PageAddr(base, j) in owner' then 1 else 0
    {
    }
  }

  lemma PageReleased(base: int, use: seq<int>, storage: set<int>, owner: map<int, int>, p: int)
    requires base % PAGE_SIZE == 0 && PagesOk(base, use, storage, owner) && p in owner
    ensures 0 <= PageIndex(base, p) < |use| && use[PageIndex(base, p)] == 1
    ensures PagesOk(base, use[PageIndex(base, p) := 0], storage, owner - {p})
  {
    PageIndexOf(base, |use|, p);
    var i := PageIndex(base, p);
    var use', owner' := use[i := 0], owner - {p};
    forall j | 0 <= j < |use'|
      ensures use'[j] == if PageAddr(base, j) in storage || PageAddr(base, j) in owner' then 1 else 0
    {
    }
  }

  // ----- returning an idle page (lib/malloc.c:147-162, common/memory.c:30-54)

  /** `memset(page, 0, 4096)`: a word that is not recorded reads as 0. */
  function ZeroPage(mem: Words, p: int): Words {
    map a | a in mem && !(p <= a < p + PAGE_SIZE) :: mem[a]
  }

  /** Every word of the page reads 0. */
  ghost predicate Cleared(mem: Words, p: int) {
    forall w :: p <= w < p + PAGE_SIZE ==> Rd(mem, w) == 0
  }

  /** No word outside the page is different. */
  ghost predicate SameOutside(was: Words, now: Words, p: int) {
    forall w :: !(p <= w < p + PAGE_SIZE) ==> Rd(now, w) == Rd(was, w)
  }

  lemma ZeroPageClears(mem: Words, p: int)
    ensures Cleared(ZeroPage(mem, p), p) && SameOutside(mem, ZeroPage(mem, p), p)
  {
  }

  /** The links after `d`, at position `i` of `chain`, is unlinked and put on the unused list. */
  ghost function NextAfterRelease(next: Words, chain: seq<int>, i: int, freeDesc: int): Words
    requires 0 <= i < |chain|
  {
    (if i == 0 then next else next[chain[i - 1] := Rd(next, chain[i])])[chain[i] := freeDesc]
  }

  ghost function Release(s: State, d: int, i: int): State
    requires d in s.bucket && 0 <= s.bucket[d] < |s.chains| && s.bucket[d] < |s.heads|
    requires 0 <= i < |s.chains[s.bucket[d]]|
    requires 0 <= PageIndex(s.base, Rd(s.page, d)) < |s.use|
  {
    var k, p := s.bucket[d], Rd(s.page, d);
    s.(next := NextAfterRelease(s.next, s.chains[k], i, s.freeDesc),
       heads := if i == 0 then s.heads[k := Rd(s.next, d)] else s.heads,
       freeDesc := d,
       use := s.use[PageIndex(s.base, p) := 0],
       mem := ZeroPage(s.mem, p),
       chains := s.chains[k := Without(s.chains[k], i)],
       bucket := s.bucket - {d},
       blocks := s.blocks - {d},
       free := s.free - {d},
       slots := [d] + s.slots,
       owner := s.owner - {p})
  }

  lemma ReleaseInv(s: State, d: int, i: int)
    requires s.Inv() && d in s.bucket && LiveOf(s.live, d) == {}
    requires 0 <= i < |s.chains[s.bucket[d]]| && s.chains[s.bucket[d]][i] == d
    ensures var p := Rd(s.page, d);
            0 <= PageIndex(s.base, p) < |s.use| && s.use[PageIndex(s.base, p)] == 1
    ensures Release(s, d, i).Inv()
  {
    var p := Rd(s.page, d);
    assert DescOk(s.base, |s.use|, s.kmap, s.owner, d, s.bucket[d], p, Rd(s.size, d));
    PageReleased(s.base, s.use, s.storage, s.owner, p);
    ReleaseChains(s.heads, s.chains, s.next, s.bucket, d, i, s.freeDesc);
    ReleaseSlots(s, d, i);
    ReleaseDescs(s, d);
    ReleaseFreeLists(s, d);
    ReleaseLive(s.live, s.free, s.blocks, s.refcnt, d);
  }

  lemma ReleaseChains(heads: seq<int>, chains: seq<seq<int>>, next: Words, bucket: map<int, int>,
                      d: int, i: int, freeDesc: int)
    requires ChainsOk(heads, chains, next, bucket) && d in bucket
    requires 0 <= i < |chains[bucket[d]]| && chains[bucket[d]][i] == d
    ensures var k := bucket[d];
            ChainsOk(if i == 0 then heads[k := Rd(next, d)] else heads, chains[k := Without(chains[k], i)],
                     NextAfterRelease(next, chains[k], i, freeDesc), bucket - {d})
  {
    var k, c := bucket[d], chains[bucket[d]];
    var next' := NextAfterRelease(next, c, i, freeDesc);
    assert ChainOk(next, heads[k], c, k, bucket);
    UnlinkedChain(next, heads[k], c, i, freeDesc);
    forall j | 0 <= j < BUCKETS && j != k ensures ChainOk(next', heads[j], chains[j], j, bucket - {d}) {
      assert ChainOk(next, heads[j], chains[j], j, bucket);
      OtherChain(next, heads[j], chains[j], c, i, freeDesc);
    }
  }

  lemma UnlinkedChain(next: Words, head: int, c: seq<int>, i: int, freeDesc: int)
    requires Linked(next, head, c) && NoDup(c) && 0 <= i < |c|
    ensures Linked(NextAfterRelease(next, c, i, freeDesc), if i == 0 then Rd(next, c[i]) else head, Without(c, i))
    ensures NoDup(Without(c, i))
    ensures forall x :: x in Without(c, i) <==> x in c && x != c[i]
  {
    var next' := NextAfterRelease(next, c, i, freeDesc);
    WithoutMembers(c, i);
    if i == 0 {
      LinkedTail(next, head, c);
      assert Without(c, 0) == c[1..];
      LinkedFrame(next, next', Rd(next, c[i]), Without(c, i));
    } else {
      LinkedUnlink(next, head, c, i);
      LinkedFrame(next[c[i - 1] := Rd(next, c[i])], next', head, Without(c, i));
    }
  }

  lemma OtherChain(next: Words, head: int, other: seq<int>, c: seq<int>, i: int, freeDesc: int)
    requires Linked(next, head, other) && 0 <= i < |c|
    requires forall x :: x in other ==> x !in c
    ensures Linked(NextAfterRelease(next, c, i, freeDesc), head, other)
  {
    assert c[i] in c && (i > 0 ==> c[i - 1] in c);
    LinkedFrame(next, NextAfterRelease(next, c, i, freeDesc), head, other);
  }

  lemma ReleaseSlots(s: State, d: int, i: int)
    requires ChainsOk(s.heads, s.chains, s.next, s.bucket) && d in s.bucket
    requires SlotsOk(s.freeDesc, s.slots, s.next, s.storage, s.bucket)
    requires 0 <= i < |s.chains[s.bucket[d]]| && s.chains[s.bucket[d]][i] == d
    ensures SlotsOk(d, [d] + s.slots, NextAfterRelease(s.next, s.chains[s.bucket[d]], i, s.freeDesc),
                    s.storage, s.bucket - {d})
  {
    var c := s.chains[s.bucket[d]];
    var next1 := if i == 0 then s.next else s.next[c[i - 1] := Rd(s.next, d)];
    assert i > 0 ==> c[i - 1] in c;
    LinkedFrame(s.next, next1, s.freeDesc, s.slots);
    LinkedPush(next1, s.freeDesc, s.slots, d);
  }

  lemma ReleaseDescs(s: State, d: int)
    requires DescsOk(s.base, |s.use|, s.kmap, s.owner, s.bucket, s.page, s.size) && d in s.bucket
    requires BlocksOk(s.blocks, s.bucket, s.page)
    ensures DescsOk(s.base, |s.use|, s.kmap, s.owner - {Rd(s.page, d)}, s.bucket - {d}, s.page, s.size)
    ensures BlocksOk(s.blocks - {d}, s.bucket - {d}, s.page)
  {
    var owner', bucket' := s.owner - {Rd(s.page, d)}, s.bucket - {d};
    assert DescOk(s.base, |s.use|, s.kmap, s.owner, d, s.bucket[d], Rd(s.page, d), Rd(s.size, d));
    forall e | e in bucket'
      ensures DescOk(s.base, |s.use|, s.kmap, owner', e, bucket'[e], Rd(s.page, e), Rd(s.size, e))
    {
      assert DescOk(s.base, |s.use|, s.kmap, s.owner, e, s.bucket[e], Rd(s.page, e), Rd(s.size, e));
    }
  }

  lemma ReleaseFreeLists(s: State, d: int)
    requires s.Inv() && d in s.bucket
    ensures FreeListsOk(ZeroPage(s.mem, Rd(s.page, d)), s.freeptr, s.free - {d}, s.blocks - {d}, s.live)
  {
    var p := Rd(s.page, d);
    var mem' := ZeroPage(s.mem, p);
    assert DescOk(s.base, |s.use|, s.kmap, s.owner, d, s.bucket[d], p, Rd(s.size, d));
    forall e, f | e in s.blocks - {d} && f in s.free[e] ensures Rd(mem', f) == Rd(s.mem, f) {
      assert FreeListOk(s.mem, Rd(s.freeptr, e), s.free[e], s.blocks[e], s.live);
      BlockOfPage(s, e, f);
      if p <= f < p + PAGE_SIZE { SamePage(p, f); }
    }
    FreeListsFrame(s.mem, mem', s.freeptr, s.free - {d}, s.blocks - {d}, s.live);
  }

  lemma ReleaseLive(live: map<int, int>, free: map<int, seq<int>>, blocks: map<int, set<int>>, refcnt: Words, d: int)
    requires LiveOk(live, free, blocks, refcnt) && d in blocks && LiveOf(live, d) == {}
    ensures LiveOk(live, free - {d}, blocks - {d}, refcnt)
  {
    forall a | a in live ensures live[a] in blocks - {d} {
      assert a in LiveOf(live, live[a]);
    }
  }

  // ----- carving a fresh page (lib/malloc.c:41-46, 85-89)

  /** Each of the `n` pieces from `a` on is made to point to the next one, the last one to `tail`. */
  ghost function LinkAll(m: Words, a: int, size: int, n: int, tail: int): Words
    decreases n, a
  {
    if n <= 1 then m[a := tail] else LinkAll(m[a := a + size], a + size, size, n - 1, tail)
  }

  lemma {:induction false} LinkAllFrame(m: Words, a: int, size: int, n: int, tail: int, x: int)
    requires n >= 1 && x !in Carve(a, size, n)
    ensures Rd(LinkAll(m, a, size, n, tail), x) == Rd(m, x)
    decreases n
  {
    assert x != a && x !in Carve(a + size, size, n - 1);
    if n > 1 { LinkAllFrame(m[a := a + size], a + size, size, n - 1, tail, x); }
  }

  lemma {:induction false} CarveAfter(a: int, size: int, n: int, b: int)
    requires size > 0 && b in Carve(a, size, n)
    ensures a <= b
    decreases n
  {
    if b != a { CarveAfter(a + size, size, n - 1, b); }
  }

  lemma {:induction false} CarveNoDup(a: int, size: int, n: int)
    requires size > 0
    ensures NoDup(Carve(a, size, n))
    decreases n
  {
    if n > 0 {
      CarveNoDup(a + size, size, n - 1);
      if a in Carve(a + size, size, n - 1) { CarveAfter(a + size, size, n - 1, a); }
    }
  }

  lemma {:induction false} LinkAllLinked(m: Words, a: int, size: int, n: int, tail: int, rest: seq<int>)
    requires n >= 1 && size > 0 && a > 0 && Linked(m, tail, rest)
    requires forall x :: x in rest ==> x !in Carve(a, size, n)
    ensures Linked(LinkAll(m, a, size, n, tail), a, Carve(a, size, n) + rest)
    decreases n
  {
    if n == 1 {
      LinkedPush(m, tail, rest, a);
      assert Carve(a, size, 1) == [a] + Carve(a + size, size, 0) == [a];
    } else {
      var m1, c := m[a := a + size], Carve(a + size, size, n - 1);
      CarveHead(a, size, n);
      LinkedFrame(m, m1, tail, rest);
      LinkAllLinked(m1, a + size, size, n - 1, tail, rest);
      LinkAllFrame(m1, a + size, size, n - 1, tail, a);
      LinkedCons(LinkAll(m1, a + size, size, n - 1, tail), a, a + size, c + rest);
      assert ([a] + c) + rest == [a] + (c + rest);
    }
  }

  lemma CarveHead(a: int, size: int, n: int)
    requires n >= 1 && size > 0
    ensures Carve(a, size, n) == [a] + Carve(a + size, size, n - 1)
    ensures a !in Carve(a + size, size, n - 1)
    ensures forall x :: x in Carve(a, size, n) <==> x == a || x in Carve(a + size, size, n - 1)
  {
    if a in Carve(a + size, size, n - 1) { CarveAfter(a + size, size, n - 1, a); }
  }

  lemma LinkedCons(next: Words, a: int, head: int, s: seq<int>)
    requires Linked(next, head, s) && a != 0 && Rd(next, a) == head
    ensures Linked(next, a, [a] + s)
  {
    var t := [a] + s;
    forall i | 0 <= i < |t| ensures t[i] != 0 && Rd(next, t[i]) == At(t, i + 1) {
      if i > 0 { assert t[i] == s[i - 1] && At(t, i + 1) == At(s, i); }
    }
  }

  // ----- a page of descriptors (lib/malloc.c:32-48)

  ghost function AddStorage(s: State, i: int): State
    requires 0 <= i < |s.use|
  {
    var p := PageAddr(s.base, i);
    s.(use := s.use[i := 1],
       next := LinkAll(s.next, p, DESC_SIZE, DESCS_PER_PAGE, s.freeDesc),
       freeDesc := p,
       slots := Carve(p, DESC_SIZE, DESCS_PER_PAGE) + s.slots,
       storage := s.storage + {p})
  }

  lemma {:induction false} DescCarve(a: int, n: int, d: int)
    requires n >= 0
    ensures d in Carve(a, DESC_SIZE, n) <==> a <= d < a + DESC_SIZE * n && (d - a) % DESC_SIZE == 0
    decreases n
  {
    if n > 0 { DescCarve(a + DESC_SIZE, n - 1, d); }
  }

  /** The descriptors of a page are what carving it yields. */
  lemma DescsOfPage(p: int, d: int)
    requires p % PAGE_SIZE == 0
    ensures d in Carve(p, DESC_SIZE, DESCS_PER_PAGE) <==>
            PageBase(d) == p && (d % PAGE_SIZE) % DESC_SIZE == 0 && d % PAGE_SIZE < DESC_SIZE * DESCS_PER_PAGE
  {
    DescCarve(p, DESCS_PER_PAGE, d);
    if p <= d < p + PAGE_SIZE { SamePage(p, d); }
  }

  lemma AddStorageInv(s: State, i: int)
    requires s.Inv() && 0 <= i < |s.use| && s.use[i] == 0
    ensures AddStorage(s, i).Inv()
  {
    var p := PageAddr(s.base, i);
    PageTaken(s.base, s.use, s.storage, s.owner, i, s.storage + {p}, s.owner);
    AddStorageDescs(s.storage, p);
    AddStorageSlots(s.freeDesc, s.slots, s.next, s.storage, s.bucket, p);
    AddStorageChains(s.heads, s.chains, s.next, s.bucket, s.storage, s.freeDesc, p);
  }

  lemma AddStorageDescs(storage: set<int>, p: int)
    requires p % PAGE_SIZE == 0 && p !in storage
    ensures forall d :: IsDesc(storage + {p}, d) <==> IsDesc(storage, d) || d in Carve(p, DESC_SIZE, DESCS_PER_PAGE)
    ensures forall d :: IsDesc(storage, d) ==> d !in Carve(p, DESC_SIZE, DESCS_PER_PAGE)
  {
    forall d
      ensures IsDesc(storage + {p}, d) <==> IsDesc(storage, d) || d in Carve(p, DESC_SIZE, DESCS_PER_PAGE)
      ensures IsDesc(storage, d) ==> d !in Carve(p, DESC_SIZE, DESCS_PER_PAGE)
    {
      DescsOfPage(p, d);
    }
  }

  lemma AddStorageSlots(freeDesc: int, slots: seq<int>, next: Words, storage: set<int>, bucket: map<int, int>, p: int)
    requires SlotsOk(freeDesc, slots, next, storage, bucket) && p > 0 && p % PAGE_SIZE == 0 && p !in storage
    ensures SlotsOk(p, Carve(p, DESC_SIZE, DESCS_PER_PAGE) + slots,
                    LinkAll(next, p, DESC_SIZE, DESCS_PER_PAGE, freeDesc), storage + {p}, bucket)
  {
    var c := Carve(p, DESC_SIZE, DESCS_PER_PAGE);
    AddStorageDescs(storage, p);
    LinkAllLinked(next, p, DESC_SIZE, DESCS_PER_PAGE, freeDesc, slots);
    CarveNoDup(p, DESC_SIZE, DESCS_PER_PAGE);
    AppendNoDup(c, slots);
  }

  lemma AppendNoDup(s: seq<int>, t: seq<int>)
    requires NoDup(s) && NoDup(t) && forall x :: x in t ==> x !in s
    ensures NoDup(s + t)
  {
    forall i, j | 0 <= i < j < |s + t| ensures (s + t)[i] != (s + t)[j] {
      if i < |s| <= j { assert s[i] in s && t[j - |s|] in t; }
    }
  }

  lemma AddStorageChains(heads: seq<int>, chains: seq<seq<int>>, next: Words, bucket: map<int, int>,
                         storage: set<int>, freeDesc: int, p: int)
    requires ChainsOk(heads, chains, next, bucket) && p % PAGE_SIZE == 0 && p !in storage
    requires forall d :: d in bucket ==> IsDesc(storage, d)
    ensures ChainsOk(heads, chains, LinkAll(next, p, DESC_SIZE, DESCS_PER_PAGE, freeDesc), bucket)
  {
    var next' := LinkAll(next, p, DESC_SIZE, DESCS_PER_PAGE, freeDesc);
    AddStorageDescs(storage, p);
    forall k | 0 <= k < BUCKETS ensures ChainOk(next', heads[k], chains[k], k, bucket) {
      assert ChainOk(next, heads[k], chains[k], k, bucket);
      forall x | x in chains[k] ensures Rd(next', x) == Rd(next, x) {
        LinkAllFrame(next, p, DESC_SIZE, DESCS_PER_PAGE, freeDesc, x);
      }
      LinkedFrame(next, next', heads[k], chains[k]);
    }
  }

  // ----- a fresh bucket page (lib/malloc.c:77-93)

  ghost function AddBucket(s: State, k: int, i: int): State
    requires s.slots != [] && 0 <= k < |s.heads| && k < |s.chains| && 0 <= i < |s.use| && i < |s.kmap|
  {
    var d, p, z, n := s.slots[0], PageAddr(s.base, i), SizeOf(k), CountOf(k);
    s.(use := s.use[i := 1],
       kmap := s.kmap[i := z],
       heads := s.heads[k := d],
       freeDesc := Rd(s.next, d),
       mem := LinkAll(s.mem, p, z, n, 0),
       next := s.next[d := s.heads[k]],
       page := s.page[d := p],
       freeptr := s.freeptr[d := p],
       refcnt := s.refcnt[d := 0],
       size := s.size[d := z],
       chains := s.chains[k := [d] + s.chains[k]],
       bucket := s.bucket[d := k],
       blocks := s.blocks[d := PageBlocks(p, k)],
       free := s.free[d := Carve(p, z, n)],
       slots := s.slots[1..],
       owner := s.owner[p := d])
  }

  lemma AddBucketInv(s: State, k: int, i: int)
    requires s.Inv() && s.slots != [] && 0 <= k < BUCKETS && 0 <= i < |s.use| && s.use[i] == 0
    ensures AddBucket(s, k, i).Inv()
    ensures s.slots[0] !in s.bucket && LiveOf(s.live, s.slots[0]) == {}
  {
    var d, p := s.slots[0], PageAddr(s.base, i);
    assert d in s.slots;
    PageTaken(s.base, s.use, s.storage, s.owner, i, s.storage, s.owner[p := d]);
    AddBucketChains(s.heads, s.chains, s.next, s.bucket, k, d);
    AddBucketSlots(s.freeDesc, s.slots, s.next, s.storage, s.bucket, k, s.heads[k]);
    AddBucketDescs(s, k, i, d);
    AddBucketBlocks(s.blocks, s.bucket, s.page, d, p, k);
    AddBucketMemory(s, k, p, d);
    AddBucketLive(s.live, s.free, s.blocks, s.refcnt, d, p, k);
  }

  lemma AddBucketChains(heads: seq<int>, chains: seq<seq<int>>, next: Words, bucket: map<int, int>, k: int, d: int)
    requires ChainsOk(heads, chains, next, bucket) && 0 <= k < BUCKETS && d !in bucket && d != 0
    ensures ChainsOk(heads[k := d], chains[k := [d] + chains[k]], next[d := heads[k]], bucket[d := k])
  {
    var next', bucket' := next[d := heads[k]], bucket[d := k];
    assert ChainOk(next, heads[k], chains[k], k, bucket);
    LinkedPush(next, heads[k], chains[k], d);
    assert ChainOk(next', d, [d] + chains[k], k, bucket');
    forall j | 0 <= j < BUCKETS && j != k ensures ChainOk(next', heads[j], chains[j], j, bucket') {
      assert ChainOk(next, heads[j], chains[j], j, bucket);
      LinkedFrame(next, next', heads[j], chains[j]);
    }
  }

  lemma SlotsMove(slots: seq<int>, rest: seq<int>, d: int, bucket: map<int, int>, k: int)
    requires slots == [d] + rest && NoDup(slots) && forall e :: e in slots ==> e !in bucket
    ensures NoDup(rest) && (forall e :: e in rest ==> e !in bucket[d := k])
    ensures forall e :: e in bucket || e in slots <==> e in bucket[d := k] || e in rest
  {
    forall i | 0 <= i < |rest| ensures rest[i] != d && rest[i] == slots[i + 1] {
      assert slots[0] != slots[i + 1];
    }
    assert forall e :: e in slots <==> e == d || e in rest;
  }

  lemma AddBucketSlots(freeDesc: int, slots: seq<int>, next: Words, storage: set<int>,
                       bucket: map<int, int>, k: int, head: int)
    requires SlotsOk(freeDesc, slots, next, storage, bucket) && slots != []
    ensures slots[0] != 0
    ensures SlotsOk(Rd(next, slots[0]), slots[1..], next[slots[0] := head], storage, bucket[slots[0] := k])
  {
    var d := slots[0];
    SlotsMove(slots, slots[1..], d, bucket, k);
    LinkedTail(next, freeDesc, slots);
    LinkedFrame(next, next[d := head], Rd(next, d), slots[1..]);
  }

  lemma AddBucketDescs(s: State, k: int, i: int, d: int)
    requires DescsOk(s.base, |s.use|, s.kmap, s.owner, s.bucket, s.page, s.size)
    requires s.base % PAGE_SIZE == 0 && 0 <= k < BUCKETS && 0 <= i < |s.use| <= |s.kmap| && d !in s.bucket
    requires PageAddr(s.base, i) !in s.owner
    ensures var p := PageAddr(s.base, i);
            DescsOk(s.base, |s.use|, s.kmap[i := SizeOf(k)], s.owner[p := d], s.bucket[d := k],
                    s.page[d := p], s.size[d := SizeOf(k)])
  {
    var p := PageAddr(s.base, i);
    var kmap', owner' := s.kmap[i := SizeOf(k)], s.owner[p := d];
    PageAddrOf(s.base, |s.use|, i);
    forall e | e in s.bucket
      ensures DescOk(s.base, |s.use|, kmap', owner', e, s.bucket[e], Rd(s.page, e), Rd(s.size, e))
    {
      assert DescOk(s.base, |s.use|, s.kmap, s.owner, e, s.bucket[e], Rd(s.page, e), Rd(s.size, e));
      PageIndexOf(s.base, |s.use|, Rd(s.page, e));
    }
  }

  lemma AddBucketBlocks(blocks: map<int, set<int>>, bucket: map<int, int>, page: Words, d: int, p: int, k: int)
    requires BlocksOk(blocks, bucket, page) && d !in bucket
    ensures BlocksOk(blocks[d := PageBlocks(p, k)], bucket[d := k], page[d := p])
  {
  }

  /** No live block and no free block lies in a page that is not a bucket page. */
  lemma AddBucketMemory(s: State, k: int, p: int, d: int)
    requires s.Inv() && 0 <= k < BUCKETS && d !in s.bucket
    requires p > 0 && p % PAGE_SIZE == 0 && p !in s.owner
    ensures FreeListsOk(LinkAll(s.mem, p, SizeOf(k), CountOf(k), 0), s.freeptr[d := p],
                        s.free[d := Carve(p, SizeOf(k), CountOf(k))], s.blocks[d := PageBlocks(p, k)], s.live)
  {
    var c := Carve(p, SizeOf(k), CountOf(k));
    var mem' := LinkAll(s.mem, p, SizeOf(k), CountOf(k), 0);
    FreshPageUntouched(s, k, p);
    LinkAllLinked(s.mem, p, SizeOf(k), CountOf(k), 0, []);
    assert c + [] == c;
    CarveNoDup(p, SizeOf(k), CountOf(k));
    forall e, f | e in s.blocks && f in s.free[e] ensures Rd(mem', f) == Rd(s.mem, f) {
      LinkAllFrame(s.mem, p, SizeOf(k), CountOf(k), 0, f);
    }
    FreeListsFrame(s.mem, mem', s.freeptr, s.free, s.blocks, s.live);
    FreeListsExtend(mem', s.freeptr, s.free, s.blocks, s.live, d, p, c, PageBlocks(p, k));
  }

  lemma FreeListsExtend(mem: Words, freeptr: Words, free: map<int, seq<int>>, blocks: map<int, set<int>>,
                        live: map<int, int>, d: int, head: int, fs: seq<int>, bs: set<int>)
    requires FreeListsOk(mem, freeptr, free, blocks, live) && d !in blocks
    requires FreeListOk(mem, head, fs, bs, live)
    ensures FreeListsOk(mem, freeptr[d := head], free[d := fs], blocks[d := bs], live)
  {
    forall e | e in blocks ensures FreeListOk(mem, Rd(freeptr, e), free[e], blocks[e], live) {
    }
  }

  lemma FreshPageUntouched(s: State, k: int, p: int)
    requires s.Inv() && 0 <= k < BUCKETS && p % PAGE_SIZE == 0 && p !in s.owner
    ensures forall a :: a in Carve(p, SizeOf(k), CountOf(k)) ==> a !in s.live
    ensures forall e, f :: e in s.blocks && f in s.free[e] ==> f !in Carve(p, SizeOf(k), CountOf(k))
  {
    forall a | a in Carve(p, SizeOf(k), CountOf(k))
      ensures a !in s.live
      ensures forall e :: e in s.blocks ==> a !in s.free[e]
    {
      assert a in PageBlocks(p, k);
      BlockPage(p, k, a);
      if a in s.live { BlockOfPage(s, s.live[a], a); }
      forall e | e in s.blocks ensures a !in s.free[e] {
        assert FreeListOk(s.mem, Rd(s.freeptr, e), s.free[e], s.blocks[e], s.live);
        if a in s.free[e] { BlockOfPage(s, e, a); }
      }
    }
  }

  lemma AddBucketLive(live: map<int, int>, free: map<int, seq<int>>, blocks: map<int, set<int>>, refcnt: Words,
                      d: int, p: int, k: int)
    requires LiveOk(live, free, blocks, refcnt) && d !in blocks
    ensures LiveOk(live, free[d := Carve(p, SizeOf(k), CountOf(k))], blocks[d := PageBlocks(p, k)], refcnt[d := 0])
    ensures LiveOf(live, d) == {}
  {
    assert forall a :: a in live ==> live[a] in blocks;
    assert LiveOf(live, d) == {};
    forall e | e in blocks ensures Covered(e, blocks[e], free[e], live) && Rd(refcnt, e) == |LiveOf(live, e)| {
    }
  }
}
