/** What the allocator's invariant means to its clients. */
module AllocatorTheorems {
  import W = Words
  import opened AllocatorState
  import opened AllocatorSteps

  /** The usable size of a live block. */
  ghost function BlockSize(s: State, a: int): int
    requires a in s.live && s.live[a] in s.bucket
  {
    SizeOf(s.bucket[s.live[a]])
  }

  /** `w` is an address inside the live block `a`. */
  ghost predicate Within(s: State, a: int, w: int) {
    a in s.live && s.live[a] in s.bucket && a <= w < a + BlockSize(s, a)
  }

  // ----- where live blocks are

  lemma {:induction false} CarveMultiple(a: int, size: int, n: int, b: int) returns (j: int)
    requires b in Carve(a, size, n)
    ensures b == a + j * size
    decreases n
  {
    if b == a {
      j := 0;
    } else {
      j := CarveMultiple(a + size, size, n - 1, b);
      W.Distribute(j, 1, size);
      j := j + 1;
    }
  }

  lemma BlockAligned(p: int, k: int, a: int)
    requires 0 <= k < BUCKETS && p % PAGE_SIZE == 0 && a in PageBlocks(p, k)
    ensures a % SizeOf(k) == 0
  {
    var z, n := SizeOf(k), CountOf(k);
    var j := CarveMultiple(p, z, n, a);
    SizeTimesCount(k);
    var m := p / PAGE_SIZE;
    W.Regroup(z, n, m);
    W.Regroup(n, m, z);
    W.Distribute(n * m, j, z);
    W.ModMultiple(n * m + j, z);
  }

  /** A block is aligned to its size and lies inside its bucket page of the arena. */
  lemma BlockPlaced(s: State, a: int, d: int)
    requires s.Inv() && d in s.bucket && a in s.blocks[d]
    ensures var p, size := Rd(s.page, d), SizeOf(s.bucket[d]);
            p in s.owner && IsPage(s.base, |s.use|, p) && p <= a && a + size <= p + PAGE_SIZE && a % size == 0
  {
    assert DescOk(s.base, |s.use|, s.kmap, s.owner, d, s.bucket[d], Rd(s.page, d), Rd(s.size, d));
    BlockInPage(Rd(s.page, d), s.bucket[d], a);
    BlockAligned(Rd(s.page, d), s.bucket[d], a);
  }

  /** The same for a live block and the descriptor it belongs to. */
  lemma LiveBlockPlaced(s: State, a: int)
    requires s.Inv() && a in s.live
    ensures s.live[a] in s.bucket && a in s.blocks[s.live[a]]
    ensures var p := Rd(s.page, s.live[a]);
            p in s.owner && IsPage(s.base, |s.use|, p) && p <= a && a + BlockSize(s, a) <= p + PAGE_SIZE
    ensures a % BlockSize(s, a) == 0
  {
    var d := s.live[a];
    assert d in s.blocks && a in s.blocks[d];
    BlockPlaced(s, a, d);
  }

  /** Two live blocks share no address. */
  lemma LiveBlocksDisjoint(s: State, a: int, b: int, w: int)
    requires s.Inv() && a in s.live && b in s.live && a != b && Within(s, a, w)
    ensures !Within(s, b, w)
  {
    LiveBlockPlaced(s, a);
    LiveBlockPlaced(s, b);
    var d, e := s.live[a], s.live[b];
    SamePage(Rd(s.page, d), w);
    assert DescOk(s.base, |s.use|, s.kmap, s.owner, d, s.bucket[d], Rd(s.page, d), Rd(s.size, d));
    assert DescOk(s.base, |s.use|, s.kmap, s.owner, e, s.bucket[e], Rd(s.page, e), Rd(s.size, e));
    if Rd(s.page, e) <= w < Rd(s.page, e) + PAGE_SIZE {
      SamePage(Rd(s.page, e), w);
      if a < b {
        BlockSpacing(Rd(s.page, d), s.bucket[d], a, b);
      } else {
        BlockSpacing(Rd(s.page, d), s.bucket[d], b, a);
      }
    }
  }

  /** No live block reaches into a page of descriptors. */
  lemma LiveBlocksAvoidDescriptors(s: State, a: int, w: int)
    requires s.Inv() && Within(s, a, w)
    ensures PageBase(w) !in s.storage && !IsDesc(s.storage, w)
  {
    LiveBlockPlaced(s, a);
    SamePage(Rd(s.page, s.live[a]), w);
  }

  /** No live block shares an address with a free block. */
  lemma LiveBlocksAvoidFreeBlocks(s: State, a: int, d: int, f: int, w: int)
    requires s.Inv() && Within(s, a, w) && d in s.bucket && f in s.free[d]
    ensures !(f <= w < f + SizeOf(s.bucket[d]))
  {
    LiveBlockPlaced(s, a);
    assert FreeListOk(s.mem, Rd(s.freeptr, d), s.free[d], s.blocks[d], s.live);
    assert DescOk(s.base, |s.use|, s.kmap, s.owner, d, s.bucket[d], Rd(s.page, d), Rd(s.size, d));
    BlockInPage(Rd(s.page, d), s.bucket[d], f);
    var e := s.live[a];
    SamePage(Rd(s.page, e), w);
    assert DescOk(s.base, |s.use|, s.kmap, s.owner, e, s.bucket[e], Rd(s.page, e), Rd(s.size, e));
    if Rd(s.page, d) <= w < Rd(s.page, d) + PAGE_SIZE {
      SamePage(Rd(s.page, d), w);
      if a < f {
        BlockSpacing(Rd(s.page, d), s.bucket[d], a, f);
      } else {
        BlockSpacing(Rd(s.page, d), s.bucket[d], f, a);
      }
    }
  }

  // ----- counting

  lemma {:induction false} NoDupCount(s: seq<int>)
    requires NoDup(s)
    ensures |set x | x in s| == |s|
  {
    if s != [] {
      NoDupCount(s[1..]);
      assert (set x | x in s) == {s[0]} + (set x | x in s[1..]);
    }
  }

  /** The reference count and the free list of a page add up to the blocks of the page. */
  lemma BlocksConserved(s: State, d: int)
    requires s.Inv() && d in s.bucket
    ensures Rd(s.refcnt, d) + |s.free[d]| == CountOf(s.bucket[d])
    ensures SizeOf(s.bucket[d]) * CountOf(s.bucket[d]) == PAGE_SIZE
  {
    var p, k, fs := Rd(s.page, d), s.bucket[d], s.free[d];
    assert FreeListOk(s.mem, Rd(s.freeptr, d), fs, s.blocks[d], s.live);
    assert Covered(d, s.blocks[d], fs, s.live);
    SizeTimesCount(k);
    CarveAt(p, SizeOf(k), CountOf(k), p);
    CarveNoDup(p, SizeOf(k), CountOf(k));
    NoDupCount(Carve(p, SizeOf(k), CountOf(k)));
    NoDupCount(fs);
    var live, free := LiveOf(s.live, d), set x | x in fs;
    forall a | a in live ensures a in s.blocks[d] { assert s.live[a] in s.blocks && a in s.blocks[s.live[a]]; }
    assert s.blocks[d] == live + free;
    assert live !! free;
  }

  function Sum(use: seq<int>): int {
    if use == [] then 0 else Sum(use[..|use| - 1]) + use[|use| - 1]
  }

  lemma {:induction false} SumCounts(base: int, use: seq<int>, pages: set<int>)
    requires base % PAGE_SIZE == 0
    requires forall i :: 0 <= i < |use| ==> use[i] == if PageAddr(base, i) in pages then 1 else 0
    requires forall p :: p in pages ==> IsPage(base, |use|, p)
    ensures Sum(use) == |pages|
  {
    if use == [] {
      assert forall p :: p !in pages;
    } else {
      var n := |use| - 1;
      var last := PageAddr(base, n);
      var rest := pages - {last};
      forall p | p in rest ensures IsPage(base, n, p) { PageIndexOf(base, n + 1, p); }
      SumCounts(base, use[..n], rest);
      if last !in pages { assert rest == pages; }
    }
  }

  /** Page conservation: the pages in use are the descriptor pages and one per chained descriptor. */
  lemma PagesConserved(s: State)
    requires s.Inv()
    ensures Sum(s.use) == |s.storage| + |s.bucket|
    ensures forall i :: 0 <= i < |s.use| ==> s.use[i] == 0 || s.use[i] == 1
  {
    SumCounts(s.base, s.use, s.storage + s.owner.Keys);
    OwnersAreDescriptors(s.owner, s.bucket.Keys, s.page);
  }

  lemma Pick<T>(ds: set<T>) returns (d: T)
    requires |ds| > 0
    ensures d in ds
  {
    d :| d in ds;
  }

  lemma {:induction false} OwnersAreDescriptors(owner: map<int, int>, ds: set<int>, page: Words)
    requires forall d :: d in ds ==> Rd(page, d) in owner && owner[Rd(page, d)] == d
    requires forall p :: p in owner ==> owner[p] in ds && Rd(page, owner[p]) == p
    ensures |owner| == |ds|
    decreases |ds|
  {
    if |ds| == 0 {
      assert forall p :: p !in owner;
      assert owner.Keys == {};
    } else {
      var d := Pick(ds);
      var p, rest := Rd(page, d), ds - {d};
      var owner' := owner - {p};
      assert owner'.Keys == owner.Keys - {p};
      OwnersAreDescriptors(owner', rest, page);
    }
  }

  lemma HeadIsMember<T>(c: seq<T>)
    ensures c == [] || exists d :: d in c
  {
    if c != [] {
      var d := c[0];
      assert d in c;
    }
  }

  /** Once every block has been freed only the descriptor pages remain in use. */
  lemma AllFreed(s: State)
    requires s.Valid() && s.live == map[]
    ensures s.bucket == map[] && forall k :: 0 <= k < BUCKETS ==> s.chains[k] == [] && s.heads[k] == 0
    ensures forall i :: 0 <= i < |s.use| ==> (s.use[i] == 1 <==> PageAddr(s.base, i) in s.storage)
    ensures Sum(s.use) == |s.storage|
  {
    forall d: int ensures LiveOf(s.live, d) == {} {
    }
    assert forall d :: d in s.bucket ==> LiveOf(s.live, d) != {};
    assert forall d :: d !in s.bucket;
    assert s.bucket.Keys == {};
    forall k | 0 <= k < BUCKETS ensures s.chains[k] == [] && s.heads[k] == 0 {
      assert ChainOk(s.next, s.heads[k], s.chains[k], k, s.bucket);
      HeadIsMember(s.chains[k]);
    }
    assert forall p :: p !in s.owner;
    PagesConserved(s);
  }
}
