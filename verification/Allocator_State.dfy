/**
 * The state of the bucket allocator (lib/malloc.c) over the page allocator
 * (common/memory.c), and the invariant every reachable state satisfies.
 *
 * Addresses are integers and `NULL` is 0. Block memory is a map from addresses
 * to words; a descriptor's fields are kept in one map per field, keyed by the
 * descriptor's address. Reading an address that was never written gives 0.
 */
module AllocatorState {

  const PAGE_SIZE := 4096

  /** `sizeof(struct bucket_desc)` on a 64-bit target. */
  const DESC_SIZE := 40
  const DESCS_PER_PAGE := 102

  /** The entries of `bucket_dir`, without the terminating one: 16, 32, ..., 4096. */
  const BUCKETS := 9

  function SizeOf(k: int): (size: int)
    ensures size >= 16
  {
    if k <= 0 then 16 else 2 * SizeOf(k - 1)
  }

  /** `PAGE_SIZE / SizeOf(k)`: 256, 128, ..., 1. */
  function CountOf(k: int): (count: int)
    ensures count >= 1
    decreases BUCKETS - k
  {
    if k >= BUCKETS - 1 then 1 else 2 * CountOf(k + 1)
  }

  type Words = map<int, int>

  function Rd(m: Words, a: int): int {
    if a in m then m[a] else 0
  }

  function At(s: seq<int>, i: int): int {
    if 0 <= i < |s| then s[i] else 0
  }

  /** `s` is the NULL-terminated list that starts at `head` and follows `next`. */
  ghost predicate Linked(next: Words, head: int, s: seq<int>) {
    head == At(s, 0) &&
    forall i :: 0 <= i < |s| ==> s[i] != 0 && Rd(next, s[i]) == At(s, i + 1)
  }

  ghost predicate NoDup(s: seq<int>) {
    forall i, j :: 0 <= i < j < |s| ==> s[i] != s[j]
  }

  /** The page an address lies in (`addr & ~4095`). */
  function PageBase(a: int): int {
    a - a % PAGE_SIZE
  }

  /** The first `n` blocks of `size` bytes from address `a` on. */
  function Carve(a: int, size: int, n: int): (blocks: seq<int>)
    decreases n, a
  {
    if n <= 0 then [] else [a] + Carve(a + size, size, n - 1)
  }

  /** The equal blocks that make up page `p` in bucket `k`. */
  ghost function PageBlocks(p: int, k: int): set<int> {
    set a | a in Carve(p, SizeOf(k), CountOf(k))
  }

  // ----- what the fields promise each other

  function PageAddr(base: int, i: int): int {
    base + PAGE_SIZE * i
  }

  function PageIndex(base: int, p: int): int {
    (p - base) / PAGE_SIZE
  }

  /** `p` is one of the `n` pages of the arena at `base`. */
  ghost predicate IsPage(base: int, n: int, p: int) {
    base <= p < base + PAGE_SIZE * n && p % PAGE_SIZE == 0
  }

  /** Pages in use are exactly the descriptor pages and the bucket pages, each counted once. */
  ghost predicate PagesOk(base: int, use: seq<int>, storage: set<int>, owner: map<int, int>) {
    (forall i :: 0 <= i < |use| ==>
       use[i] == if PageAddr(base, i) in storage || PageAddr(base, i) in owner then 1 else 0) &&
    (forall p :: p in storage ==> IsPage(base, |use|, p) && p !in owner) &&
    (forall p :: p in owner ==> IsPage(base, |use|, p))
  }

  /** The chain of bucket `k` runs over different descriptors of that bucket. */
  ghost predicate ChainOk(next: Words, head: int, c: seq<int>, k: int, bucket: map<int, int>) {
    Linked(next, head, c) && NoDup(c) && forall d :: d in c ==> d in bucket && bucket[d] == k
  }

  ghost predicate ChainsOk(heads: seq<int>, chains: seq<seq<int>>, next: Words, bucket: map<int, int>) {
    |heads| == BUCKETS && |chains| == BUCKETS &&
    (forall k :: 0 <= k < BUCKETS ==> ChainOk(next, heads[k], chains[k], k, bucket)) &&
    (forall d :: d in bucket ==> 0 <= bucket[d] < BUCKETS && d in chains[bucket[d]])
  }

  /** `d` is the address of a descriptor inside a descriptor page. */
  ghost predicate IsDesc(storage: set<int>, d: int) {
    PageBase(d) in storage && (d % PAGE_SIZE) % DESC_SIZE == 0 &&
    d % PAGE_SIZE < DESC_SIZE * DESCS_PER_PAGE
  }

  /** Every descriptor is on a chain or on the list of unused ones, and on one of them only. */
  ghost predicate SlotsOk(freeDesc: int, slots: seq<int>, next: Words, storage: set<int>, bucket: map<int, int>) {
    Linked(next, freeDesc, slots) && NoDup(slots) &&
    (forall d :: d in slots ==> d !in bucket) &&
    (forall d :: IsDesc(storage, d) <==> d in bucket || d in slots)
  }

  /** What a chained descriptor records about its page. */
  ghost predicate DescOk(base: int, n: int, kmap: seq<int>, owner: map<int, int>,
                         d: int, k: int, p: int, size: int) {
    0 <= k < BUCKETS && size == SizeOf(k) && IsPage(base, n, p) && p in owner && owner[p] == d &&
    0 <= PageIndex(base, p) < |kmap| && kmap[PageIndex(base, p)] == size
  }

  ghost predicate DescsOk(base: int, n: int, kmap: seq<int>, owner: map<int, int>,
                          bucket: map<int, int>, page: Words, size: Words) {
    (forall d :: d in bucket ==> DescOk(base, n, kmap, owner, d, bucket[d], Rd(page, d), Rd(size, d))) &&
    (forall p :: p in owner ==> owner[p] in bucket && Rd(page, owner[p]) == p)
  }

  ghost predicate BlocksOk(blocks: map<int, set<int>>, bucket: map<int, int>, page: Words) {
    blocks.Keys == bucket.Keys &&
    forall d :: d in bucket ==> blocks[d] == PageBlocks(Rd(page, d), bucket[d])
  }

  /** A free list runs over different blocks of its page, none of them live. */
  ghost predicate FreeListOk(mem: Words, head: int, fs: seq<int>, bs: set<int>, live: map<int, int>) {
    Linked(mem, head, fs) && NoDup(fs) && forall f :: f in fs ==> f in bs && f !in live
  }

  ghost predicate FreeListsOk(mem: Words, freeptr: Words, free: map<int, seq<int>>,
                              blocks: map<int, set<int>>, live: map<int, int>) {
    free.Keys == blocks.Keys &&
    forall d :: d in blocks ==> FreeListOk(mem, Rd(freeptr, d), free[d], blocks[d], live)
  }

  ghost function LiveOf(live: map<int, int>, d: int): set<int> {
    set a | a in live && live[a] == d
  }

  /** Every block of `d` is on its free list or live. */
  ghost predicate Covered(d: int, bs: set<int>, fs: seq<int>, live: map<int, int>) {
    forall a :: a in bs ==> a in fs || (a in live && live[a] == d)
  }

  /** Live blocks are blocks of their pages, nothing is lost, and the live ones are counted. */
  ghost predicate LiveOk(live: map<int, int>, free: map<int, seq<int>>, blocks: map<int, set<int>>, refcnt: Words) {
    free.Keys == blocks.Keys &&
    (forall a :: a in live ==> live[a] in blocks && a in blocks[live[a]]) &&
    (forall d :: d in blocks ==> Covered(d, blocks[d], free[d], live) && Rd(refcnt, d) == |LiveOf(live, d)|)
  }

  datatype State = State(
    // page allocator: start of the arena, use count of each page
    base: int, use: seq<int>,
    // bucket allocator: `bd_kmap`, `bucket_dir[].chain`, `free_bucket_desc`
    kmap: seq<int>, heads: seq<int>, freeDesc: int,
    // memory of the blocks, and the fields of the descriptors
    mem: Words, next: Words, page: Words, freeptr: Words, refcnt: Words, size: Words,
    // what the links mean
    chains: seq<seq<int>>,      // descriptors of each bucket, in chain order
    bucket: map<int, int>,      // chained descriptor -> its bucket
    blocks: map<int, set<int>>, // chained descriptor -> the blocks of its page
    free: map<int, seq<int>>,   // chained descriptor -> its free blocks, in list order
    slots: seq<int>,            // unused descriptors, in list order
    storage: set<int>,          // pages that hold descriptors
    owner: map<int, int>,       // bucket page -> its descriptor
    live: map<int, int>         // allocated block -> its descriptor
  ) {

    ghost predicate Inv() {
      base > 0 && base % PAGE_SIZE == 0 && |use| <= |kmap| &&
      PagesOk(base, use, storage, owner) &&
      ChainsOk(heads, chains, next, bucket) &&
      SlotsOk(freeDesc, slots, next, storage, bucket) &&
      DescsOk(base, |use|, kmap, owner, bucket, page, size) &&
      BlocksOk(blocks, bucket, page) &&
      FreeListsOk(mem, freeptr, free, blocks, live) &&
      LiveOk(live, free, blocks, refcnt)
    }

    /** No bucket page is without live blocks. */
    ghost predicate NoIdlePage() {
      forall d :: d in bucket ==> LiveOf(live, d) != {}
    }

    ghost predicate Valid() {
      Inv() && NoIdlePage()
    }
  }
}
