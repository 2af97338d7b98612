/** Laying out RAM from its top down before relocation (common/board_f.c). */
module BoardLayout {
  import opened Words
  import Allocator
  import AllocatorState

  const MALLOC_F_LEN := 0x1_0000
  const START_ADDR_SP_SIZE := 0x2000

  /** PAGING_PAGES (include/malloc.h, lines 6-12) for a block size. */
  function PagingPages(blockSize: u64): (pages: nat)
    ensures pages == 16 || pages == 192
    ensures pages == 192 <==> blockSize <= 0x10_0000
  {
    (if blockSize <= 0x10_0000 then 768 * 1024 else MALLOC_F_LEN) / 4096
  }

  /** Unsigned subtraction of 64 bits. */
  function Sub(x: u64, y: u64): u64 {
    (x - y) % B64
  }

  /** `x & ~(n - 1)` and `rounddown`. */
  function RoundDown(x: int, n: int): (r: int)
    requires n > 0
    ensures x >= 0 ==> 0 <= r <= x
  {
    x - x % n
  }

  /** The fields of `gd` the layout is made of. */
  class GlobalData {
    const monLen: u64
    const skipReloc: bool
    var ramBase: u64
    var ramSize: u64
    var ramTop: u64
    var relocaddr: u64
    var tlbAddr: u64
    var newGd: u64
    var startAddrSp: u64
    var mallocBase: u64
    var mallocLimit: u64

    constructor (imageLength: u64, skip: bool)
      ensures monLen == imageLength && skipReloc == skip
    {
      monLen, skipReloc := imageLength, skip;
      ramBase, ramSize, ramTop, relocaddr, tlbAddr := 0, 0, 0, 0, 0;
      newGd, startAddrSp, mallocBase, mallocLimit := 0, 0, 0, 0;
    }

    /** `dram_init` and `setup_dest_addr`; a top past the address space becomes 0. */
    method SetupDestAddr(textBase: u64, blockSize: u64)
      modifies this
      ensures ramBase == textBase && ramSize == blockSize && relocaddr == ramTop
      ensures ramTop == if textBase + blockSize < B64 then textBase + blockSize else 0
    {
      ramSize := blockSize;
      ramBase := textBase;
      ramTop := (ramBase + ramSize) % B64;
      if ramTop < textBase { ramTop := 0; }
      relocaddr := ramTop;
    }

    /** `reserve_mmu` when the cache is configured. */
    method ReserveMmu(tlbSize: u64)
      modifies this`relocaddr, this`tlbAddr
      ensures tlbAddr == relocaddr == RoundDown(Sub(old(relocaddr), tlbSize), 0x1_0000)
    {
      relocaddr := Sub(relocaddr, tlbSize);
      relocaddr := RoundDown(relocaddr, 0x1_0000);
      tlbAddr := relocaddr;
    }

    /** `reserve_vmimage`. */
    method ReserveVmimage()
      modifies this`relocaddr, this`startAddrSp
      ensures startAddrSp == relocaddr
      ensures relocaddr == if skipReloc then old(relocaddr) else RoundDown(Sub(old(relocaddr), monLen), 0x1000)
    {
      if !skipReloc {
        relocaddr := Sub(relocaddr, monLen);
        relocaddr := RoundDown(relocaddr, 0x1000);
      }
      startAddrSp := relocaddr;
    }

    /** `reserve_global_data`. */
    method ReserveGlobalData(gdSize: u64)
      modifies this`startAddrSp, this`newGd
      ensures startAddrSp == newGd == Sub(old(startAddrSp), gdSize)
    {
      startAddrSp := Sub(startAddrSp, gdSize);
      newGd := startAddrSp;
    }

    /** `reserve_malloc`: the whole arena, or what is left above the room for the stack. */
    method ReserveMalloc()
      modifies this`startAddrSp, this`mallocBase, this`mallocLimit
      ensures mallocLimit == ArenaSize(RoundDown(old(startAddrSp), 0x1000), ramBase)
      ensures startAddrSp == mallocBase == Sub(RoundDown(old(startAddrSp), 0x1000), mallocLimit)
      ensures LargestArena(mallocBase, mallocLimit, RoundDown(old(startAddrSp), 0x1000), ramBase)
              <==> ArenaHasRoom(RoundDown(old(startAddrSp), 0x1000), ramBase)
    {
      ArenaExactly(RoundDown(startAddrSp, 0x1000), ramBase);
      startAddrSp := RoundDown(startAddrSp, 0x1000);
      var size: u64;
      if Sub(Sub(startAddrSp, MALLOC_F_LEN), START_ADDR_SP_SIZE) < ramBase {
        size := Sub(Sub(startAddrSp, ramBase), START_ADDR_SP_SIZE);
        size := RoundDown(size, 0x1000);
      } else {
        size := RoundDown(MALLOC_F_LEN, 0x1000);
      }
      startAddrSp := Sub(startAddrSp, size);
      mallocBase := startAddrSp;
      mallocLimit := size;
    }

    /** `reserve_stacks`. */
    method ReserveStacks()
      modifies this`startAddrSp
      ensures startAddrSp == RoundDown(Sub(old(startAddrSp), 16), 16)
    {
      startAddrSp := Sub(startAddrSp, 16);
      startAddrSp := RoundDown(startAddrSp, 16);
    }
  }

  function ArenaSize(sp: u64, base: u64): u64 {
    if Sub(Sub(sp, MALLOC_F_LEN), START_ADDR_SP_SIZE) < base
    then RoundDown(Sub(Sub(sp, base), START_ADDR_SP_SIZE), 0x1000)
    else MALLOC_F_LEN
  }

  // ----- the layout

  /** What the board is built with. */
  datatype Config = Config(textBase: u64, blockSize: u64, cache: bool, tlbSize: u64, gdSize: u64, monLen: u64,
                           skip: bool)

  /** Where the reservations ended up. */
  datatype Layout = Layout(top: u64, tlb: u64, image: u64, gd: u64, arena: u64, limit: u64, sp: u64)

  /**
   * From the top of RAM down, without overlap: the page tables, the image,
   * the global data, an arena of whole pages that the tables of the allocator
   * can index, and a stack pointer with room below it.
   */
  ghost predicate Sound(c: Config, l: Layout) {
    && c.textBase + c.blockSize < B64 && l.top == c.textBase + c.blockSize
    && Stacked(c, l.top, Above(c, l), l.image, l.gd) && (c.cache ==> l.tlb % 0x1_0000 == 0)
    && l.arena % 0x1000 == 0 && l.limit % 0x1000 == 0 && l.arena + l.limit <= l.gd
    && l.limit / 0x1000 <= PagingPages(c.blockSize)
    && l.sp % 16 == 0 && c.textBase < l.sp < l.arena
    && c.textBase + START_ADDR_SP_SIZE <= l.arena
  }

  /** A reservation of `y` bytes below `x`, down to a multiple of `n`, on unbounded numbers. */
  ghost function Lower(wanted: bool, x: int, y: u64, n: int): int
    requires n > 0
  {
    if wanted then RoundDown(x - y, n) else x
  }

  /** The same on words. */
  ghost function LowerWord(wanted: bool, x: u64, y: u64, n: int): u64
    requires n > 0
  {
    if wanted then RoundDown(Sub(x, y), n) else x
  }

  /** The page boundary below the global data if nothing wraps around. */
  ghost function Ceiling(c: Config): int {
    RoundDown(Floor(c, c.textBase + c.blockSize), 0x1000)
  }

  /**
   * RAM does not reach past the address space and leaves room for a stack,
   * and there is room for a whole arena with its stack above address 0.
   */
  ghost predicate Fits(c: Config) {
    && c.textBase + c.blockSize < B64
    && Ceiling(c) >= c.textBase + START_ADDR_SP_SIZE
    && Ceiling(c) >= MALLOC_F_LEN + START_ADDR_SP_SIZE
  }

  /** The address the image is put below. */
  function Above(c: Config, l: Layout): u64 {
    if c.cache then l.tlb else l.top
  }

  /** The values the steps down to the global data leave behind. */
  ghost predicate ComputedAbove(c: Config, top: u64, above: u64, image: u64, gd: u64) {
    && above == LowerWord(c.cache, top, c.tlbSize, 0x1_0000)
    && image == LowerWord(!c.skip, above, c.monLen, 0x1000)
    && gd == Sub(image, c.gdSize)
  }

  /** The values all steps leave behind. */
  ghost predicate Computed(c: Config, l: Layout) {
    && l.top == (if c.textBase + c.blockSize < B64 then c.textBase + c.blockSize else 0)
    && ComputedAbove(c, l.top, Above(c, l), l.image, l.gd)
    && l.limit == ArenaSize(RoundDown(l.gd, 0x1000), c.textBase)
    && l.arena == Sub(RoundDown(l.gd, 0x1000), l.limit)
    && l.sp == RoundDown(Sub(l.arena, 16), 16)
  }

  lemma SubIs(x: u64, y: u64)
    ensures Sub(x, y) == if x >= y then x - y else x - y + B64
  {
  }

  lemma RoundDownIs(x: int, n: int)
    requires n > 0
    ensures RoundDown(x, n) % n == 0 && x - n < RoundDown(x, n) <= x
  {
    Euclid(x, n);
    ModMultiple(x / n, n);
  }

  /** A reservation does not wrap around if it ends up below `x`, or not below 0. */
  lemma Reserved(wanted: bool, x: u64, y: u64, n: int)
    requires n > 0
    requires Lower(wanted, x, y, n) >= 0 || LowerWord(wanted, x, y, n) + (if wanted then y else 0) <= x
    ensures LowerWord(wanted, x, y, n) == Lower(wanted, x, y, n)
    ensures LowerWord(wanted, x, y, n) + (if wanted then y else 0) <= x
  {
    SubIs(x, y);
    RoundDownIs(x - y, n);
    RoundDownIs(Sub(x, y), n);
  }

  lemma LowerSign(wanted: bool, x: int, y: u64, n: int)
    requires n > 0 && Lower(wanted, x, y, n) >= 0
    ensures x >= 0
  {
    RoundDownIs(x - y, n);
  }

  /** The first three reservations end where they should. */
  ghost predicate Stacked(c: Config, top: u64, above: u64, image: u64, gd: u64) {
    && above + (if c.cache then c.tlbSize else 0) <= top
    && image + (if !c.skip then c.monLen else 0) <= above
    && gd + c.gdSize <= image
  }

  /** Where the global data end up if nothing wraps around. */
  ghost function Floor(c: Config, top: int): int {
    Lower(!c.skip, Lower(c.cache, top, c.tlbSize, 0x1_0000), c.monLen, 0x1000) - c.gdSize
  }

  /** If they end up above 0, nothing has wrapped around. */
  lemma StackedIfHigh(c: Config, top: u64, above: u64, image: u64, gd: u64)
    requires ComputedAbove(c, top, above, image, gd) && Floor(c, top) >= 0
    ensures Stacked(c, top, above, image, gd) && gd == Floor(c, top)
  {
    var tables := Lower(c.cache, top, c.tlbSize, 0x1_0000);
    LowerSign(!c.skip, tables, c.monLen, 0x1000);
    Reserved(c.cache, top, c.tlbSize, 0x1_0000);
    Reserved(!c.skip, above, c.monLen, 0x1000);
    SubIs(image, c.gdSize);
  }

  /** Reservations that end where they should have not wrapped around. */
  lemma HighIfStacked(c: Config, top: u64, above: u64, image: u64, gd: u64)
    requires ComputedAbove(c, top, above, image, gd) && Stacked(c, top, above, image, gd)
    ensures gd == Floor(c, top)
  {
    Reserved(c.cache, top, c.tlbSize, 0x1_0000);
    Reserved(!c.skip, above, c.monLen, 0x1000);
    SubIs(image, c.gdSize);
  }

  /**
   * Below `sp`, as large as it may be: an arena of whole pages, at most
   * CONFIG_MALLOC_F_LEN long, with room for the stack below it, and shorter
   * only if another page would not leave that room.
   */
  ghost predicate LargestArena(arena: u64, size: u64, sp: u64, base: u64) {
    && arena + size == sp && size % 0x1000 == 0 && size <= MALLOC_F_LEN
    && base + START_ADDR_SP_SIZE <= arena
    && (size == MALLOC_F_LEN || arena - 0x1000 < base + START_ADDR_SP_SIZE)
  }

  /** There is room for a stack above the start of RAM, and for a whole arena and a stack above address 0. */
  predicate ArenaHasRoom(sp: u64, base: u64) {
    sp >= base + START_ADDR_SP_SIZE && sp >= MALLOC_F_LEN + START_ADDR_SP_SIZE
  }

  lemma ArenaFits(sp: u64, base: u64)
    requires sp % 0x1000 == 0 && ArenaHasRoom(sp, base)
    ensures LargestArena(Sub(sp, ArenaSize(sp, base)), ArenaSize(sp, base), sp, base)
  {
    SubIs(sp, MALLOC_F_LEN);
    SubIs(sp - MALLOC_F_LEN, START_ADDR_SP_SIZE);
    SubIs(sp, base);
    SubIs(sp - base, START_ADDR_SP_SIZE);
    RoundDownIs(sp - base - START_ADDR_SP_SIZE, 0x1000);
    SubIs(sp, ArenaSize(sp, base));
  }

  lemma ArenaNeeds(sp: u64, base: u64, arena: u64)
    requires sp % 0x1000 == 0 && arena == Sub(sp, ArenaSize(sp, base)) && arena + ArenaSize(sp, base) < sp + 0x1000
    requires base + START_ADDR_SP_SIZE <= arena
    ensures ArenaHasRoom(sp, base)
  {
    var size := ArenaSize(sp, base);
    SubIs(sp, size);
    assert arena == sp - size;
    SubIs(sp, MALLOC_F_LEN);
    SubIs(Sub(sp, MALLOC_F_LEN), START_ADDR_SP_SIZE);
  }

  /** The arena is the largest possible exactly when there is room. */
  lemma ArenaExactly(sp: u64, base: u64)
    requires RoundDown(sp, 0x1000) == sp
    ensures LargestArena(Sub(sp, ArenaSize(sp, base)), ArenaSize(sp, base), sp, base) <==> ArenaHasRoom(sp, base)
  {
    RoundDownIs(sp, 0x1000);
    if ArenaHasRoom(sp, base) {
      ArenaFits(sp, base);
    } else if LargestArena(Sub(sp, ArenaSize(sp, base)), ArenaSize(sp, base), sp, base) {
      ArenaNeeds(sp, base, Sub(sp, ArenaSize(sp, base)));
    }
  }

  lemma Below(sp: u64, limit: u64, arena: u64)
    requires sp % 0x1000 == 0 && limit % 0x1000 == 0 && 0x2000 <= sp - limit && arena == Sub(sp, limit)
    ensures arena == sp - limit && arena % 0x1000 == 0 && arena - 32 < RoundDown(Sub(arena, 16), 16) < arena
  {
    SubIs(sp, limit);
    SubIs(arena, 16);
    RoundDownIs(arena - 16, 16);
  }

  lemma SoundIfFits(c: Config, l: Layout)
    requires Computed(c, l) && Fits(c)
    ensures Sound(c, l)
  {
    var sp := RoundDown(l.gd, 0x1000);
    RoundDownIs(Floor(c, l.top), 0x1000);
    StackedIfHigh(c, l.top, Above(c, l), l.image, l.gd);
    RoundDownIs(l.gd, 0x1000);
    RoundDownIs(Sub(l.top, c.tlbSize), 0x1_0000);
    RoundDownIs(Sub(l.arena, 16), 16);
    ArenaFits(sp, c.textBase);
    Below(sp, l.limit, l.arena);
  }

  lemma FitsIfSound(c: Config, l: Layout)
    requires Computed(c, l) && Sound(c, l)
    ensures Fits(c)
  {
    HighIfStacked(c, l.top, Above(c, l), l.image, l.gd);
    RoundDownIs(l.gd, 0x1000);
    ArenaNeeds(RoundDown(l.gd, 0x1000), c.textBase, l.arena);
  }

  /** The layout is sound exactly when everything fits. */
  lemma SoundExactly(c: Config, l: Layout)
    requires Computed(c, l)
    ensures Sound(c, l) <==> Fits(c)
  {
    if Fits(c) { SoundIfFits(c, l); }
    if Sound(c, l) { FitsIfSound(c, l); }
  }

  /**
   * A board with RAM at address 0, an image of 56 KiB and 512 bytes of global
   * data, which leave 68 KiB: room for a stack and fifteen pages. The
   * comparison wraps around, a whole arena is taken out of what is left, and
   * no layout the sequence computes is sound.
   */
  lemma LowBoardFails(c: Config, l: Layout)
    requires c == Config(0, 0x2_0000, false, 0, 0x200, 0xE000, false) && Computed(c, l)
    ensures c.textBase + START_ADDR_SP_SIZE + 15 * 0x1000 <= Ceiling(c) == 0x1_1000
    ensures !Sound(c, l)
  {
    LowCeiling(c);
    if Sound(c, l) { FitsIfSound(c, l); }
  }

  lemma LowCeiling(c: Config)
    requires c == Config(0, 0x2_0000, false, 0, 0x200, 0xE000, false)
    ensures Ceiling(c) == 0x1_1000
  {
    assert RoundDown(0x2_0000 - 0xE000, 0x1000) == 0x1_2000;
    assert Floor(c, 0x2_0000) == 0x1_1E00;
  }

  /** The reservations of `init_sequence_f`, in order. */
  method InitSequence(gd: GlobalData, c: Config) returns (ghost l: Layout)
    requires gd.monLen == c.monLen && gd.skipReloc == c.skip
    modifies gd
    ensures l == Layout(gd.ramTop, gd.tlbAddr, gd.relocaddr, gd.newGd, gd.mallocBase, gd.mallocLimit, gd.startAddrSp)
    ensures Sound(c, l) <==> Fits(c)
  {
    gd.SetupDestAddr(c.textBase, c.blockSize);
    if c.cache { gd.ReserveMmu(c.tlbSize); }
    gd.ReserveVmimage();
    gd.ReserveGlobalData(c.gdSize);
    gd.ReserveMalloc();
    gd.ReserveStacks();
    l := Layout(gd.ramTop, gd.tlbAddr, gd.relocaddr, gd.newGd, gd.mallocBase, gd.mallocLimit, gd.startAddrSp);
    SoundExactly(c, l);
  }

  /** `memory_init` on the arena of a layout that fits: the allocator starts in a valid state. */
  method StartAllocator(gd: GlobalData, c: Config, contents: AllocatorState.Words) returns (heap: Allocator.Heap)
    requires gd.monLen == c.monLen && gd.skipReloc == c.skip && Fits(c)
    modifies gd
    ensures heap.Valid() && heap.base == gd.mallocBase && heap.limit == gd.mallocLimit
  {
    var l := InitSequence(gd, c);
    heap := new Allocator.Heap(gd.mallocBase, gd.mallocLimit, PagingPages(c.blockSize), contents);
  }
}
