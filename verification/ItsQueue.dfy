/**
 * The ITS command queue (module/gicv3/gicv3_its.c), shared with hardware that
 * reads commands at its own pace: how many it consumes between any two
 * accesses of the processor is an arbitrary parameter.
 */
module ItsQueue {
  import opened Wrappers
  import opened ItsCommands

  const COMMAND_SIZE := 32

  type Memory = map<int, bv64>

  function Rd(m: Memory, a: int): bv64 {
    if a in m then m[a] else 0
  }

  /** The command stored in a slot of the queue at `base`. */
  function BlockAt(m: Memory, base: int, slot: int): CmdBlock {
    var a := base + COMMAND_SIZE * slot;
    CmdBlock(Rd(m, a), Rd(m, a + 8), Rd(m, a + 16), Rd(m, a + 24))
  }

  function Word(b: CmdBlock, i: int): bv64 {
    if i == 0 then b.w0 else if i == 1 then b.w1 else if i == 2 then b.w2 else b.w3
  }

  /** Position `i` places after slot `r`, around a ring of `n`. */
  function Wrap(r: int, i: int, n: int): int {
    if r + i < n then r + i else r + i - n
  }

  /** Bits [7:0] of its_cbaser hold the number of 4K pages minus one. */
  function QueueSize(cbaser: bv64): (size: int)
    ensures 0x1000 <= size <= 0x100000 && size % COMMAND_SIZE == 0
  {
    (((cbaser & 0xFF) as bv8) as int + 1) * 0x1000
  }

  /** Bits [51:12] hold the address. */
  function QueueBase(cbaser: bv64): int {
    (cbaser & 0x000F_FFFF_FFFF_F000) as int
  }

  /**
   * Slot `r` is the next one to read and slot `w` the next one to write in a
   * ring of `n`: what was consumed is a prefix of what was issued, the rest is
   * at most all but one slot, and each pending command sits intact in its slot.
   */
  ghost predicate RingOk(m: Memory, base: int, n: int, r: int, w: int,
                         issued: seq<CmdBlock>, consumed: seq<CmdBlock>) {
    0 <= r < n && 0 <= w < n && consumed <= issued && |issued| - |consumed| < n &&
    w == Wrap(r, |issued| - |consumed|, n) &&
    forall i :: |consumed| <= i < |issued| ==> BlockAt(m, base, Wrap(r, i - |consumed|, n)) == issued[i]
  }

  /** Reading slot `r` delivers the oldest pending command unchanged. */
  lemma Consume(m: Memory, base: int, n: int, r: int, w: int, issued: seq<CmdBlock>, consumed: seq<CmdBlock>)
    requires RingOk(m, base, n, r, w, issued, consumed) && r != w
    ensures |consumed| < |issued| && BlockAt(m, base, r) == issued[|consumed|]
    ensures RingOk(m, base, n, Wrap(r, 1, n), w, issued, consumed + [issued[|consumed|]])
  {
    var c', r' := consumed + [issued[|consumed|]], Wrap(r, 1, n);
    assert Wrap(r, 0, n) == r;
    forall i | |c'| <= i < |issued| ensures BlockAt(m, base, Wrap(r', i - |c'|, n)) == issued[i] {
      assert Wrap(r', i - |c'|, n) == Wrap(r, i - |consumed|, n);
    }
  }

  /** Storing a word of slot `w` leaves every pending command alone. */
  lemma StoreWord(m: Memory, base: int, n: int, r: int, w: int, issued: seq<CmdBlock>, consumed: seq<CmdBlock>,
                  i: int, v: bv64)
    requires RingOk(m, base, n, r, w, issued, consumed) && 0 <= i < 4
    ensures RingOk(m[base + COMMAND_SIZE * w + 8 * i := v], base, n, r, w, issued, consumed)
  {
    var m' := m[base + COMMAND_SIZE * w + 8 * i := v];
    forall j | |consumed| <= j < |issued| ensures BlockAt(m', base, Wrap(r, j - |consumed|, n)) == issued[j] {
      OtherSlot(m, base, Wrap(r, j - |consumed|, n), w, i, v);
    }
  }

  lemma StoreAtOffset(m: Memory, base: int, n: int, r: int, cwriter: int, issued: seq<CmdBlock>,
                      consumed: seq<CmdBlock>, i: int, v: bv64)
    requires cwriter % COMMAND_SIZE == 0 && 0 <= i < 4
    requires RingOk(m, base, n, r, cwriter / COMMAND_SIZE, issued, consumed)
    ensures RingOk(m[base + cwriter + 8 * i := v], base, n, r, cwriter / COMMAND_SIZE, issued, consumed)
  {
    StoreWord(m, base, n, r, cwriter / COMMAND_SIZE, issued, consumed, i, v);
  }

  lemma OtherSlot(m: Memory, base: int, slot: int, w: int, i: int, v: bv64)
    requires slot != w && 0 <= i < 4
    ensures BlockAt(m[base + COMMAND_SIZE * w + 8 * i := v], base, slot) == BlockAt(m, base, slot)
  {
  }

  /** Moving the write position over a full slot issues the command in it. */
  lemma Publish(m: Memory, base: int, n: int, r: int, w: int, issued: seq<CmdBlock>, consumed: seq<CmdBlock>)
    requires RingOk(m, base, n, r, w, issued, consumed) && Wrap(w, 1, n) != r
    ensures RingOk(m, base, n, r, Wrap(w, 1, n), issued + [BlockAt(m, base, w)], consumed)
  {
    var issued' := issued + [BlockAt(m, base, w)];
    forall i | |consumed| <= i < |issued'| ensures BlockAt(m, base, Wrap(r, i - |consumed|, n)) == issued'[i] {
    }
  }

  class CommandQueue {
    var cbaser: bv64
    var cwriter: int
    var creadr: int
    var mem: Memory
    // every command handed to add_ITS_command so far, and every one the hardware has read
    ghost var issued: seq<CmdBlock>
    ghost var consumed: seq<CmdBlock>

    ghost function Pending(): int
      reads this
    {
      |issued| - |consumed|
    }

    /** Offsets are multiples of 32 below the queue size, and the ring they delimit is in order. */
    ghost predicate Ring(qbase: int, qsize: int)
      reads this
    {
      qsize % COMMAND_SIZE == 0 && qsize >= 0x1000 && creadr % COMMAND_SIZE == 0 && cwriter % COMMAND_SIZE == 0 &&
      RingOk(mem, qbase, qsize / COMMAND_SIZE, creadr / COMMAND_SIZE, cwriter / COMMAND_SIZE, issued, consumed)
    }

    ghost predicate Valid()
      reads this
    {
      Ring(QueueBase(cbaser), QueueSize(cbaser))
    }

    /** All but one slot is pending. */
    ghost predicate Full(qsize: int)
      reads this
    {
      Pending() == qsize / COMMAND_SIZE - 1
    }

    constructor ()
    {
    }

    /**
     * `init_ITS_command_queue`. Writing its_cbaser also resets its_creadr, a
     * hardware effect.
     */
    method Init(address: bv64, attributes: bv64, numPages: bv64)
      modifies this
      ensures if numPages & 0xFF == 0 then unchanged(this)
              else Valid() && issued == consumed == [] && cbaser == Cbaser(address, attributes, numPages) &&
                   Describes(cbaser, address, numPages)
    {
      var a := address & 0x000F_FFFF_FFFF_F000;
      var t := attributes & 0xF800_0000_0000_0C00;
      var n := numPages & 0xFF;
      if n == 0 { return; }
      CbaserDescribes(address, attributes, numPages);
      cbaser := a | t | (n - 1);
      cwriter := 0;
      creadr := 0;
      issued, consumed := [], [];
    }

    /** The hardware reads one command, if there is one, and moves its_creadr past it. */
    method HardwareStep(qbase: int, qsize: int)
      requires Ring(qbase, qsize)
      modifies this`creadr, this`consumed
      ensures Ring(qbase, qsize)
      ensures if old(Pending()) == 0 then consumed == old(consumed) && creadr == old(creadr)
              else consumed == old(consumed) + [issued[|old(consumed)|]]
    {
      NextSlot(creadr, qsize);
      SameOffset(creadr, cwriter);
      if creadr == cwriter { return; }
      Consume(mem, qbase, qsize / COMMAND_SIZE, creadr / COMMAND_SIZE, cwriter / COMMAND_SIZE, issued, consumed);
      var read := BlockAt(mem, qbase, creadr / COMMAND_SIZE);
      consumed := consumed + [read];
      creadr := NextOffset(creadr, qsize);
    }

    /** The hardware is left to itself for a while. */
    method Hardware(qbase: int, qsize: int, steps: nat)
      requires Ring(qbase, qsize)
      modifies this`creadr, this`consumed
      ensures Ring(qbase, qsize) && old(consumed) <= consumed
      ensures Pending() == if steps < old(Pending()) then old(Pending()) - steps else 0
    {
      for i := 0 to steps
        invariant Ring(qbase, qsize) && old(consumed) <= consumed
        invariant Pending() == if i < old(Pending()) then old(Pending()) - i else 0
      {
        HardwareStep(qbase, qsize);
      }
    }

    /** Lines 84-99: poll its_creadr until the queue is not full. */
    method WaitForRoom(qbase: int, qsize: int, polls: seq<nat>) returns (room: bool)
      requires Ring(qbase, qsize)
      modifies this`creadr, this`consumed
      ensures Ring(qbase, qsize) && old(consumed) <= consumed
      ensures room <==> |polls| > 0 && (!old(Full(qsize)) || Advances(polls))
      ensures room ==> !Full(qsize)
    {
      var qwriter := cwriter;
      room := false;
      for i := 0 to |polls|
        invariant Ring(qbase, qsize) && old(consumed) <= consumed && !room
        invariant Pending() == old(Pending()) && (i > 0 ==> Full(qsize))
        invariant forall j :: 0 <= j < i ==> polls[j] == 0
      {
        Hardware(qbase, qsize, polls[i]);
        var qreader := creadr;
        if qreader == 0 {
          qreader := qsize - COMMAND_SIZE;
        } else {
          qreader := qreader - COMMAND_SIZE;
        }
        FullTest(qwriter, creadr, qsize);
        RingFull(qsize / COMMAND_SIZE, creadr / COMMAND_SIZE, qwriter / COMMAND_SIZE, Pending());
        assert polls[i] > 0 ==> Advances(polls);
        if qwriter != qreader { return true; }
      }
    }

    /** Lines 104-107: store one word of the command. */
    method StoreOne(qbase: int, qsize: int, i: int, v: bv64)
      requires Ring(qbase, qsize) && 0 <= i < 4
      modifies this`mem
      ensures Ring(qbase, qsize) && mem == old(mem)[qbase + cwriter + 8 * i := v]
    {
      StoreAtOffset(mem, qbase, qsize / COMMAND_SIZE, creadr / COMMAND_SIZE, cwriter, issued, consumed, i, v);
      mem := mem[qbase + cwriter + 8 * i := v];
    }

    /** Lines 104-107: one turn of the copying loop, after the hardware has run on. */
    method StoreNext(qbase: int, qsize: int, command: CmdBlock, i: int, steps: nat, ghost was: Memory)
      requires Ring(qbase, qsize) && !Full(qsize) && 0 <= i < 4
      requires Stored(mem, qbase + cwriter, command, i) && SameBut(was, mem, qbase + cwriter)
      modifies this`creadr, this`mem, this`consumed
      ensures Ring(qbase, qsize) && !Full(qsize) && old(consumed) <= consumed
      ensures Stored(mem, qbase + cwriter, command, i + 1) && SameBut(was, mem, qbase + cwriter)
    {
      Hardware(qbase, qsize, steps);
      StoredMore(mem, qbase + cwriter, command, i);
      SameButMore(was, mem, qbase + cwriter, i, Word(command, i));
      StoreOne(qbase, qsize, i, Word(command, i));
    }

    /** Lines 104-108: copy the command into the free slot, the hardware running on between the stores. */
    method StoreAll(qbase: int, qsize: int, command: CmdBlock, gaps: seq<nat>)
      requires Ring(qbase, qsize) && |gaps| == 5 && !Full(qsize)
      modifies this`creadr, this`mem, this`consumed
      ensures Ring(qbase, qsize) && old(consumed) <= consumed && !Full(qsize)
      ensures BlockAt(mem, qbase, cwriter / COMMAND_SIZE) == command
      ensures Stored(mem, qbase + cwriter, command, 4) && SameBut(old(mem), mem, qbase + cwriter)
    {
      for i := 0 to 4
        invariant Ring(qbase, qsize) && old(consumed) <= consumed && !Full(qsize)
        invariant Stored(mem, qbase + cwriter, command, i) && SameBut(old(mem), mem, qbase + cwriter)
      {
        StoreNext(qbase, qsize, command, i, gaps[i], old(mem));
      }
      Hardware(qbase, qsize, gaps[4]);
      StoredBlock(mem, qbase, cwriter, command);
    }

    /** Lines 113-121: move its_cwriter past the stored command. */
    method PublishOne(qbase: int, qsize: int)
      requires Ring(qbase, qsize) && !Full(qsize)
      modifies this`cwriter, this`issued
      ensures Ring(qbase, qsize)
      ensures issued == old(issued) + [BlockAt(mem, qbase, old(cwriter) / COMMAND_SIZE)]
      ensures cwriter == if old(cwriter) + 32 == qsize then 0 else old(cwriter) + 32
    {
      ghost var n, r, w := qsize / COMMAND_SIZE, creadr / COMMAND_SIZE, cwriter / COMMAND_SIZE;
      NextSlot(cwriter, qsize);
      RingFull(n, r, w, Pending());
      Publish(mem, qbase, n, r, w, issued, consumed);
      issued := issued + [BlockAt(mem, qbase, w)];
      cwriter := NextOffset(cwriter, qsize);
    }

    /** Lines 84-121. */
    method AddAt(qbase: int, qsize: int, command: CmdBlock, polls: seq<nat>, gaps: seq<nat>) returns (done: bool)
      requires Ring(qbase, qsize) && |gaps| == 5
      modifies this`creadr, this`cwriter, this`mem, this`consumed, this`issued
      ensures Ring(qbase, qsize) && old(consumed) <= consumed
      ensures issued == if done then old(issued) + [command] else old(issued)
      ensures if !done then mem == old(mem) && cwriter == old(cwriter)
              else Stored(mem, qbase + old(cwriter), command, 4) && SameBut(old(mem), mem, qbase + old(cwriter)) &&
                   cwriter == if old(cwriter) + 32 == qsize then 0 else old(cwriter) + 32
      ensures done <==> |polls| > 0 && (!old(Full(qsize)) || Advances(polls))
    {
      done := WaitForRoom(qbase, qsize, polls);
      if !done { return; }
      StoreAll(qbase, qsize, command, gaps);
      PublishOne(qbase, qsize);
    }

    /**
     * `add_ITS_command`. The hardware consumes `polls[i]` commands before the
     * i-th look at its_creadr and `gaps[i]` before the i-th store; `false`
     * means the call is still polling a full queue when `polls` ends.
     */
    method AddCommand(command: CmdBlock, polls: seq<nat>, gaps: seq<nat>) returns (done: bool)
      requires Valid() && |gaps| == 5
      modifies this`creadr, this`cwriter, this`mem, this`consumed, this`issued
      ensures Valid() && old(consumed) <= consumed
      ensures issued == if done then old(issued) + [command] else old(issued)
      ensures if !done then mem == old(mem) && cwriter == old(cwriter)
              else Stored(mem, QueueBase(cbaser) + old(cwriter), command, 4) &&
                   SameBut(old(mem), mem, QueueBase(cbaser) + old(cwriter)) &&
                   cwriter == if old(cwriter) + 32 == QueueSize(cbaser) then 0 else old(cwriter) + 32
      ensures done <==> |polls| > 0 && (!old(Full(QueueSize(cbaser))) || Advances(polls))
    {
      var qsize := QueueSize(cbaser);
      var qbase := QueueBase(cbaser);
      done := AddAt(qbase, qsize, command, polls, gaps);
    }

    /**
     * Any interleaving of commands and hardware progress from an empty queue:
     * the commands accepted are taken from the script in order, and what the
     * hardware has read so far decodes, one by one, to the first of them.
     */
    method Drive(script: seq<Action>) returns (accepted: seq<Command>, ghost at: seq<int>)
      requires Valid() && issued == consumed == []
      modifies this`creadr, this`cwriter, this`mem, this`consumed, this`issued
      ensures Valid() && TakenInOrder(script, at, accepted)
      ensures issued == EncodeAll(accepted) && consumed <= issued
      ensures forall i :: 0 <= i < |consumed| ==> Decode(consumed[i]) == Some(Masked(accepted[i]))
      ensures forall i :: 0 <= i < |issued| ==> NothingElse(accepted[i], issued[i])
    {
      accepted, at := [], [];
      for i := 0 to |script|
        invariant Valid() && issued == EncodeAll(accepted)
        invariant TakenInOrder(script[..i], at, accepted)
      {
        TakeNone(script, i, at, accepted);
        match script[i] {
          case Run(steps) =>
            Hardware(QueueBase(cbaser), QueueSize(cbaser), steps);
          case Issue(c, polls, gaps) =>
            var done := AddCommand(Encode(c), polls, gaps);
            if done {
              TakeOne(script, i, at, accepted);
              EncodeOneMore(accepted, c);
              accepted := accepted + [c];
              at := at + [i];
            }
        }
      }
      assert script[..|script|] == script;
      forall i | 0 <= i < |consumed| ensures Decode(consumed[i]) == Some(Masked(accepted[i])) {
        DecodeEncode(accepted[i]);
      }
      forall i | 0 <= i < |issued| ensures NothingElse(accepted[i], issued[i]) {
        EncodesNothingElse(accepted[i]);
      }
    }
  }

  datatype Action = Run(steps: nat) | Issue(command: Command, polls: seq<nat>, gaps: Gaps)

  type Gaps = g: seq<nat> | |g| == 5 witness [0, 0, 0, 0, 0]

  ghost function EncodeAll(cs: seq<Command>): (bs: seq<CmdBlock>)
    ensures |bs| == |cs| && forall i :: 0 <= i < |cs| ==> bs[i] == Encode(cs[i])
  {
    seq(|cs|, i requires 0 <= i < |cs| => Encode(cs[i]))
  }

  /** `cs` are the commands at the increasing positions `at` of the script. */
  ghost predicate TakenInOrder(script: seq<Action>, at: seq<int>, cs: seq<Command>) {
    |at| == |cs| && (forall i, j :: 0 <= i < j < |at| ==> at[i] < at[j]) &&
    forall i :: 0 <= i < |at| ==> 0 <= at[i] < |script| && script[at[i]].Issue? && script[at[i]].command == cs[i]
  }

  lemma EncodeOneMore(cs: seq<Command>, c: Command)
    ensures EncodeAll(cs + [c]) == EncodeAll(cs) + [Encode(c)]
  {
  }

  lemma TakeNone(script: seq<Action>, i: nat, at: seq<int>, cs: seq<Command>)
    requires i < |script| && TakenInOrder(script[..i], at, cs)
    ensures TakenInOrder(script[..i + 1], at, cs)
  {
  }

  lemma TakeOne(script: seq<Action>, i: nat, at: seq<int>, cs: seq<Command>)
    requires i < |script| && script[i].Issue? && TakenInOrder(script[..i], at, cs)
    ensures TakenInOrder(script[..i + 1], at + [i], cs + [script[i].command])
  {
  }

  /** The hardware consumes something before one of the polls. */
  ghost predicate Advances(polls: seq<nat>) {
    exists i :: 0 <= i < |polls| && polls[i] > 0
  }

  /** The first `i` words of the command are at `a`. */
  ghost predicate Stored(m: Memory, a: int, command: CmdBlock, i: int) {
    (i > 0 ==> Rd(m, a) == command.w0) && (i > 1 ==> Rd(m, a + 8) == command.w1) &&
    (i > 2 ==> Rd(m, a + 16) == command.w2) && (i > 3 ==> Rd(m, a + 24) == command.w3)
  }

  /** The memory is the same except for the four words at `a`. */
  ghost predicate SameBut(was: Memory, now: Memory, a: int) {
    forall x :: x != a && x != a + 8 && x != a + 16 && x != a + 24 ==> Rd(now, x) == Rd(was, x)
  }

  lemma SameButMore(was: Memory, now: Memory, a: int, i: int, v: bv64)
    requires SameBut(was, now, a) && 0 <= i < 4
    ensures SameBut(was, now[a + 8 * i := v], a)
  {
  }

  lemma StoredMore(m: Memory, a: int, command: CmdBlock, i: int)
    requires 0 <= i < 4 && Stored(m, a, command, i)
    ensures Stored(m[a + 8 * i := Word(command, i)], a, command, i + 1)
  {
  }

  lemma StoredBlock(m: Memory, base: int, offset: int, command: CmdBlock)
    requires offset % COMMAND_SIZE == 0 && Stored(m, base + offset, command, 4)
    ensures BlockAt(m, base, offset / COMMAND_SIZE) == command
  {
    assert base + offset == base + COMMAND_SIZE * (offset / COMMAND_SIZE);
  }

  lemma NextSlot(offset: int, qsize: int)
    requires offset % COMMAND_SIZE == 0 && qsize % COMMAND_SIZE == 0 && 0 <= offset < qsize
    ensures NextOffset(offset, qsize) % COMMAND_SIZE == 0
    ensures NextOffset(offset, qsize) / COMMAND_SIZE == Wrap(offset / COMMAND_SIZE, 1, qsize / COMMAND_SIZE)
  {
  }

  lemma SameOffset(a: int, b: int)
    requires a % COMMAND_SIZE == 0 && b % COMMAND_SIZE == 0
    ensures a == b <==> a / COMMAND_SIZE == b / COMMAND_SIZE
  {
  }

  /** The test of lines 91-99 compares slots. */
  lemma FullTest(qwriter: int, creadr: int, qsize: int)
    requires qwriter % COMMAND_SIZE == 0 && creadr % COMMAND_SIZE == 0 && qsize % COMMAND_SIZE == 0
    requires 0 <= creadr < qsize && 0 <= qwriter < qsize
    ensures qwriter == (if creadr == 0 then qsize - COMMAND_SIZE else creadr - COMMAND_SIZE) <==>
            Wrap(qwriter / COMMAND_SIZE, 1, qsize / COMMAND_SIZE) == creadr / COMMAND_SIZE
  {
  }

  /** The writer is right behind the reader exactly when all but one slot is pending. */
  lemma RingFull(n: int, r: int, w: int, pending: int)
    requires 0 <= r < n && 0 <= w < n && 0 <= pending < n && w == Wrap(r, pending, n) && n > 1
    ensures Wrap(w, 1, n) == r <==> pending == n - 1
  {
  }

  /** The offset after `offset`, rolling over at the end of the queue. */
  function NextOffset(offset: int, qsize: int): int {
    if offset + COMMAND_SIZE == qsize then 0 else offset + COMMAND_SIZE
  }

  /** What `init_ITS_command_queue` programs. */
  function Cbaser(address: bv64, attributes: bv64, numPages: bv64): bv64 {
    (address & 0x000F_FFFF_FFFF_F000) | (attributes & 0xF800_0000_0000_0C00) | ((numPages & 0xFF) - 1)
  }

  /** Address, attributes and page count are in their fields, and every other bit is clear. */
  lemma CbaserBits(address: bv64, attributes: bv64, numPages: bv64)
    requires numPages & 0xFF != 0
    ensures Cbaser(address, attributes, numPages) & 0x000F_FFFF_FFFF_F000 == address & 0x000F_FFFF_FFFF_F000
    ensures Cbaser(address, attributes, numPages) & 0xF800_0000_0000_0C00 == attributes & 0xF800_0000_0000_0C00
    ensures Cbaser(address, attributes, numPages) & 0x07F0_0000_0000_03FF == (numPages & 0xFF) - 1
    ensures Cbaser(address, attributes, numPages) & 0xFF == (numPages & 0xFF) - 1
  {
  }

  lemma PageCount(cbaser: bv64, n: bv64)
    requires 1 <= n <= 0xFF && cbaser & 0xFF == n - 1
    ensures QueueSize(cbaser) == 0x1000 * ((n as bv8) as int)
  {
    assert (cbaser & 0xFF) as bv8 == (n as bv8) - 1;
    BytePredecessor(n as bv8);
  }

  /** The queue is at the page of `address` and as many pages long as asked for. */
  predicate Describes(cbaser: bv64, address: bv64, numPages: bv64) {
    QueueBase(cbaser) == (address & 0x000F_FFFF_FFFF_F000) as int &&
    QueueSize(cbaser) == 0x1000 * (((numPages & 0xFF) as bv8) as int)
  }

  lemma CbaserDescribes(address: bv64, attributes: bv64, numPages: bv64)
    requires numPages & 0xFF != 0
    ensures Describes(Cbaser(address, attributes, numPages), address, numPages)
  {
    CbaserBits(address, attributes, numPages);
    PageCount(Cbaser(address, attributes, numPages), numPages & 0xFF);
  }

  lemma BytePredecessor(n: bv8)
    requires n != 0
    ensures (n - 1) as int == n as int - 1
  {
  }
}
