/**
 * ITS command blocks (module/gicv3/gicv3_its.c): the encoders, and the fields
 * the hardware parses, as laid out in the "ITS commands" section of the Arm
 * GICv3/v4 Architecture Specification (IHI 0069).
 */
module ItsCommands {
  import opened Wrappers

  datatype Command =
    | Int(device: bv32, event: bv32)
    | Inv(device: bv32, event: bv32)
    | InvAll(icid: bv32)
    | MapC(rdbase: bv64, icid: bv32)
    | MapD(device: bv32, itt: bv64, size: bv32)
    | MapI(device: bv32, event: bv32, icid: bv32)
    | MapTI(device: bv32, event: bv32, intid: bv32, icid: bv32)
    | Sync(rdbase: bv64)

  /** The four 64-bit words of a command. */
  datatype CmdBlock = CmdBlock(w0: bv64, w1: bv64, w2: bv64, w3: bv64)

  const MASK_15_0: bv64 := 0xFFFF
  const MASK_50_16: bv64 := 0x0007_FFFF_FFFF_0000
  const MASK_51_8: bv64 := 0x000F_FFFF_FFFF_FF00
  const MASK_4_0: bv64 := 0x1F
  const VALID: bv64 := 0x8000_0000_0000_0000

  /** Two adjacent 32-bit words, little-endian. */
  function Pair(lo: bv32, hi: bv32): bv64 {
    (lo as bv64) | ((hi as bv64) << 32)
  }

  function Encode(c: Command): CmdBlock {
    match c
    case Int(device, event) => CmdBlock(Pair(0x03, device), Pair(event, 0), 0, 0)
    case Inv(device, event) => CmdBlock(Pair(0x0c, device), Pair(event, 0), 0, 0)
    case InvAll(icid) => CmdBlock(0x0d, 0, (icid as bv64) & MASK_15_0, 0)
    case MapC(rdbase, icid) => CmdBlock(0x09, 0, VALID | (rdbase & MASK_50_16) | ((icid as bv64) & MASK_15_0), 0)
    case MapD(device, itt, size) =>
      CmdBlock(Pair(0x08, device), (size as bv64) & MASK_4_0, VALID | (itt & MASK_51_8), 0)
    case MapI(device, event, icid) => CmdBlock(Pair(0x0b, device), Pair(event, 0), (icid as bv64) & MASK_15_0, 0)
    case MapTI(device, event, intid, icid) =>
      CmdBlock(Pair(0x0a, device), Pair(event, intid), (icid as bv64) & MASK_15_0, 0)
    case Sync(rdbase) => CmdBlock(0x05, 0, rdbase & MASK_50_16, 0)
  }

  // ----- the hardware's view

  function Low32(w: bv64): bv32 {
    (w & 0xFFFF_FFFF) as bv32
  }

  function High32(w: bv64): bv32 {
    (w >> 32) as bv32
  }

  function Icid(b: CmdBlock): bv32 {
    (b.w2 & 0xFFFF) as bv32
  }

  /** Everything the hardware may look at: the opcode, bits [7:0] of the first word, and the argument fields. */
  datatype Fields = Fields(op: bv8, valid: bool, device: bv32, event: bv32, intid: bv32, icid: bv32,
                           rdbase: bv64, itt: bv64, size: bv32)

  function FieldsOf(b: CmdBlock): Fields {
    Fields((b.w0 & 0xFF) as bv8, b.w2 >> 63 == 1, High32(b.w0), Low32(b.w1), High32(b.w1), Icid(b),
           b.w2 & MASK_50_16, b.w2 & MASK_51_8, (b.w1 & MASK_4_0) as bv32)
  }

  /** Parse by the opcode; mappings must have their valid bit set. */
  function Interpret(f: Fields): Option<Command> {
    if f.op == 0x03 then Some(Int(f.device, f.event))
    else if f.op == 0x0c then Some(Inv(f.device, f.event))
    else if f.op == 0x0d then Some(InvAll(f.icid))
    else if f.op == 0x09 && f.valid then Some(MapC(f.rdbase, f.icid))
    else if f.op == 0x08 && f.valid then Some(MapD(f.device, f.itt, f.size))
    else if f.op == 0x0b then Some(MapI(f.device, f.event, f.icid))
    else if f.op == 0x0a then Some(MapTI(f.device, f.event, f.intid, f.icid))
    else if f.op == 0x05 then Some(Sync(f.rdbase))
    else None
  }

  function Decode(b: CmdBlock): Option<Command> {
    Interpret(FieldsOf(b))
  }

  /** The arguments cut down to the width of their fields. */
  function Masked(c: Command): Command {
    match c
    case Int(_, _) => c
    case Inv(_, _) => c
    case InvAll(icid) => InvAll(icid & 0xFFFF)
    case MapC(rdbase, icid) => MapC(rdbase & MASK_50_16, icid & 0xFFFF)
    case MapD(device, itt, size) => MapD(device, itt & MASK_51_8, size & 0x1F)
    case MapI(device, event, icid) => MapI(device, event, icid & 0xFFFF)
    case MapTI(device, event, intid, icid) => MapTI(device, event, intid, icid & 0xFFFF)
    case Sync(rdbase) => Sync(rdbase & MASK_50_16)
  }

  lemma PairParts(lo: bv32, hi: bv32)
    ensures Low32(Pair(lo, hi)) == lo && High32(Pair(lo, hi)) == hi
  {
  }

  lemma PairOpcode(op: bv32, hi: bv32)
    requires op & 0xFFFF_FF00 == 0
    ensures Pair(op, hi) & 0xFF == op as bv64
  {
  }

  lemma IcidField(icid: bv32)
    ensures (((icid as bv64) & MASK_15_0) & 0xFFFF) as bv32 == icid & 0xFFFF
  {
  }

  lemma MapCFields(rdbase: bv64, icid: bv32)
    ensures var w := VALID | (rdbase & MASK_50_16) | ((icid as bv64) & MASK_15_0);
            w >> 63 == 1 && w & MASK_50_16 == rdbase & MASK_50_16 && (w & 0xFFFF) as bv32 == icid & 0xFFFF
  {
  }

  lemma MapDFields(itt: bv64, size: bv32)
    ensures var w := VALID | (itt & MASK_51_8); w >> 63 == 1 && w & MASK_51_8 == itt & MASK_51_8
    ensures (((size as bv64) & MASK_4_0) & MASK_4_0) as bv32 == size & 0x1F
  {
  }

  lemma DeviceCommand(c: Command)
    requires c.Int? || c.Inv? || c.MapI? || c.MapTI?
    ensures Decode(Encode(c)) == Some(Masked(c))
  {
    var op: bv32 := if c.Int? then 0x03 else if c.Inv? then 0x0c else if c.MapI? then 0x0b else 0x0a;
    PairParts(op, c.device);
    PairOpcode(op, c.device);
    PairParts(c.event, if c.MapTI? then c.intid else 0);
    IcidField(if c.MapI? || c.MapTI? then c.icid else 0);
  }

  lemma MapDCommand(c: Command)
    requires c.MapD?
    ensures Decode(Encode(c)) == Some(Masked(c))
  {
    PairParts(0x08, c.device);
    PairOpcode(0x08, c.device);
    MapDFields(c.itt, c.size);
  }

  lemma InvAllCommand(icid: bv32)
    ensures Decode(Encode(InvAll(icid))) == Some(Masked(InvAll(icid)))
  {
    IcidField(icid);
  }

  lemma MapCCommand(rdbase: bv64, icid: bv32)
    ensures Decode(Encode(MapC(rdbase, icid))) == Some(Masked(MapC(rdbase, icid)))
  {
    MapCFields(rdbase, icid);
  }

  lemma SyncCommand(rdbase: bv64)
    ensures Decode(Encode(Sync(rdbase))) == Some(Masked(Sync(rdbase)))
  {
  }

  /** Every command block carries its encoder's arguments, masked to field width. */
  lemma DecodeEncode(c: Command)
    ensures Decode(Encode(c)) == Some(Masked(c))
  {
    match c
    case InvAll(icid) => InvAllCommand(icid);
    case MapC(rdbase, icid) => MapCCommand(rdbase, icid);
    case MapD(_, _, _) => MapDCommand(c);
    case Sync(rdbase) => SyncCommand(rdbase);
    case _ => DeviceCommand(c);
  }

  // ----- and nothing else

  /** For each of the first three words, the bits that are not an argument, and what they must be. */
  datatype Fixed = Fixed(mask0: bv64, op: bv64, mask1: bv64, mask2: bv64, valid: bv64)

  function FixedBits(c: Command): Fixed {
    match c
    case Int(_, _) => Fixed(0xFFFF_FFFF, 0x03, 0xFFFF_FFFF_0000_0000, 0xFFFF_FFFF_FFFF_FFFF, 0)
    case Inv(_, _) => Fixed(0xFFFF_FFFF, 0x0C, 0xFFFF_FFFF_0000_0000, 0xFFFF_FFFF_FFFF_FFFF, 0)
    case InvAll(_) => Fixed(0xFFFF_FFFF_FFFF_FFFF, 0x0D, 0xFFFF_FFFF_FFFF_FFFF, 0xFFFF_FFFF_FFFF_0000, 0)
    case MapC(_, _) =>
      Fixed(0xFFFF_FFFF_FFFF_FFFF, 0x09, 0xFFFF_FFFF_FFFF_FFFF, 0xFFF8_0000_0000_0000, 0x8000_0000_0000_0000)
    case MapD(_, _, _) =>
      Fixed(0xFFFF_FFFF, 0x08, 0xFFFF_FFFF_FFFF_FFE0, 0xFFF0_0000_0000_00FF, 0x8000_0000_0000_0000)
    case MapI(_, _, _) => Fixed(0xFFFF_FFFF, 0x0B, 0xFFFF_FFFF_0000_0000, 0xFFFF_FFFF_FFFF_0000, 0)
    case MapTI(_, _, _, _) => Fixed(0xFFFF_FFFF, 0x0A, 0, 0xFFFF_FFFF_FFFF_0000, 0)
    case Sync(_) => Fixed(0xFFFF_FFFF_FFFF_FFFF, 0x05, 0xFFFF_FFFF_FFFF_FFFF, 0xFFF8_0000_0000_FFFF, 0)
  }

  /**
   * Outside the arguments of the command a block has its opcode in bits [7:0]
   * of the first word, for a mapping the valid bit on top of the third, and
   * nothing else.
   */
  predicate NothingElse(c: Command, b: CmdBlock) {
    Keeps(b, FixedBits(c))
  }

  predicate Keeps(b: CmdBlock, f: Fixed) {
    b.w0 & f.mask0 == f.op && b.w1 & f.mask1 == 0 && b.w2 & f.mask2 == f.valid && b.w3 == 0
  }

  lemma HeadBits(op: bv32, hi: bv32)
    ensures Pair(op, hi) & 0xFFFF_FFFF == op as bv64 && Pair(op, 0) & 0xFFFF_FFFF_0000_0000 == 0
  {
  }

  lemma NarrowFields(x: bv64)
    ensures (x & MASK_15_0) & 0xFFFF_FFFF_FFFF_0000 == 0 && (x & MASK_4_0) & 0xFFFF_FFFF_FFFF_FFE0 == 0
    ensures (x & MASK_50_16) & 0xFFF8_0000_0000_FFFF == 0
  {
  }

  lemma MappingFields(x: bv64, y: bv64)
    ensures (VALID | (x & MASK_50_16) | (y & MASK_15_0)) & 0xFFF8_0000_0000_0000 == 0x8000_0000_0000_0000
    ensures (VALID | (x & MASK_51_8)) & 0xFFF0_0000_0000_00FF == 0x8000_0000_0000_0000
  {
  }

  lemma CollectionBits(c: Command)
    requires c.InvAll? || c.MapC? || c.Sync?
    ensures NothingElse(c, Encode(c))
  {
    match c
    case InvAll(icid) => NarrowFields(icid as bv64);
    case MapC(rdbase, icid) => MappingFields(rdbase, icid as bv64);
    case Sync(rdbase) => NarrowFields(rdbase);
  }

  lemma MapDBits(c: Command)
    requires c.MapD?
    ensures NothingElse(c, Encode(c))
  {
    HeadBits(0x08, c.device);
    NarrowFields(c.size as bv64);
    MappingFields(c.itt, 0);
  }

  lemma DeviceBits(c: Command)
    requires c.Int? || c.Inv? || c.MapI? || c.MapTI?
    ensures NothingElse(c, Encode(c))
  {
    HeadBits(if c.Int? then 0x03 else if c.Inv? then 0x0C else if c.MapI? then 0x0B else 0x0A, c.device);
    HeadBits(c.event, 0);
    NarrowFields(if c.MapI? || c.MapTI? then c.icid as bv64 else 0);
  }

  /** The encoders set no bit outside the fields of their commands. */
  lemma EncodesNothingElse(c: Command)
    ensures NothingElse(c, Encode(c))
  {
    if c.MapD? {
      MapDBits(c);
    } else if c.InvAll? || c.MapC? || c.Sync? {
      CollectionBits(c);
    } else {
      DeviceBits(c);
    }
  }

  // ----- the only such block

  lemma RebuildHead(x: bv64, op: bv32)
    requires x & 0xFFFF_FFFF == op as bv64
    ensures x == Pair(op, High32(x))
  {
  }

  lemma RebuildHalves(x: bv64)
    ensures x == Pair(Low32(x), High32(x)) && (x & 0xFFFF_FFFF_0000_0000 == 0 ==> x == Pair(Low32(x), 0))
  {
  }

  lemma RebuildIcid(x: bv64)
    requires x & 0xFFFF_FFFF_FFFF_0000 == 0
    ensures x == (((x & 0xFFFF) as bv32) as bv64) & MASK_15_0
  {
  }

  lemma RebuildSize(x: bv64)
    requires x & 0xFFFF_FFFF_FFFF_FFE0 == 0
    ensures x == (((x & MASK_4_0) as bv32) as bv64) & MASK_4_0
  {
  }

  lemma RebuildMapC(x: bv64)
    requires x & 0xFFF8_0000_0000_0000 == 0x8000_0000_0000_0000
    ensures x == VALID | ((x & MASK_50_16) & MASK_50_16) | ((((x & 0xFFFF) as bv32) as bv64) & MASK_15_0)
  {
  }

  lemma RebuildMapD(x: bv64)
    requires x & 0xFFF0_0000_0000_00FF == 0x8000_0000_0000_0000
    ensures x == VALID | ((x & MASK_51_8) & MASK_51_8)
  {
  }

  lemma RebuildSync(x: bv64)
    requires x & 0xFFF8_0000_0000_FFFF == 0
    ensures x == (x & MASK_50_16) & MASK_50_16
  {
  }

  /** What a parse takes from the fields. */
  predicate TakenFrom(m: Command, f: Fields) {
    match m
    case Int(device, event) => device == f.device && event == f.event
    case Inv(device, event) => device == f.device && event == f.event
    case InvAll(icid) => icid == f.icid
    case MapC(rdbase, icid) => rdbase == f.rdbase && icid == f.icid
    case MapD(device, itt, size) => device == f.device && itt == f.itt && size == f.size
    case MapI(device, event, icid) => device == f.device && event == f.event && icid == f.icid
    case MapTI(device, event, intid, icid) =>
      device == f.device && event == f.event && intid == f.intid && icid == f.icid
    case Sync(rdbase) => rdbase == f.rdbase
  }

  lemma InterpretTakes(f: Fields)
    ensures Interpret(f).Some? ==> TakenFrom(Interpret(f).value, f)
  {
  }

  lemma ReencodeInt(b: CmdBlock, m: Command)
    requires (m.Int? || m.Inv?) && TakenFrom(m, FieldsOf(b)) && NothingElse(m, b)
    ensures Encode(m) == b
  {
    RebuildHead(b.w0, if m.Int? then 0x03 else 0x0C);
    RebuildHalves(b.w1);
  }

  lemma ReencodeInvAll(b: CmdBlock, m: Command)
    requires m.InvAll? && TakenFrom(m, FieldsOf(b)) && NothingElse(m, b)
    ensures Encode(m) == b
  {
    RebuildIcid(b.w2);
  }

  lemma ReencodeMapC(b: CmdBlock, m: Command)
    requires m.MapC? && TakenFrom(m, FieldsOf(b)) && NothingElse(m, b)
    ensures Encode(m) == b
  {
    RebuildMapC(b.w2);
  }

  lemma ReencodeMapD(b: CmdBlock, m: Command)
    requires m.MapD? && TakenFrom(m, FieldsOf(b)) && NothingElse(m, b)
    ensures Encode(m) == b
  {
    RebuildHead(b.w0, 0x08);
    RebuildSize(b.w1);
    RebuildMapD(b.w2);
  }

  lemma ReencodeMapI(b: CmdBlock, m: Command)
    requires m.MapI? && TakenFrom(m, FieldsOf(b)) && NothingElse(m, b)
    ensures Encode(m) == b
  {
    RebuildHead(b.w0, 0x0B);
    RebuildHalves(b.w1);
    RebuildIcid(b.w2);
  }

  lemma ReencodeMapTI(b: CmdBlock, m: Command)
    requires m.MapTI? && TakenFrom(m, FieldsOf(b)) && NothingElse(m, b)
    ensures Encode(m) == b
  {
    RebuildHead(b.w0, 0x0A);
    RebuildHalves(b.w1);
    RebuildIcid(b.w2);
  }

  lemma ReencodeSync(b: CmdBlock, m: Command)
    requires m.Sync? && TakenFrom(m, FieldsOf(b)) && NothingElse(m, b)
    ensures Encode(m) == b
  {
    RebuildSync(b.w2);
  }

  lemma ReencodeDevice(b: CmdBlock, m: Command)
    requires m.MapD? || m.MapI? || m.MapTI?
    requires TakenFrom(m, FieldsOf(b)) && NothingElse(m, b)
    ensures Encode(m) == b
  {
    if m.MapD? {
      ReencodeMapD(b, m);
    } else if m.MapI? {
      ReencodeMapI(b, m);
    } else {
      ReencodeMapTI(b, m);
    }
  }

  lemma ReencodeCollection(b: CmdBlock, m: Command)
    requires m.InvAll? || m.MapC? || m.Sync?
    requires TakenFrom(m, FieldsOf(b)) && NothingElse(m, b)
    ensures Encode(m) == b
  {
    if m.InvAll? {
      ReencodeInvAll(b, m);
    } else if m.MapC? {
      ReencodeMapC(b, m);
    } else {
      ReencodeSync(b, m);
    }
  }

  /** Parsing loses nothing of a block without stray bits: encoding what was parsed gives the block back. */
  lemma EncodeDecode(b: CmdBlock, m: Command)
    requires Decode(b) == Some(m) && NothingElse(m, b)
    ensures Encode(m) == b
  {
    InterpretTakes(FieldsOf(b));
    if m.InvAll? || m.MapC? || m.Sync? {
      ReencodeCollection(b, m);
    } else if m.Int? || m.Inv? {
      ReencodeInt(b, m);
    } else {
      ReencodeDevice(b, m);
    }
  }

  lemma MaskedKeepsKind(c: Command, b: CmdBlock)
    ensures NothingElse(c, b) <==> NothingElse(Masked(c), b)
  {
  }

  /** The block written for a command is the only one without stray bits that carries its arguments. */
  lemma OnlyBlock(c: Command, b: CmdBlock)
    ensures b == Encode(c) <==> NothingElse(c, b) && Decode(b) == Some(Masked(c))
  {
    DecodeEncode(c);
    EncodesNothingElse(c);
    MaskedKeepsKind(c, Encode(c));
    EncodeDecode(Encode(c), Masked(c));
    if NothingElse(c, b) && Decode(b) == Some(Masked(c)) {
      MaskedKeepsKind(c, b);
      EncodeDecode(b, Masked(c));
    }
  }
}
