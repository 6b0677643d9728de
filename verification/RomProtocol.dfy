/**
 The simulated serial bootloader.  Control lines and commands arrive interleaved, as events; the
 simulator keeps a list of faults, and a run without faults is a run that kept the protocol.
 */
module RomProtocol {
  import opened Common
  import opened Bits
  import Slip

  const OP_FLASH_BEGIN: byte := 0x02
  const OP_FLASH_DATA: byte := 0x03
  const OP_FLASH_END: byte := 0x04
  const OP_SYNC: byte := 0x08
  const OP_READ_REG: byte := 0x0A
  const OP_SPI_PARAMS: byte := 0x0B
  const OP_SPI_ATTACH: byte := 0x0D
  const OP_CHANGE_BAUD: byte := 0x0F
  const OP_FLASH_MD5: byte := 0x13
  const OP_SECURITY: byte := 0x14

  const BLOCK: nat := 1024
  const SECTOR: nat := 4096
  const SECTORS_PER_BLOCK: nat := 16
  const MAGIC_AT: nat := 0x40001000
  const DEFAULT_BAUD: nat := 115200

  datatype Security = Reject | Short | Full(id: nat)

  datatype Chip = Chip(magic: nat, security: Security, status: nat, beginLength: nat, spiCommands: bool, eraseBug: bool)

  datatype Mode = Normal | IgnoreBoot | RefuseBegin

  /** What a simulation is started with; an image size of 0 means that no image was named. */
  datatype Config = Config(chip: Chip, mode: Mode, imageSize: nat, writes: bool)

  /** One step of a run: a control line, the rate of the line, or a complete frame. */
  datatype Event = Reset(asserted: bool) | Boot(asserted: bool) | Baud(rate: nat) | Frame(bytes: seq<byte>)

  // ----- frames -----

  function Field(payload: seq<byte>, k: nat): nat
    requires 4 * k + 4 <= |payload|
  {
    Little(payload, 4 * k, 4)
  }

  predicate IsOp(e: Event, op: byte) {
    e.Frame? && |e.bytes| >= 8 && e.bytes[1] == op
  }

  function Payload(e: Event): seq<byte>
    requires e.Frame? && |e.bytes| >= 8
  {
    e.bytes[8..]
  }

  /** The checksum in the header of a data frame. */
  function ChecksumField(e: Event): nat
    requires e.Frame? && |e.bytes| >= 8
  {
    Little(e.bytes, 4, 4)
  }

  /** Begin frames the chip takes, with a size or, to attach the flash only, without. */
  predicate IsBegin(chip: Chip, e: Event) {
    IsOp(e, OP_FLASH_BEGIN) && |Payload(e)| == chip.beginLength >= 16
      && !(Field(Payload(e), 0) == 0 && Field(Payload(e), 1) == 0)
  }

  predicate IsAttachOnly(chip: Chip, e: Event) {
    IsOp(e, OP_FLASH_BEGIN) && |Payload(e)| == chip.beginLength >= 16
      && Field(Payload(e), 0) == 0 && Field(Payload(e), 1) == 0
  }

  predicate IsData(e: Event) {
    IsOp(e, OP_FLASH_DATA) && |Payload(e)| >= 16
  }

  function Block(e: Event): seq<byte>
    requires IsData(e)
  {
    Payload(e)[16..]
  }

  // ----- checksums -----

  function Xor(a: nat, b: nat): nat {
    if a == 0 then b
    else if b == 0 then a
    else 2 * Xor(a / 2, b / 2) + (if a % 2 != b % 2 then 1 else 0)
  }

  function ChecksumFrom(seed: nat, block: seq<byte>): nat
    decreases |block|
  {
    if block == [] then seed else ChecksumFrom(Xor(seed, block[0]), block[1..])
  }

  function Checksum(block: seq<byte>): nat {
    ChecksumFrom(0xEF, block)
  }

  lemma {:induction false} XorHalves(a: nat, b: nat)
    ensures Xor(a, b) / 2 == Xor(a / 2, b / 2) && Xor(a, b) % 2 == (if a % 2 != b % 2 then 1 else 0)
  {
  }

  lemma {:induction false} XorCancels(a: nat, b: nat, c: nat, d: nat)
    requires Xor(a, c) == Xor(b, d)
    ensures a == b <==> c == d
    decreases a + b + c + d
  {
    if a + b + c + d > 0 {
      XorHalves(a, c);
      XorHalves(b, d);
      XorCancels(a / 2, b / 2, c / 2, d / 2);
    }
  }

  lemma {:induction false} ChecksumFromInjective(a: nat, b: nat, block: seq<byte>)
    requires ChecksumFrom(a, block) == ChecksumFrom(b, block)
    ensures a == b
    decreases |block|
  {
    if block != [] {
      ChecksumFromInjective(Xor(a, block[0]), Xor(b, block[0]), block[1..]);
      XorCancels(a, b, block[0], block[0]);
    }
  }

  lemma {:induction false} ChecksumFromConcat(seed: nat, a: seq<byte>, b: seq<byte>)
    ensures ChecksumFrom(seed, a + b) == ChecksumFrom(ChecksumFrom(seed, a), b)
    decreases |a|
  {
    if a == [] {
      assert a + b == b;
    } else {
      assert (a + b)[1..] == a[1..] + b;
      ChecksumFromConcat(Xor(seed, a[0]), a[1..], b);
    }
  }

  /** A block with exactly one byte changed never has the same checksum. */
  lemma ChecksumSeesOneByte(block: seq<byte>, k: nat, b: byte)
    requires k < |block| && b != block[k]
    ensures Checksum(block[k := b]) != Checksum(block)
  {
    var before, after := block[..k], block[k + 1..];
    var seed := ChecksumFrom(0xEF, before);
    assert block == before + ([block[k]] + after) && block[k := b] == before + ([b] + after);
    ChecksumFromConcat(0xEF, before, [block[k]] + after);
    ChecksumFromConcat(0xEF, before, [b] + after);
    assert ([block[k]] + after)[1..] == after && ([b] + after)[1..] == after;
    if Checksum(block[k := b]) == Checksum(block) {
      ChecksumFromInjective(Xor(seed, b), Xor(seed, block[k]), after);
      XorCancels(seed, seed, b, block[k]);
    }
  }

  lemma {:induction false} XorBit(a: nat, b: nat, k: nat)
    ensures Bit(Xor(a, b), k) <==> Bit(a, k) != Bit(b, k)
  {
    if a == 0 {
      ZeroHasNoBit(k);
    } else if b == 0 {
      ZeroHasNoBit(k);
    } else {
      XorHalves(a, b);
      if k > 0 {
        XorBit(a / 2, b / 2, k - 1);
      }
    }
  }

  /** The checksum starts with 0xEF, and each byte turns over the bits it has. */
  lemma ChecksumMeans(block: seq<byte>, b: byte, k: nat)
    ensures Checksum([]) == 0xEF
    ensures Bit(Checksum(block + [b]), k) <==> Bit(Checksum(block), k) != Bit(b, k)
  {
    ChecksumFromConcat(0xEF, block, [b]);
    assert [b][1..] == [];
    XorBit(Checksum(block), b, k);
  }

  // ----- what a history of events means -----

  /** The reset line: what it was set to last. */
  ghost predicate ResetLine(h: seq<Event>) {
    h != [] && (if h[|h| - 1].Reset? then h[|h| - 1].asserted else ResetLine(h[..|h| - 1]))
  }

  /** The boot line as the target sees it. */
  ghost predicate BootLine(mode: Mode, h: seq<Event>) {
    h != [] && mode != IgnoreBoot && (if h[|h| - 1].Boot? then h[|h| - 1].asserted else BootLine(mode, h[..|h| - 1]))
  }

  /** The k-th event releases the reset. */
  ghost predicate Releases(h: seq<Event>, k: nat)
    requires k < |h|
  {
    h[k] == Reset(false) && ResetLine(h[..k])
  }

  /** The target runs the loader if the boot line was asserted when the reset was last released. */
  ghost predicate InDownload(mode: Mode, h: seq<Event>) {
    h != [] && (if Releases(h, |h| - 1) then BootLine(mode, h[..|h| - 1]) else InDownload(mode, h[..|h| - 1]))
  }

  ghost predicate Attached(chip: Chip, h: seq<Event>) {
    h != [] && (Attaches(chip, h[|h| - 1]) || Attached(chip, h[..|h| - 1]))
  }

  predicate Attaches(chip: Chip, e: Event) {
    IsAttachOnly(chip, e) || (chip.spiCommands && IsOp(e, OP_SPI_ATTACH))
  }

  ghost predicate ParamsSet(chip: Chip, h: seq<Event>) {
    h != [] && (SetsParams(chip, h[|h| - 1]) || ParamsSet(chip, h[..|h| - 1]))
  }

  predicate SetsParams(chip: Chip, e: Event) {
    IsAttachOnly(chip, e) || (chip.spiCommands && IsOp(e, OP_SPI_PARAMS))
  }

  /** The blocks received since the last begin frame. */
  ghost function Blocks(chip: Chip, h: seq<Event>): seq<seq<byte>> {
    if h == [] then []
    else
      var before, e := h[..|h| - 1], h[|h| - 1];
      if IsBegin(chip, e) then [] else if IsData(e) then Blocks(chip, before) + [Block(e)] else Blocks(chip, before)
  }

  function Joined(blocks: seq<seq<byte>>): seq<byte> {
    if blocks == [] then [] else Joined(blocks[..|blocks| - 1]) + blocks[|blocks| - 1]
  }

  /** The image size and the number of blocks declared by the last begin frame. */
  datatype Declaration = Declaration(size: nat, blocks: nat)

  ghost function Declared(c: Config, h: seq<Event>): Declaration {
    if h == [] then Declaration(0, 0)
    else if IsBegin(c.chip, h[|h| - 1]) then DeclaredBy(c, h[|h| - 1])
    else Declared(c, h[..|h| - 1])
  }

  /** The first field is an erase size; with a named image the size is that of the image. */
  function DeclaredBy(c: Config, e: Event): Declaration
    requires IsBegin(c.chip, e)
  {
    Declaration(if c.imageSize > 0 then c.imageSize else Field(Payload(e), 0), Field(Payload(e), 1))
  }

  function BlocksFor(size: nat): nat {
    (size + BLOCK - 1) / BLOCK
  }

  /** The doctored erase size of one chip. */
  function EraseSize(chip: Chip, offset: nat, size: nat): int {
    if !chip.eraseBug then size
    else
      var sectors := (size + SECTOR - 1) / SECTOR;
      var room := SECTORS_PER_BLOCK - offset / SECTOR % SECTORS_PER_BLOCK;
      var head := if room < sectors then room else sectors;
      (if sectors < 2 * head then (sectors + 1) / 2 else sectors - head) * SECTOR
  }

  /**
   The doctored size is a number of whole sectors, never more than the image takes and never less
   than half of that.
   */
  lemma EraseSizeBounds(chip: Chip, offset: nat, size: nat)
    requires chip.eraseBug
    ensures var whole := (size + SECTOR - 1) / SECTOR * SECTOR;
      EraseSize(chip, offset, size) % SECTOR == 0 && whole <= 2 * EraseSize(chip, offset, size) <= 2 * whole
  {
    var sectors := (size + SECTOR - 1) / SECTOR;
    var room := SECTORS_PER_BLOCK - offset / SECTOR % SECTORS_PER_BLOCK;
    var head := if room < sectors then room else sectors;
    var erased := if sectors < 2 * head then (sectors + 1) / 2 else sectors - head;
    assert EraseSize(chip, offset, size) == erased * SECTOR;
    HalfIsErased(sectors, head);
    WholeSectors(erased);
  }

  /**
   The doctored size is the least number of sectors that makes up for the miscount: a chip that is asked
   for n sectors clears those up to the next boundary of 64 KiB in addition.
   */
  lemma EraseSizeIsLeast(chip: Chip, offset: nat, size: nat, n: nat)
    requires chip.eraseBug
    ensures var room := 16 - offset / 4096 % 16;
      var cleared := n + if n < room then n else room;
      EraseSize(chip, offset, size) <= 4096 * n <==> size <= 4096 * cleared
  {
    var sectors := (size + SECTOR - 1) / SECTOR;
    var room := SECTORS_PER_BLOCK - offset / SECTOR % SECTORS_PER_BLOCK;
    var head := if room < sectors then room else sectors;
    var erased := if sectors < 2 * head then (sectors + 1) / 2 else sectors - head;
    var cleared := n + if n < room then n else room;
    SectorsCover(size, cleared);
    assert erased <= n <==> sectors <= cleared;
    assert EraseSize(chip, offset, size) == erased * 4096;
  }

  lemma SectorsCover(size: nat, n: nat)
    ensures (size + SECTOR - 1) / SECTOR <= n <==> size <= SECTOR * n
  {
  }

  lemma HalfIsErased(sectors: nat, head: nat)
    requires head <= sectors
    ensures var erased := if sectors < 2 * head then (sectors + 1) / 2 else sectors - head;
      sectors <= 2 * erased <= 2 * sectors
  {
  }

  lemma WholeSectors(n: nat)
    ensures n * SECTOR % SECTOR == 0
  {
  }

  /** What the last end frame has caused to be written. */
  ghost function Output(c: Config, h: seq<Event>): Option<seq<byte>> {
    if h == [] then None
    else
      var before, e := h[..|h| - 1], h[|h| - 1];
      if IsOp(e, OP_FLASH_END)
        && c.writes then Some(FirstBytes(Joined(Blocks(c.chip, before)), Declared(c, before).size))
      else Output(c, before)
  }

  function FirstBytes(image: seq<byte>, size: nat): seq<byte> {
    if size <= |image| then image[..size] else image
  }

  // ----- runs without faults -----

  predicate GoodBegin(c: Config, e: Event)
    requires IsBegin(c.chip, e)
  {
    var p := Payload(e);
    && Field(p, 2) == BLOCK && (|p| >= 20 ==> Field(p, 4) == 0)
    && Field(p, 1) == BlocksFor(DeclaredBy(c, e).size)
    && (c.imageSize > 0 ==> Field(p, 0) == EraseSize(c.chip, Field(p, 3), c.imageSize))
  }

  ghost predicate GoodData(c: Config, h: seq<Event>, e: Event)
    requires IsData(e)
  {
    && Field(Payload(e), 0) == BLOCK == |Block(e)| && Field(Payload(e), 1) == |Blocks(c.chip, h)|
    && ChecksumField(e) == Checksum(Block(e))
  }

  /** At the end all declared blocks are there, and what is behind the image is erased flash. */
  ghost predicate GoodEnd(c: Config, h: seq<Event>) {
    var d, image := Declared(c, h), Joined(Blocks(c.chip, h));
    && |Blocks(c.chip, h)| == d.blocks == BlocksFor(d.size) && |image| == BLOCK * d.blocks && d.size <= |image|
    && Erased(image, d.size)
  }

  /** From this byte on there is erased flash. */
  ghost predicate Erased(image: seq<byte>, from: nat) {
    forall k :: from <= k < |image| ==> image[k] == 0xFF
  }

  function SyncPayload(): seq<byte> {
    [0x07, 0x07, 0x12, 0x20] + seq(32, _ => 0x55)
  }

  predicate IsKnown(op: byte) {
    op in {OP_FLASH_BEGIN, OP_FLASH_DATA, OP_FLASH_END, OP_SYNC, OP_READ_REG, OP_SPI_PARAMS, OP_SPI_ATTACH,
           OP_CHANGE_BAUD, OP_FLASH_MD5, OP_SECURITY}
  }

  /** Commands that only ask or configure, with the payload they have to have. */
  predicate GoodRequest(e: Event)
    requires e.Frame? && |e.bytes| >= 8
  {
    var p := Payload(e);
    && IsKnown(e.bytes[1])
    && (IsOp(e, OP_SYNC) ==> p == SyncPayload())
    && (IsOp(e, OP_READ_REG) ==> |p| == 4 && Field(p, 0) == MAGIC_AT)
    && (IsOp(e, OP_CHANGE_BAUD) ==> |p| == 8 && Field(p, 1) == 0)
    && (IsOp(e, OP_FLASH_MD5) ==> |p| == 16 && Field(p, 1) != 0)
    && (IsOp(e, OP_SPI_PARAMS) ==> |p| == 24 && Field(p, 1) != 0)
  }

  /** A payload of another length than the simulator unpacks ends it with an exception. */
  predicate Crashes(c: Config, e: Event)
    requires e.Frame? && |e.bytes| >= 8
  {
    var n := |Payload(e)|;
    || (IsOp(e, OP_READ_REG) && n != 4) || (IsOp(e, OP_CHANGE_BAUD) && n != 8) || (IsOp(e, OP_FLASH_MD5) && n != 16)
    || (IsOp(e, OP_SPI_PARAMS) && c.chip.spiCommands && n != 24)
  }

  /** What a command may be: in the order of the protocol, with the payload it has to have. */
  ghost predicate GoodOp(c: Config, h: seq<Event>, e: Event)
    requires e.Frame? && |e.bytes| >= 8
  {
    && GoodRequest(e)
    && (IsOp(e, OP_SPI_ATTACH) ==> c.chip.spiCommands)
    && (IsOp(e, OP_SPI_PARAMS) ==> c.chip.spiCommands && Attached(c.chip, h))
    && (IsOp(e, OP_FLASH_BEGIN) ==> |Payload(e)| == c.chip.beginLength)
    && (IsBegin(c.chip, e) ==> ParamsSet(c.chip, h) && GoodBegin(c, e))
    && (IsOp(e, OP_FLASH_DATA) ==> IsData(e) && GoodData(c, h, e))
    && (IsOp(e, OP_FLASH_END) ==> GoodEnd(c, h))
  }

  /** The same, command by command. */
  lemma GoodOpIs(c: Config, h: seq<Event>, e: Event)
    requires e.Frame? && |e.bytes| >= 8
    ensures var op, p := e.bytes[1], Payload(e);
      && (op == OP_SPI_ATTACH ==> (GoodOp(c, h, e) <==> c.chip.spiCommands) && !Crashes(c, e))
      && (op == OP_SPI_PARAMS ==>
            && (GoodOp(c, h, e) <==> c.chip.spiCommands && Attached(c.chip, h) && |p| == 24 && Field(p, 1) != 0)
            && (Crashes(c, e) <==> c.chip.spiCommands && |p| != 24))
      && (op == OP_FLASH_BEGIN ==>
            && (GoodOp(c, h, e) <==>
              |p| == c.chip.beginLength && (IsBegin(c.chip, e) ==> ParamsSet(c.chip, h) && GoodBegin(c, e)))
            && !Crashes(c, e))
      && (op == OP_FLASH_DATA ==> (GoodOp(c, h, e) <==> IsData(e) && GoodData(c, h, e)) && !Crashes(c, e))
      && (op == OP_FLASH_END ==> (GoodOp(c, h, e) <==> GoodEnd(c, h)) && !Crashes(c, e))
      && (op !in {OP_SPI_ATTACH, OP_SPI_PARAMS, OP_FLASH_BEGIN, OP_FLASH_DATA, OP_FLASH_END} ==>
            (GoodOp(c, h, e) <==> GoodRequest(e)))
  {
    hide Field;
    hide GoodBegin;
    hide GoodEnd;
    hide SyncPayload;
  }

  /** What one more event may be. */
  ghost predicate GoodStep(c: Config, h: seq<Event>, e: Event) {
    e.Frame? ==>
      && |e.bytes| >= 8 && e.bytes[0] == 0 && Little(e.bytes, 2, 2) == |Payload(e)|
      && InDownload(c.mode, h) && GoodOp(c, h, e)
  }

  ghost predicate Clean(c: Config, h: seq<Event>) {
    h != [] ==> Clean(c, h[..|h| - 1]) && GoodStep(c, h[..|h| - 1], h[|h| - 1])
  }

  /** All the functions of a history, one event further. */
  lemma OneMore(c: Config, h: seq<Event>, e: Event)
    ensures var h' := h + [e];
      && (ResetLine(h') <==> if e.Reset? then e.asserted else ResetLine(h))
      && (BootLine(c.mode, h') <==> c.mode != IgnoreBoot && if e.Boot? then e.asserted else BootLine(c.mode, h))
      && (InDownload(c.mode, h') <==>
            if e == Reset(false) && ResetLine(h) then BootLine(c.mode, h) else InDownload(c.mode, h))
      && (Attached(c.chip, h') <==> Attaches(c.chip, e) || Attached(c.chip, h))
      && (ParamsSet(c.chip, h') <==> SetsParams(c.chip, e) || ParamsSet(c.chip, h))
      && Blocks(c.chip, h') == (if IsBegin(c.chip, e) then []
            else if IsData(e) then Blocks(c.chip, h) + [Block(e)] else Blocks(c.chip, h))
      && Declared(c, h') == (if IsBegin(c.chip, e) then DeclaredBy(c, e) else Declared(c, h))
      && (Clean(c, h') <==> Clean(c, h) && GoodStep(c, h, e))
  {
    hide GoodStep;
    hide Attaches;
    hide SetsParams;
    hide IsBegin;
    hide IsData;
    hide Block;
    var h' := h + [e];
    assert h'[..|h'| - 1] == h && h'[|h'| - 1] == e && h'[..|h|] == h;
  }

  lemma OutputMore(c: Config, h: seq<Event>, e: Event)
    ensures Output(c, h + [e]) == if IsOp(e, OP_FLASH_END) && c.writes
      then Some(FirstBytes(Joined(Blocks(c.chip, h)), Declared(c, h).size)) else Output(c, h)
  {
    hide FirstBytes;
    hide Joined;
    assert (h + [e])[..|h|] == h;
  }

  lemma JoinedMore(blocks: seq<seq<byte>>, block: seq<byte>)
    ensures Joined(blocks + [block]) == Joined(blocks) + block
  {
    assert (blocks + [block])[..|blocks|] == blocks;
  }

  /** The blocks of a run without faults are full and were sent in this order. */
  lemma {:induction false} CleanBlocks(c: Config, h: seq<Event>)
    requires Clean(c, h)
    ensures |Joined(Blocks(c.chip, h))| == BLOCK * |Blocks(c.chip, h)|
  {
    if h != [] {
      var before, e := h[..|h| - 1], h[|h| - 1];
      CleanBlocks(c, before);
      if !IsBegin(c.chip, e) && IsData(e) {
        JoinedMore(Blocks(c.chip, before), Block(e));
      }
    }
  }

  lemma {:induction false} CleanAt(c: Config, h: seq<Event>, i: nat)
    requires Clean(c, h) && i < |h|
    ensures Clean(c, h[..i]) && GoodStep(c, h[..i], h[i])
    decreases |h|
  {
    hide GoodStep;
    if i < |h| - 1 {
      var before := h[..|h| - 1];
      CleanAt(c, before, i);
      assert before[..i] == h[..i] && before[i] == h[i];
    }
  }

  /** What every frame of a run without faults has to be, in the bytes themselves. */
  lemma FaultlessFrame(c: Config, h: seq<Event>, i: nat)
    requires Clean(c, h) && i < |h| && h[i].Frame?
    ensures var b := h[i].bytes;
      && |b| >= 8 && b[0] == 0 && b[2] as int + 256 * b[3] as int == |b| - 8
      && b[1] in {0x02, 0x03, 0x04, 0x08, 0x0A, 0x0B, 0x0D, 0x0F, 0x13, 0x14}
      && var p := b[8..];
         && (b[1] == 0x08 ==> p == [0x07, 0x07, 0x12, 0x20] + seq(32, _ => 0x55))
         && (b[1] == 0x0A ==> |p| == 4 && Field(p, 0) == 0x40001000)
         && (b[1] == 0x0B ==> |p| == 24 && Field(p, 1) != 0 && c.chip.spiCommands && Attached(c.chip, h[..i]))
         && (b[1] == 0x0D ==> c.chip.spiCommands)
         && (b[1] == 0x0F ==> |p| == 8 && Field(p, 1) == 0)
         && (b[1] == 0x13 ==> |p| == 16 && Field(p, 1) != 0)
  {
    hide Field;
    hide GoodBegin;
    hide GoodData;
    hide GoodEnd;
    hide SyncPayload;
    hide Attached;
    CleanAt(c, h, i);
    LittleTwo(h[i].bytes, 2);
    SyncIs();
  }

  lemma SyncIs()
    ensures SyncPayload() == [0x07, 0x07, 0x12, 0x20] + seq(32, _ => 0x55)
  {
  }

  /** The same for the frames that carry an image: what announces it, its blocks, and the end. */
  lemma FaultlessImageFrame(c: Config, h: seq<Event>, i: nat)
    requires Clean(c, h) && i < |h| && h[i].Frame?
    ensures |h[i].bytes| >= 8
    ensures var b, p, before := h[i].bytes, h[i].bytes[8..], h[..i];
      && (b[1] == 0x02 ==> |p| == c.chip.beginLength)
      && (b[1] == 0x02 && |p| >= 16 && !(Field(p, 0) == 0 && Field(p, 1) == 0) ==>
            && ParamsSet(c.chip, before) && Field(p, 2) == 1024 && (|p| >= 20 ==> Field(p, 4) == 0)
            && var size := if c.imageSize > 0 then c.imageSize else Field(p, 0);
               && 1024 * Field(p, 1) - 1024 < size <= 1024 * Field(p, 1)
               && (c.imageSize > 0 ==> Field(p, 0) == EraseSize(c.chip, Field(p, 3), c.imageSize)))
      && (b[1] == 0x03 ==>
            && |p| == 16 + 1024 && Field(p, 0) == 1024 && Field(p, 1) == |Blocks(c.chip, before)|
            && Little(b, 4, 4) == Checksum(p[16..]))
      && (b[1] == 0x04 ==> |Blocks(c.chip, before)| == Declared(c, before).blocks)
  {
    hide Field;
    hide EraseSize;
    hide Checksum;
    hide Joined;
    hide Attached;
    CleanAt(c, h, i);
  }

  /** Where the loader was entered: at the last release of the reset, with the boot line asserted. */
  lemma {:induction false} EnteredAt(mode: Mode, h: seq<Event>) returns (j: nat)
    requires InDownload(mode, h)
    ensures j < |h| && Releases(h, j) && BootLine(mode, h[..j])
    ensures forall k :: j < k < |h| ==> !Releases(h, k)
    decreases |h|
  {
    var last := |h| - 1;
    var before := h[..last];
    if Releases(h, last) {
      j := last;
    } else {
      j := EnteredAt(mode, before);
      assert before[..j] == h[..j] && before[j] == h[j];
      forall k | j < k < |h|
        ensures !Releases(h, k)
      {
        if k < last {
          assert before[..k] == h[..k] && before[k] == h[k] && !Releases(before, k);
        }
      }
    }
  }

  /** Every command of a run without faults came after a release of the reset with the boot line asserted. */
  lemma CommandsFollowRelease(c: Config, h: seq<Event>, i: nat)
    requires Clean(c, h) && i < |h| && h[i].Frame?
    ensures exists j :: 0 <= j < i && Releases(h, j) && BootLine(c.mode, h[..j]) && forall k :: j < k < i ==>
      !Releases(h, k)
  {
    CleanAt(c, h, i);
    var before := h[..i];
    var j := EnteredAt(c.mode, before);
    assert before[..j] == h[..j] && before[j] == h[j];
    forall k | j < k < i
      ensures !Releases(h, k)
    {
      assert before[..k] == h[..k] && before[k] == h[k] && !Releases(before, k);
    }
    assert Releases(h, j);
  }

  lemma {:induction false} IgnoredIsOff(mode: Mode, h: seq<Event>)
    requires mode == IgnoreBoot
    ensures !InDownload(mode, h)
  {
    if h != [] {
      IgnoredIsOff(mode, h[..|h| - 1]);
    }
  }

  /** A target whose boot line is broken faults every command. */
  lemma NothingPassesIgnoredBoot(c: Config, h: seq<Event>, i: nat)
    requires c.mode == IgnoreBoot && Clean(c, h) && i < |h|
    ensures !h[i].Frame?
  {
    CleanAt(c, h, i);
    IgnoredIsOff(c.mode, h[..i]);
  }

  /** The frame that has filled block k of the image: its sequence number is k. */
  lemma {:induction false} BlockWasSent(c: Config, h: seq<Event>, k: nat) returns (i: nat)
    requires Clean(c, h) && k < |Blocks(c.chip, h)|
    ensures i < |h| && IsData(h[i]) && Block(h[i]) == Blocks(c.chip, h)[k] && Field(Payload(h[i]), 1) == k
    ensures |Block(h[i])| == BLOCK && ChecksumField(h[i]) == Checksum(Block(h[i]))
    ensures forall j :: i <= j < |h| ==> !IsBegin(c.chip, h[j])
    decreases |h|
  {
    hide IsBegin;
    hide IsData;
    hide GoodEnd;
    var last := |h| - 1;
    var before := h[..last];
    var blocks := Blocks(c.chip, before);
    if IsData(h[last]) && k == |blocks| {
      i := last;
      DataIsNoBegin(c.chip, h[last]);
    } else {
      i := BlockWasSent(c, before, k);
      assert forall j :: 0 <= j < last ==> before[j] == h[j];
    }
  }

  lemma DataIsNoBegin(chip: Chip, e: Event)
    requires IsData(e)
    ensures !IsBegin(chip, e) && IsOp(e, OP_FLASH_DATA)
  {
  }

  /**
   What is written at the end of a run without faults: the declared number of bytes, and byte p of it
   is byte p mod 1024 of the block with sequence number p / 1024, sent since the last begin frame.
   */
  lemma WrittenByteWasSent(c: Config, h: seq<Event>, p: nat) returns (i: nat)
    requires Clean(c, h) && GoodEnd(c, h) && p < Declared(c, h).size
    ensures i < |h| && IsData(h[i]) && Field(Payload(h[i]), 1) == p / BLOCK
    ensures |Block(h[i])| == BLOCK && Joined(Blocks(c.chip, h))[p] == Block(h[i])[p % BLOCK]
    ensures forall j :: i <= j < |h| ==> !IsBegin(c.chip, h[j])
  {
    var blocks := Blocks(c.chip, h);
    AllFull(c, h);
    JoinedAt(blocks, p);
    i := BlockWasSent(c, h, p / BLOCK);
  }

  /** What an end frame causes to be written: the declared part, and the rest is erased flash. */
  lemma OutputIsTheImage(c: Config, h: seq<Event>, i: nat)
    requires Clean(c, h) && i < |h| && IsOp(h[i], OP_FLASH_END) && c.writes
    ensures var size, blocks := Declared(c, h[..i]).size, Blocks(c.chip, h[..i]);
      var image := Joined(blocks);
      && size <= |image| && Output(c, h[..i + 1]) == Some(image[..size])
      && |blocks| == BlocksFor(size) && |image| == BLOCK * |blocks|
      && forall k :: size <= k < |image| ==> image[k] == 0xFF
  {
    CleanAt(c, h, i);
    assert h[..i + 1] == h[..i] + [h[i]];
    OutputMore(c, h[..i], h[i]);
  }

  lemma AllFull(c: Config, h: seq<Event>)
    requires Clean(c, h)
    ensures forall k :: 0 <= k < |Blocks(c.chip, h)| ==> |Blocks(c.chip, h)[k]| == BLOCK
  {
    forall k | 0 <= k < |Blocks(c.chip, h)|
      ensures |Blocks(c.chip, h)[k]| == BLOCK
    {
      var i := BlockWasSent(c, h, k);
    }
  }

  lemma {:induction false} JoinedAt(blocks: seq<seq<byte>>, p: nat)
    requires forall k :: 0 <= k < |blocks| ==> |blocks[k]| == BLOCK
    requires p < BLOCK * |blocks|
    ensures |Joined(blocks)| == BLOCK * |blocks| && p / BLOCK < |blocks|
    ensures Joined(blocks)[p] == blocks[p / BLOCK][p % BLOCK]
  {
    var before := blocks[..|blocks| - 1];
    if p < BLOCK * |before| {
      JoinedAt(before, p);
    } else if before != [] {
      JoinedAt(before, 0);
    }
  }

  // ----- answers -----

  datatype Answer = Answer(op: byte, value: nat, data: seq<byte>, error: bool)

  datatype Response = Answers(answers: seq<Answer>) | Silent | Crash

  /** What a chip answers to a command, whatever came before; the flags are those of an error. */
  function AnswerTo(c: Config, e: Event): Response
    requires e.Frame? && |e.bytes| >= 8
  {
    var op := e.bytes[1];
    var plain := Answer(op, 0, [], false);
    if op == 0x08 then Answers([plain, plain, plain, plain, plain, plain, plain, plain])
    else if op == 0x14 then
      Answers([match c.chip.security
               case Reject => Answer(op, 0, [], true)
               case Short => Answer(op, 0, Zeros(12), false)
               case Full(id) => Answer(op, 0, Zeros(12) + Bytes32(id) + Zeros(4), false)])
    else if op == 0x0A then Answers([Answer(op, c.chip.magic, [], false)])
    else if op == 0x0D || op == 0x0B then Answers([Answer(op, 0, [], !c.chip.spiCommands)])
    else if op == 0x02 then
      Answers([Answer(op, 0, [], |Payload(e)| != c.chip.beginLength || (IsBegin(c.chip, e) && c.mode == RefuseBegin))])
    else if op == 0x03 then if |Payload(e)| < 16 then Silent else Answers([plain])
    else if op == 0x0F || op == 0x04 then Answers([plain])
    else if op == 0x13 then Answers([Answer(op, 0, Digest(), false)])
    else Silent
  }

  /** The digest that is answered for every region: twice the sixteen hexadecimal digits. */
  function Digest(): (r: seq<byte>)
    ensures |r| == 32 && forall i :: 0 <= i < 32 ==> r[i] as int == if i % 16 < 10 then 0x30 + i % 16 else 0x57 + i % 16
  {
    seq(32, i requires 0 <= i < 32 => if i % 16 < 10 then 0x30 + i % 16 else 0x57 + i % 16)
  }

  function Bytes32(v: nat): seq<byte> {
    [v % 256, v / 256 % 256, v / 65536 % 256, v / 16777216 % 256]
  }

  function AnswerBody(chip: Chip, a: Answer): seq<byte>
    requires chip.status >= 2
  {
    a.data + [if a.error then 1 else 0, if a.error then 5 else 0] + Zeros(chip.status - 2)
  }

  function AnswerPacket(chip: Chip, a: Answer): seq<byte>
    requires chip.status >= 2
  {
    var body := AnswerBody(chip, a);
    [1, a.op, |body| % 256, |body| / 256 % 256] + Bytes32(a.value) + body
  }

  function Reply(chip: Chip, a: Answer): seq<byte>
    requires chip.status >= 2
  {
    Slip.Frame(AnswerPacket(chip, a))
  }

  /**
   How a command is answered: which ones are answered at all, how often, with what value and how much
   data, and which of them report an error.
   */
  lemma AnswersAre(c: Config, e: Event)
    requires e.Frame? && |e.bytes| >= 8
    ensures var op, size, r := e.bytes[1], |e.bytes| - 8, AnswerTo(c, e);
      && !r.Crash?
      && (r.Answers? <==>
            op in {0x02, 0x03, 0x04, 0x08, 0x0A, 0x0B, 0x0D, 0x0F, 0x13, 0x14} && (op == 0x03 ==> size >= 16))
      && (r.Answers? ==>
            && |r.answers| == (if op == 0x08 then 8 else 1)
            && forall i :: 0 <= i < |r.answers| ==>
                 var a := r.answers[i];
                 && a.op == op && a.value == (if op == 0x0A then c.chip.magic else 0)
                 && |a.data| == (if op == 0x13 then 32
                                 else if op != 0x14 || c.chip.security.Reject? then 0
                                 else if c.chip.security.Short? then 12 else 20)
                 && (a.error <==> match op
                       case 0x02 => size != c.chip.beginLength || (IsBegin(c.chip, e) && c.mode == RefuseBegin)
                       case 0x0B => !c.chip.spiCommands
                       case 0x0D => !c.chip.spiCommands
                       case 0x14 => c.chip.security.Reject?
                       case _ => false))
  {
    hide IsBegin;
  }

  /**
   A reply arrives as one frame, whose header has the opcode, the length of the body and the value; the
   body is the data and behind it the status bytes, which are 1 and 5 for an error.
   */
  lemma ReplyArrives(chip: Chip, a: Answer)
    requires chip.status >= 2 && a.value < 0x1_0000_0000 && |AnswerBody(chip, a)| < 0x1_0000
    ensures Slip.Delivered(Slip.IDLE, Reply(chip, a)) == [AnswerPacket(chip, a)]
    ensures var p := AnswerPacket(chip, a);
      && |p| >= 8 && p[0] == 1 && p[1] == a.op && Little(p, 2, 2) == |p[8..]| && Little(p, 4, 4) == a.value
      && |p| == 8 + |a.data| + chip.status && p[8..8 + |a.data|] == a.data
      && p[8 + |a.data|] == (if a.error then 1 else 0) && p[9 + |a.data|] == (if a.error then 5 else 0)
      && forall i :: 10 + |a.data| <= i < |p| ==> p[i] == 0
  {
    var p, body := AnswerPacket(chip, a), AnswerBody(chip, a);
    Slip.FrameIsDelivered(Slip.IDLE, p);
    assert p[8..] == body;
    LittleTwo(p, 2);
    LittleFour(p, 4);
    FourBytes(a.value);
  }

  lemma FourBytes(v: nat)
    requires v < 0x1_0000_0000
    ensures v == v % 256 + 256 * (v / 256 % 256) + 65536 * (v / 65536 % 256) + 16777216 * (v / 16777216 % 256)
  {
    var a, b, c := v / 256, v / 65536, v / 16777216;
    assert v == 256 * a + v % 256;
    assert a == 256 * b + a % 256;
    assert b == 256 * c + b % 256;
  }
}
