/**
 A whole download as a loader carries it out - control lines, commands byte by byte, blocks padded with
 erased flash - and the proof that the simulator finds no fault in it and writes the image.
 */
module RomSession {
  import opened Common
  import opened Bits
  import opened RomProtocol

  // ----- commands as they are sent -----

  /** A request: direction 0, the opcode, the length of the payload, the checksum, and the payload. */
  function Request(op: byte, checksum: nat, payload: seq<byte>): Event {
    Frame([0, op, |payload| % 256, |payload| / 256 % 256] + Bytes32(checksum) + payload)
  }

  lemma RequestIs(op: byte, checksum: nat, payload: seq<byte>)
    requires |payload| < 0x1_0000 && checksum < 0x1_0000_0000
    ensures var e := Request(op, checksum, payload);
      && e.Frame? && |e.bytes| == 8 + |payload| && e.bytes[0] == 0 && e.bytes[1] == op
      && Little(e.bytes, 2, 2) == |payload| && ChecksumField(e) == checksum && Payload(e) == payload
  {
    var e := Request(op, checksum, payload);
    assert e.bytes[8..] == payload;
    LittleTwo(e.bytes, 2);
    LittleFour(e.bytes, 4);
    FourBytes(checksum);
  }

  function Words(values: seq<nat>): (r: seq<byte>)
    ensures |r| == 4 * |values|
  {
    if values == [] then [] else Bytes32(values[0]) + Words(values[1..])
  }

  /** The fields of a payload are read as they are written. */
  lemma {:induction false} FieldIs(values: seq<nat>, rest: seq<byte>, k: nat)
    requires k < |values| && values[k] < 0x1_0000_0000
    ensures 4 * k + 4 <= |Words(values) + rest| && Field(Words(values) + rest, k) == values[k]
    decreases k
  {
    var payload := Words(values) + rest;
    if k == 0 {
      LittleFour(payload, 0);
      FourBytes(values[0]);
    } else {
      FieldIs(values[1..], rest, k - 1);
      var inner := Words(values[1..]) + rest;
      assert payload == Bytes32(values[0]) + inner;
      LittleFour(payload, 4 * k);
      LittleFour(inner, 4 * (k - 1));
    }
  }

  function SyncRequest(): Event {
    Request(0x08, 0, [0x07, 0x07, 0x12, 0x20] + seq(32, _ => 0x55))
  }

  function Attach(payload: seq<byte>): Event {
    Request(0x0D, 0, payload)
  }

  /** The second of the six words is the size of the flash. */
  function Params(id: nat, flash: nat, others: (nat, nat, nat, nat)): Event {
    Request(0x0B, 0, Words([id, flash, others.0, others.1, others.2, others.3]))
  }

  /** The begin frames of some chips have a fifth word, which asks for encryption. */
  function Begin(chip: Chip, size: nat, blocks: nat, offset: nat): Event {
    Request(0x02, 0, Words([size, blocks, 1024, offset] + if chip.beginLength == 20 then [0] else []))
  }

  function Data(k: nat, block: seq<byte>): Event {
    Request(0x03, Checksum(block), Words([1024, k, 0, 0]) + block)
  }

  function End(payload: seq<byte>): Event {
    Request(0x04, 0, payload)
  }

  // ----- blocks -----

  /** Block k of the image; behind the image there is erased flash. */
  function BlockOf(image: seq<byte>, k: nat): (r: seq<byte>)
    ensures |r| == 1024
    ensures forall i :: 0 <= i < 1024 ==> r[i] == if 1024 * k + i < |image| then image[1024 * k + i] else 0xFF
  {
    seq(1024, i requires 0 <= i < 1024 => if 1024 * k + i < |image| then image[1024 * k + i] else 0xFF)
  }

  function BlocksOf(image: seq<byte>, n: nat): (r: seq<seq<byte>>)
    ensures |r| == n && forall k :: 0 <= k < n ==> r[k] == BlockOf(image, k)
  {
    seq(n, k requires 0 <= k < n => BlockOf(image, k))
  }

  /** Joined, the blocks are the image and nothing but erased flash behind it. */
  lemma BlocksJoin(image: seq<byte>, n: nat)
    requires |image| <= 1024 * n
    ensures var joined := Joined(BlocksOf(image, n));
      && |joined| == 1024 * n && joined[..|image|] == image && Erased(joined, |image|)
  {
    var blocks := BlocksOf(image, n);
    var joined := Joined(blocks);
    if n > 0 {
      JoinedAt(blocks, 0);
    }
    forall p | 0 <= p < |joined|
      ensures joined[p] == if p < |image| then image[p] else 0xFF
    {
      JoinedAt(blocks, p);
      assert 1024 * (p / 1024) + p % 1024 == p;
    }
  }

  lemma BlocksSuffice(size: nat)
    ensures size <= 1024 * BlocksFor(size) && 1024 * BlocksFor(size) < size + 1024
  {
  }

  // ----- the conversation -----

  /** What a loader is free to choose. */
  datatype Plan = Plan(attach: seq<byte>, id: nat, flash: nat, others: (nat, nat, nat, nat),
                       offset: nat, end: seq<byte>)

  ghost predicate Sensible(plan: Plan) {
    && |plan.attach| < 0x1_0000 && |plan.end| < 0x1_0000
    && 0 < plan.flash < 0x1_0000_0000 && plan.offset < 0x1_0000_0000
  }

  /** Reset with the boot line held, then the loader is spoken to; one chip attaches its flash in its own way. */
  function Opening(c: Config, plan: Plan): seq<Event> {
    [Reset(true), Boot(true), Reset(false), SyncRequest()]
    + if c.chip.spiCommands then [Attach(plan.attach), Params(plan.id, plan.flash, plan.others)]
      else [Begin(c.chip, 0, 0, 0)]
  }

  /** The size announced: for an image that was named, the chip wants the doctored size. */
  function Announced(c: Config, plan: Plan, size: nat): int {
    if c.imageSize > 0 then EraseSize(c.chip, plan.offset, size) else size
  }

  function Transfer(image: seq<byte>, n: nat): seq<Event> {
    if n == 0 then [] else Transfer(image, n - 1) + [Data(n - 1, BlockOf(image, n - 1))]
  }

  function Session(c: Config, plan: Plan, image: seq<byte>): seq<Event>
    requires Announced(c, plan, |image|) >= 0
  {
    Opening(c, plan) + [Begin(c.chip, Announced(c, plan, |image|), BlocksFor(|image|), plan.offset)]
    + Transfer(image, BlocksFor(|image|)) + [End(plan.end)]
  }

  // ----- step by step -----

  /** The loader has been entered and no fault been made. */
  ghost predicate Open(c: Config, h: seq<Event>) {
    Clean(c, h) && InDownload(c.mode, h)
  }

  /** A request that is in order keeps it that way. */
  lemma Step(c: Config, h: seq<Event>, op: byte, checksum: nat, payload: seq<byte>)
    requires Open(c, h) && |payload| < 0x1_0000 && checksum < 0x1_0000_0000
    requires GoodOp(c, h, Request(op, checksum, payload))
    ensures Open(c, h + [Request(op, checksum, payload)])
  {
    hide GoodOp;
    hide Request;
    hide Attaches;
    hide SetsParams;
    hide IsBegin;
    hide IsData;
    RequestIs(op, checksum, payload);
    OneMore(c, h, Request(op, checksum, payload));
  }

  lemma Entered(c: Config)
    requires c.mode != IgnoreBoot
    ensures Open(c, [Reset(true), Boot(true), Reset(false)])
  {
    OneMore(c, [], Reset(true));
    OneMore(c, [Reset(true)], Boot(true));
    OneMore(c, [Reset(true), Boot(true)], Reset(false));
    assert [] + [Reset(true)] == [Reset(true)];
    assert [Reset(true)] + [Boot(true)] == [Reset(true), Boot(true)];
    assert [Reset(true), Boot(true)] + [Reset(false)] == [Reset(true), Boot(true), Reset(false)];
  }

  lemma Synced(c: Config, h: seq<Event>)
    requires Open(c, h)
    ensures Open(c, h + [SyncRequest()])
  {
    var payload := [0x07, 0x07, 0x12, 0x20] + seq(32, _ => 0x55);
    RequestIs(0x08, 0, payload);
    assert payload == SyncPayload();
    hide Request;
    hide Clean;
    hide InDownload;
    Step(c, h, 0x08, 0, payload);
  }

  lemma FlashAttached(c: Config, h: seq<Event>, plan: Plan)
    requires Open(c, h) && Sensible(plan) && c.chip.spiCommands
    ensures Open(c, h + [Attach(plan.attach)]) && Attached(c.chip, h + [Attach(plan.attach)])
  {
    RequestIs(0x0D, 0, plan.attach);
    hide Request;
    hide Clean;
    hide InDownload;
    Step(c, h, 0x0D, 0, plan.attach);
    hide Open;
    OneMore(c, h, Attach(plan.attach));
  }

  lemma FlashConfigured(c: Config, h: seq<Event>, plan: Plan)
    requires Open(c, h) && Sensible(plan) && c.chip.spiCommands && Attached(c.chip, h)
    ensures var e := Params(plan.id, plan.flash, plan.others); Open(c, h + [e]) && ParamsSet(c.chip, h + [e])
  {
    var values := [plan.id, plan.flash, plan.others.0, plan.others.1, plan.others.2, plan.others.3];
    RequestIs(0x0B, 0, Words(values));
    FieldIs(values, [], 1);
    assert Words(values) + [] == Words(values);
    hide Request;
    hide Words;
    hide Field;
    hide Clean;
    hide InDownload;
    Step(c, h, 0x0B, 0, Words(values));
    hide Open;
    OneMore(c, h, Params(plan.id, plan.flash, plan.others));
  }

  /** What a begin frame says. */
  lemma BeginIs(chip: Chip, size: nat, blocks: nat, offset: nat)
    requires chip.beginLength in {16, 20} && size < 0x1_0000_0000 && blocks < 0x1_0000_0000 && offset < 0x1_0000_0000
    ensures var e := Begin(chip, size, blocks, offset);
      && IsOp(e, 0x02) && |e.bytes| == 8 + |Payload(e)| && |Payload(e)| == chip.beginLength
      && Field(Payload(e), 0) == size && Field(Payload(e), 1) == blocks
      && Field(Payload(e), 2) == 1024 && Field(Payload(e), 3) == offset
      && (chip.beginLength == 20 ==> Field(Payload(e), 4) == 0)
  {
    var values := [size, blocks, 1024, offset] + if chip.beginLength == 20 then [0] else [];
    RequestIs(0x02, 0, Words(values));
    assert Words(values) + [] == Words(values);
    FieldIs(values, [], 0);
    FieldIs(values, [], 1);
    FieldIs(values, [], 2);
    FieldIs(values, [], 3);
    if chip.beginLength == 20 {
      FieldIs(values, [], 4);
    }
    hide Words;
    hide Field;
    hide Request;
  }

  lemma FlashAttachedOnly(c: Config, h: seq<Event>)
    requires Open(c, h) && c.chip.beginLength in {16, 20}
    ensures Open(c, h + [Begin(c.chip, 0, 0, 0)]) && ParamsSet(c.chip, h + [Begin(c.chip, 0, 0, 0)])
  {
    var e := Begin(c.chip, 0, 0, 0);
    var values := [0, 0, 1024, 0] + if c.chip.beginLength == 20 then [0] else [];
    BeginIs(c.chip, 0, 0, 0);
    RequestIs(0x02, 0, Words(values));
    hide Words;
    hide Field;
    hide Request;
    hide Clean;
    hide InDownload;
    assert IsAttachOnly(c.chip, e) && !IsBegin(c.chip, e);
    Step(c, h, 0x02, 0, Words(values));
    hide Open;
    OneMore(c, h, e);
  }

  /** After the opening the flash is attached and the chip waits for an image. */
  lemma Opened(c: Config, plan: Plan)
    requires c.mode != IgnoreBoot && c.chip.beginLength in {16, 20} && Sensible(plan)
    ensures Open(c, Opening(c, plan)) && ParamsSet(c.chip, Opening(c, plan))
  {
    hide Open;
    hide Sensible;
    hide SyncRequest;
    hide Attach;
    hide Params;
    hide Begin;
    hide Attached;
    hide ParamsSet;
    var lines := [Reset(true), Boot(true), Reset(false)];
    var synced := lines + [SyncRequest()];
    Entered(c);
    Synced(c, lines);
    if c.chip.spiCommands {
      var attached := synced + [Attach(plan.attach)];
      FlashAttached(c, synced, plan);
      FlashConfigured(c, attached, plan);
      assert Opening(c, plan) == attached + [Params(plan.id, plan.flash, plan.others)];
    } else {
      FlashAttachedOnly(c, synced);
      assert Opening(c, plan) == synced + [Begin(c.chip, 0, 0, 0)];
    }
  }

  /** The declared image is being received, and these are its blocks so far. */
  ghost predicate Receiving(c: Config, h: seq<Event>, image: seq<byte>, n: nat) {
    && Open(c, h) && Blocks(c.chip, h) == BlocksOf(image, n)
    && Declared(c, h) == Declaration(|image|, BlocksFor(|image|))
  }

  lemma Begun(c: Config, h: seq<Event>, plan: Plan, image: seq<byte>)
    requires Open(c, h) && ParamsSet(c.chip, h) && Sensible(plan) && c.chip.beginLength in {16, 20}
    requires 0 < |image| && c.imageSize in {0, |image|}
    requires 0 <= Announced(c, plan, |image|) < 0x1_0000_0000 && |image| < 0x1_0000_0000
    ensures Receiving(c, h + [Begin(c.chip, Announced(c, plan, |image|), BlocksFor(|image|), plan.offset)], image, 0)
  {
    var size, blocks := Announced(c, plan, |image|), BlocksFor(|image|);
    var values := [size, blocks, 1024, plan.offset] + if c.chip.beginLength == 20 then [0] else [];
    var e := Begin(c.chip, size, blocks, plan.offset);
    BlocksSuffice(|image|);
    BeginIs(c.chip, size, blocks, plan.offset);
    RequestIs(0x02, 0, Words(values));
    hide Words;
    hide Field;
    hide Request;
    hide Clean;
    hide InDownload;
    hide EraseSize;
    hide BlocksFor;
    assert IsBegin(c.chip, e) && DeclaredBy(c, e) == Declaration(|image|, blocks);
    assert GoodBegin(c, e);
    Step(c, h, 0x02, 0, Words(values));
    hide Open;
    hide GoodBegin;
    OneMore(c, h, e);
  }

  lemma ChecksumIsByte(block: seq<byte>)
    ensures Checksum(block) < 256
  {
    ChecksumFromIsByte(0xEF, block);
  }

  lemma {:induction false} ChecksumFromIsByte(seed: nat, block: seq<byte>)
    requires seed < 256
    ensures ChecksumFrom(seed, block) < 256
    decreases |block|
  {
    if block != [] {
      ByteBound(0);
      XorBelow(seed, block[0], 8);
      ChecksumFromIsByte(Xor(seed, block[0]), block[1..]);
    }
  }

  lemma {:induction false} XorBelow(a: nat, b: nat, n: nat)
    requires a < Pow2(n) && b < Pow2(n)
    ensures Xor(a, b) < Pow2(n)
  {
    if a > 0 && b > 0 {
      XorBelow(a / 2, b / 2, n - 1);
    }
  }

  /** What a data frame says. */
  lemma DataIs(k: nat, block: seq<byte>)
    requires k < 0x1_0000_0000 && |block| == 1024
    ensures var e := Data(k, block);
      && IsData(e) && Block(e) == block && ChecksumField(e) == Checksum(block)
      && Field(Payload(e), 0) == 1024 && Field(Payload(e), 1) == k
  {
    var values := [1024, k, 0, 0];
    ChecksumIsByte(block);
    RequestIs(0x03, Checksum(block), Words(values) + block);
    FieldIs(values, block, 0);
    FieldIs(values, block, 1);
    assert (Words(values) + block)[16..] == block;
    hide Words;
    hide Field;
    hide Request;
    hide Checksum;
  }

  lemma OneBlock(c: Config, h: seq<Event>, image: seq<byte>, k: nat)
    requires Receiving(c, h, image, k) && k < 0x1_0000_0000
    ensures Receiving(c, h + [Data(k, BlockOf(image, k))], image, k + 1)
  {
    var block := BlockOf(image, k);
    var e := Data(k, block);
    DataIs(k, block);
    ChecksumIsByte(block);
    hide Words;
    hide Field;
    hide Request;
    hide Checksum;
    hide Clean;
    hide InDownload;
    hide BlockOf;
    DataIsNoBegin(c.chip, e);
    Step(c, h, 0x03, Checksum(block), Words([1024, k, 0, 0]) + block);
    hide Open;
    hide Data;
    OneMore(c, h, e);
    assert BlocksOf(image, k + 1) == BlocksOf(image, k) + [block];
  }

  lemma {:induction false} AllBlocks(c: Config, h: seq<Event>, image: seq<byte>, n: nat)
    requires Receiving(c, h, image, 0) && n < 0x1_0000_0000
    ensures Receiving(c, h + Transfer(image, n), image, n)
  {
    hide Receiving;
    hide Data;
    if n == 0 {
      assert h + Transfer(image, 0) == h;
    } else {
      AllBlocks(c, h, image, n - 1);
      OneBlock(c, h + Transfer(image, n - 1), image, n - 1);
      assert h + Transfer(image, n) == h + Transfer(image, n - 1) + [Data(n - 1, BlockOf(image, n - 1))];
    }
  }

  lemma Ended(c: Config, h: seq<Event>, image: seq<byte>, payload: seq<byte>)
    requires Receiving(c, h, image, BlocksFor(|image|)) && |payload| < 0x1_0000
    ensures Open(c, h + [End(payload)])
    ensures c.writes ==> Output(c, h + [End(payload)]) == Some(image)
  {
    BlocksSuffice(|image|);
    BlocksJoin(image, BlocksFor(|image|));
    RequestIs(0x04, 0, payload);
    hide Request;
    hide Clean;
    hide InDownload;
    hide Joined;
    hide BlocksFor;
    assert GoodEnd(c, h);
    Step(c, h, 0x04, 0, payload);
    OutputMore(c, h, End(payload));
  }

  /**
   A whole download: whatever the image, the chip and the free choices, the simulator finds no fault, and
   what it writes is exactly the image.
   */
  lemma SessionIsClean(c: Config, plan: Plan, image: seq<byte>)
    requires c.mode != IgnoreBoot && c.chip.beginLength in {16, 20} && Sensible(plan)
    requires 0 < |image| <= 0xFFFF_F000 && c.imageSize in {0, |image|}
    ensures Announced(c, plan, |image|) >= 0
    ensures Clean(c, Session(c, plan, image))
    ensures c.writes ==> Output(c, Session(c, plan, image)) == Some(image)
  {
    AnnouncedFits(c, plan, |image|);
    var begin := Begin(c.chip, Announced(c, plan, |image|), BlocksFor(|image|), plan.offset);
    var h := Opening(c, plan);
    var n := BlocksFor(|image|);
    BlocksSuffice(|image|);
    hide Opening;
    hide Begin;
    hide Announced;
    hide BlocksFor;
    hide Transfer;
    hide End;
    hide Receiving;
    hide Output;
    hide ParamsSet;
    Opened(c, plan);
    Begun(c, h, plan, image);
    AllBlocks(c, h + [begin], image, n);
    Ended(c, h + [begin] + Transfer(image, n), image, plan.end);
  }

  lemma AnnouncedFits(c: Config, plan: Plan, size: nat)
    requires size <= 0xFFFF_F000
    ensures 0 <= Announced(c, plan, size) < 0x1_0000_0000
  {
    if c.imageSize > 0 && c.chip.eraseBug {
      EraseSizeBounds(c.chip, plan.offset, size);
    }
  }
}
