/**
 The simulator itself: its fields are updated command by command.  The history of events is kept
 beside them, and while no fault has been recorded the fields are what the history says.
 */
module FakeRom {
  import opened Common
  import opened Bits
  import opened RomProtocol

  /** The answer to a request for the digest of a region. */
  const KNOWN_MD5: seq<byte> := Digest()

  function SecurityAnswer(s: Security): Answer {
    match s
    case Reject => Answer(OP_SECURITY, 0, [], true)
    case Short => Answer(OP_SECURITY, 0, Zeros(12), false)
    case Full(id) => Answer(OP_SECURITY, 0, Zeros(12) + Bytes32(id) + Zeros(4), false)
  }

  /** There is an answer, and every answer carries the opcode of the command. */
  predicate AnswersTo(r: Response, op: byte) {
    r.Answers? && r.answers != [] && forall i :: 0 <= i < |r.answers| ==> r.answers[i].op == op
  }

  /** The part of the state that the commands have built up is what the history says. */
  ghost predicate Built(c: Config, h: seq<Event>, attached: bool, paramsSet: bool, image: seq<byte>, nextSeq: nat,
                        declared: Declaration) {
    && (attached <==> Attached(c.chip, h)) && (paramsSet <==> ParamsSet(c.chip, h))
    && image == Joined(Blocks(c.chip, h)) && nextSeq == |Blocks(c.chip, h)| && declared == Declared(c, h)
  }

  /** A command that only asks, or that ends the session, builds nothing. */
  lemma BuiltSame(c: Config, h: seq<Event>, e: Event, attached: bool, paramsSet: bool, image: seq<byte>, nextSeq: nat,
                  declared: Declaration)
    requires Built(c, h, attached, paramsSet, image, nextSeq, declared)
    requires !(e.Frame? && |e.bytes| >= 8
      && e.bytes[1] in {OP_FLASH_BEGIN, OP_FLASH_DATA, OP_SPI_ATTACH, OP_SPI_PARAMS})
    ensures Built(c, h + [e], attached, paramsSet, image, nextSeq, declared)
  {
    hide GoodStep;
    OneMore(c, h, e);
  }

  lemma BuiltAttached(c: Config, h: seq<Event>, e: Event, attached: bool, paramsSet: bool, image: seq<byte>,
                      nextSeq: nat, declared: Declaration)
    requires Built(c, h, attached, paramsSet, image, nextSeq, declared) && c.chip.spiCommands
    requires IsOp(e, OP_SPI_ATTACH) || IsOp(e, OP_SPI_PARAMS)
    ensures Built(c, h + [e], attached || IsOp(e, OP_SPI_ATTACH), paramsSet || IsOp(e, OP_SPI_PARAMS),
                  image, nextSeq, declared)
  {
    hide GoodStep;
    OneMore(c, h, e);
  }

  lemma BuiltBegin(c: Config, h: seq<Event>, e: Event, attached: bool, paramsSet: bool, image: seq<byte>, nextSeq: nat,
                   declared: Declaration)
    requires Built(c, h, attached, paramsSet, image, nextSeq, declared) && IsOp(e, OP_FLASH_BEGIN)
    ensures IsBegin(c.chip, e) ==> Built(c, h + [e], attached, paramsSet, [], 0, DeclaredBy(c, e))
    ensures IsAttachOnly(c.chip, e) ==> Built(c, h + [e], true, true, image, nextSeq, declared)
  {
    hide GoodStep;
    OneMore(c, h, e);
  }

  lemma BuiltData(c: Config, h: seq<Event>, e: Event, attached: bool, paramsSet: bool, image: seq<byte>, nextSeq: nat,
                  declared: Declaration)
    requires Built(c, h, attached, paramsSet, image, nextSeq, declared) && IsData(e)
    ensures Built(c, h + [e], attached, paramsSet, image + Block(e), nextSeq + 1, declared)
  {
    hide GoodStep;
    OneMore(c, h, e);
    JoinedMore(Blocks(c.chip, h), Block(e));
  }

  /** The number of blocks declared is that of the declared size, from the first begin frame on. */
  lemma {:induction false} DeclaredFits(c: Config, h: seq<Event>)
    requires Clean(c, h)
    ensures Declared(c, h).blocks == BlocksFor(Declared(c, h).size)
  {
    hide GoodData;
    hide GoodEnd;
    if h != [] {
      DeclaredFits(c, h[..|h| - 1]);
    }
  }

  lemma EndIsGood(c: Config, h: seq<Event>, attached: bool, paramsSet: bool, image: seq<byte>, nextSeq: nat,
                  declared: Declaration)
    requires Clean(c, h) && Built(c, h, attached, paramsSet, image, nextSeq, declared)
    ensures GoodEnd(c, h) <==> nextSeq == declared.blocks && Erased(image, declared.size)
  {
    hide Clean;
    DeclaredFits(c, h);
    CleanBlocks(c, h);
  }

  lemma FrameKeepsLines(c: Config, h: seq<Event>, e: Event)
    requires e.Frame?
    ensures ResetLine(h + [e]) <==> ResetLine(h)
    ensures BootLine(c.mode, h + [e]) <==> BootLine(c.mode, h)
    ensures InDownload(c.mode, h + [e]) <==> InDownload(c.mode, h)
    ensures Clean(c, h + [e]) <==> Clean(c, h) && GoodStep(c, h, e)
  {
    hide GoodStep;
    OneMore(c, h, e);
    BootOff(c.mode, h);
  }

  lemma {:induction false} BootOff(mode: Mode, h: seq<Event>)
    ensures mode == IgnoreBoot ==> !BootLine(mode, h)
  {
  }

  class Rom {
    const config: Config
    var faults: seq<string>
    var inReset: bool
    var bootRequested: bool
    var inDownload: bool
    var resetCount: nat
    var baud: nat
    var attached: bool
    var paramsSet: bool
    var image: seq<byte>
    var imageAt: nat
    var imageSize: nat
    var expectBlocks: nat
    var nextSeq: nat
    var finished: bool
    var written: Option<seq<byte>>
    ghost var history: seq<Event>

    ghost predicate BuiltUp(h: seq<Event>)
      reads this
    {
      Built(config, h, attached, paramsSet, image, nextSeq, Declaration(imageSize, expectBlocks))
    }

    /** What a command relies on; faults of the frame around it may have been recorded already. */
    ghost predicate InStep()
      reads this
    {
      && config.chip.beginLength in {16, 20} && config.chip.status in {2, 4}
      && (faults == [] ==> Clean(config, history) && BuiltUp(history))
    }

    /** The chips that can be impersonated have one of two begin frames and one of two statuses. */
    ghost predicate Valid()
      reads this
    {
      && config.chip.beginLength in {16, 20} && config.chip.status in {2, 4}
      && (inReset <==> ResetLine(history)) && (bootRequested <==> BootLine(config.mode, history))
      && (inDownload <==> InDownload(config.mode, history))
      && (faults == [] <==> Clean(config, history))
      && (faults == [] ==> BuiltUp(history) && written == Output(config, history))
    }

    constructor (config: Config)
      requires config.chip.beginLength in {16, 20} && config.chip.status in {2, 4}
      ensures Valid() && this.config == config && faults == [] && history == [] && written == None
    {
      this.config := config;
      faults, inReset, bootRequested, inDownload := [], false, false, false;
      resetCount, baud, attached, paramsSet := 0, DEFAULT_BAUD, false, false;
      image, imageAt, imageSize, expectBlocks, nextSeq := [], 0, 0, 0, 0;
      finished, written, history := false, None, [];
    }

    method Fault(why: string)
      modifies `faults
      ensures faults == old(faults) + [why]
    {
      faults := faults + [why];
    }

    method Check(ok: bool, why: string)
      modifies `faults
      ensures faults == if ok then old(faults) else old(faults) + [why]
    {
      if !ok {
        Fault(why);
      }
    }

    /** What the fields say about the history while there is no fault. */
    lemma BuiltNow(h: seq<Event>, a: bool, p: bool, n: nat)
      requires BuiltUp(h) && a == attached && p == paramsSet && n == nextSeq
      ensures (a <==> Attached(config.chip, h)) && (p <==> ParamsSet(config.chip, h)) && n == |Blocks(config.chip, h)|
    {
    }

    lemma BuiltDeclared(h: seq<Event>, d: Declaration)
      requires BuiltUp(h) && d == Declaration(imageSize, expectBlocks)
      ensures d == Declared(config, h) && image == Joined(Blocks(config.chip, h))
    {
    }

    // ----- control lines -----

    /** The boot line is sampled when the reset is released, and only then. */
    method SetReset(asserted: bool)
      requires Valid()
      modifies `inReset, `inDownload, `resetCount, `baud, `history
      ensures Valid() && history == old(history) + [Reset(asserted)]
      ensures var released := !asserted && old(inReset);
        && resetCount == old(resetCount) + (if released then 1 else 0)
          && baud == if released then 115200 else old(baud)
    {
      OneMore(config, history, Reset(asserted));
      OutputMore(config, history, Reset(asserted));
      if !asserted && inReset {
        inDownload := bootRequested;
        resetCount := resetCount + 1;
        baud := DEFAULT_BAUD;
      }
      inReset := asserted;
      history := history + [Reset(asserted)];
    }

    method SetBoot(asserted: bool)
      requires Valid()
      modifies `bootRequested, `history
      ensures Valid() && history == old(history) + [Boot(asserted)]
    {
      OneMore(config, history, Boot(asserted));
      OutputMore(config, history, Boot(asserted));
      bootRequested := asserted && config.mode != IgnoreBoot;
      history := history + [Boot(asserted)];
    }

    method SetBaud(rate: nat)
      requires Valid()
      modifies `baud, `history
      ensures Valid() && history == old(history) + [Baud(rate)] && baud == rate
    {
      OneMore(config, history, Baud(rate));
      OutputMore(config, history, Baud(rate));
      baud := rate;
      history := history + [Baud(rate)];
    }

    // ----- commands -----

    method Sync(payload: seq<byte>) returns (r: Response)
      modifies `faults
      ensures faults == [] <==> old(faults) == [] && payload == SyncPayload()
      ensures r == Answers(seq(8, _ => Answer(OP_SYNC, 0, [], false)))
    {
      Check(payload == SyncPayload(), "SYNC payload is not the fixed pattern");
      return Answers(seq(8, _ => Answer(OP_SYNC, 0, [], false)));
    }

    method ReadReg(payload: seq<byte>) returns (r: Response)
      modifies `faults
      ensures |payload| != 4 <==> r.Crash?
      ensures |payload| == 4 ==> r == Answers([Answer(OP_READ_REG, config.chip.magic, [], false)])
      ensures faults == [] ==> old(faults) == []
      ensures |payload| == 4 ==> (faults == [] <==> old(faults) == [] && Field(payload, 0) == MAGIC_AT)
    {
      if |payload| != 4 {
        return Crash;
      }
      Check(Field(payload, 0) == MAGIC_AT, "READ_REG of another register than the chip magic");
      return Answers([Answer(OP_READ_REG, config.chip.magic, [], false)]);
    }

    method SpiAttach() returns (r: Response)
      modifies `faults, `attached
      ensures faults == [] <==> old(faults) == [] && config.chip.spiCommands
      ensures attached == (old(attached) || config.chip.spiCommands)
      ensures r == Answers([Answer(OP_SPI_ATTACH, 0, [], !config.chip.spiCommands)])
    {
      if !config.chip.spiCommands {
        Fault("SPI_ATTACH sent to a chip without such a command");
        return Answers([Answer(OP_SPI_ATTACH, 0, [], true)]);
      }
      attached := true;
      return Answers([Answer(OP_SPI_ATTACH, 0, [], false)]);
    }

    method SpiParams(payload: seq<byte>) returns (r: Response)
      modifies `faults, `paramsSet
      ensures faults == [] ==> old(faults) == []
      ensures r.Crash? <==> config.chip.spiCommands && |payload| != 24
      ensures paramsSet == (old(paramsSet) || (config.chip.spiCommands && |payload| == 24))
      ensures !r.Crash? ==> r == Answers([Answer(OP_SPI_PARAMS, 0, [], !config.chip.spiCommands)])
      ensures !r.Crash? ==>
        (faults == [] <==>
          old(faults) == [] && config.chip.spiCommands && attached && |payload| == 24 && Field(payload, 1) != 0)
    {
      if !config.chip.spiCommands {
        Fault("SPI_SET_PARAMS sent to a chip without such a command");
        return Answers([Answer(OP_SPI_PARAMS, 0, [], true)]);
      }
      Check(attached, "SPI_SET_PARAMS before SPI_ATTACH");
      if |payload| != 24 {
        return Crash;
      }
      Check(Field(payload, 1) != 0, "SPI_SET_PARAMS with a zero flash size");
      paramsSet := true;
      return Answers([Answer(OP_SPI_PARAMS, 0, [], false)]);
    }

    method ChangeBaud(payload: seq<byte>) returns (r: Response)
      modifies `faults
      ensures |payload| != 8 <==> r.Crash?
      ensures |payload| == 8 ==> r == Answers([Answer(OP_CHANGE_BAUD, 0, [], false)])
      ensures faults == [] ==> old(faults) == []
      ensures |payload| == 8 ==> (faults == [] <==> old(faults) == [] && Field(payload, 1) == 0)
    {
      if |payload| != 8 {
        return Crash;
      }
      Check(Field(payload, 1) == 0, "CHANGE_BAUD with an old rate");
      return Answers([Answer(OP_CHANGE_BAUD, 0, [], false)]);
    }

    method CheckBegin(e: Event)
      requires IsBegin(config.chip, e) && config.chip.beginLength in {16, 20}
      modifies `faults
      ensures faults == [] <==> old(faults) == [] && paramsSet && GoodBegin(config, e)
    {
      hide Field;
      hide BlocksFor;
      hide EraseSize;
      var payload, d := Payload(e), DeclaredBy(config, e);
      Check(paramsSet, "FLASH_BEGIN before the flash was attached");
      Check(Field(payload, 2) == BLOCK, "FLASH_BEGIN with another block size");
      if config.imageSize > 0 {
        var erase := EraseSize(config.chip, Field(payload, 3), config.imageSize);
        Check(Field(payload, 0) == erase, "FLASH_BEGIN with another erase size");
      }
      Check(d.blocks == BlocksFor(d.size), "FLASH_BEGIN with another number of blocks");
      if |payload| == 20 {
        Check(Field(payload, 4) == 0, "FLASH_BEGIN asked for encryption");
      }
    }

    method FlashBegin(e: Event) returns (r: Response)
      requires IsOp(e, OP_FLASH_BEGIN) && config.chip.beginLength in {16, 20}
      modifies `faults, `attached, `paramsSet, `image, `imageAt, `imageSize, `expectBlocks, `nextSeq
      ensures faults == [] <==>
        && old(faults) == [] && |Payload(e)| == config.chip.beginLength
        && (IsBegin(config.chip, e) ==> old(paramsSet) && GoodBegin(config, e))
      ensures attached == (old(attached) || IsAttachOnly(config.chip, e))
      ensures paramsSet == (old(paramsSet) || IsAttachOnly(config.chip, e))
      ensures IsBegin(config.chip, e) ==>
        image == [] && nextSeq == 0 && Declaration(imageSize, expectBlocks) == DeclaredBy(config, e)
      ensures !IsBegin(config.chip, e) ==>
        image == old(image) && nextSeq == old(nextSeq) && imageSize == old(imageSize)
          && expectBlocks == old(expectBlocks)
      ensures r == Answers([Answer(OP_FLASH_BEGIN, 0, [],
        |Payload(e)| != config.chip.beginLength || (IsBegin(config.chip, e) && config.mode == RefuseBegin))])
    {
      hide Field;
      hide GoodBegin;
      var payload := Payload(e);
      if |payload| != config.chip.beginLength {
        Fault("FLASH_BEGIN payload of another length");
        return Answers([Answer(OP_FLASH_BEGIN, 0, [], true)]);
      }
      var size, blocks := Field(payload, 0), Field(payload, 1);
      if size == 0 && blocks == 0 {
        attached := true;
        paramsSet := true;
        return Answers([Answer(OP_FLASH_BEGIN, 0, [], false)]);
      }
      assert IsBegin(config.chip, e) && !IsAttachOnly(config.chip, e);
      CheckBegin(e);
      var d := DeclaredBy(config, e);
      image, imageAt, imageSize, expectBlocks, nextSeq := [], Field(payload, 3), d.size, d.blocks, 0;
      return Answers([Answer(OP_FLASH_BEGIN, 0, [], config.mode == RefuseBegin)]);
    }

    method ComputeChecksum(block: seq<byte>) returns (sum: nat)
      ensures sum == Checksum(block)
    {
      sum := 0xEF;
      for i := 0 to |block|
        invariant ChecksumFrom(sum, block[i..]) == Checksum(block)
      {
        assert block[i..][0] == block[i] && block[i..][1..] == block[i + 1..];
        sum := Xor(sum, block[i]);
      }
    }

    method FlashData(e: Event) returns (r: Response)
      requires IsOp(e, OP_FLASH_DATA)
      modifies `faults, `image, `nextSeq
      ensures faults == [] <==>
        && old(faults) == [] && IsData(e)
        && Field(Payload(e), 0) == BLOCK == |Block(e)| && Field(Payload(e), 1) == old(nextSeq)
        && ChecksumField(e) == Checksum(Block(e))
      ensures IsData(e) ==> image == old(image) + Block(e) && nextSeq == old(nextSeq) + 1
      ensures r == if IsData(e) then Answers([Answer(OP_FLASH_DATA, 0, [], false)]) else Silent
    {
      var payload := Payload(e);
      if |payload| < 16 {
        Fault("FLASH_DATA header is short");
        return Silent;
      }
      var block := payload[16..];
      Check(Field(payload, 0) == BLOCK && |block| == BLOCK, "FLASH_DATA of another length");
      Check(Field(payload, 1) == nextSeq, "FLASH_DATA out of sequence");
      var computed := ComputeChecksum(block);
      Check(computed == ChecksumField(e), "FLASH_DATA with another checksum");
      image := image + block;
      nextSeq := nextSeq + 1;
      return Answers([Answer(OP_FLASH_DATA, 0, [], false)]);
    }

    method TailIsErased() returns (ok: bool)
      ensures ok <==> Erased(image, imageSize)
    {
      var from := if imageSize <= |image| then imageSize else |image|;
      for k := from to |image|
        invariant forall j :: imageSize <= j < k ==> image[j] == 0xFF
      {
        if image[k] != 0xFF {
          return false;
        }
      }
      return true;
    }

    method FlashEnd() returns (r: Response)
      modifies `faults, `finished, `written
      ensures finished
      ensures faults == [] <==> old(faults) == [] && nextSeq == expectBlocks && Erased(image, imageSize)
      ensures written == if config.writes then Some(FirstBytes(image, imageSize)) else old(written)
      ensures r == Answers([Answer(OP_FLASH_END, 0, [], false)])
    {
      hide Erased;
      finished := true;
      Check(nextSeq == expectBlocks, "FLASH_END after another number of blocks");
      var ok := TailIsErased();
      Check(ok, "the final block is not padded with 0xFF");
      if config.writes {
        written := Some(FirstBytes(image, imageSize));
      }
      return Answers([Answer(OP_FLASH_END, 0, [], false)]);
    }

    method FlashMd5(payload: seq<byte>) returns (r: Response)
      modifies `faults
      ensures |payload| != 16 <==> r.Crash?
      ensures |payload| == 16 ==> r == Answers([Answer(OP_FLASH_MD5, 0, KNOWN_MD5, false)])
      ensures faults == [] ==> old(faults) == []
      ensures |payload| == 16 ==> (faults == [] <==> old(faults) == [] && Field(payload, 1) != 0)
    {
      if |payload| != 16 {
        return Crash;
      }
      Check(Field(payload, 1) != 0, "FLASH_MD5 over a zero-length region");
      return Answers([Answer(OP_FLASH_MD5, 0, KNOWN_MD5, false)]);
    }

    /** The commands that leave the flash alone, and unknown ones. */
    method Ask(e: Event) returns (r: Response)
      requires e.Frame? && |e.bytes| >= 8
      requires e.bytes[1] !in {OP_FLASH_BEGIN, OP_FLASH_DATA, OP_FLASH_END, OP_SPI_ATTACH, OP_SPI_PARAMS}
      modifies `faults
      ensures faults == [] ==> old(faults) == []
      ensures r.Crash? <==> Crashes(config, e)
      ensures !r.Crash? ==> (faults == [] <==> old(faults) == [] && GoodRequest(e))
      ensures faults == [] && !r.Crash? ==> AnswersTo(r, e.bytes[1])
      ensures !r.Crash? ==> r == AnswerTo(config, e)
    {
      hide Field;
      hide SyncPayload;
      var op, payload := e.bytes[1], Payload(e);
      if op == OP_SYNC {
        r := Sync(payload);
      } else if op == OP_SECURITY {
        r := Answers([SecurityAnswer(config.chip.security)]);
      } else if op == OP_READ_REG {
        r := ReadReg(payload);
      } else if op == OP_CHANGE_BAUD {
        r := ChangeBaud(payload);
      } else if op == OP_FLASH_MD5 {
        r := FlashMd5(payload);
      } else {
        Fault("unknown opcode");
        r := Silent;
      }
    }

    /** The command dispatcher. */
    method Dispatch(e: Event) returns (r: Response)
      requires InStep() && e.Frame? && |e.bytes| >= 8
      modifies `faults, `attached, `paramsSet, `image, `imageAt, `imageSize,
          `expectBlocks, `nextSeq, `finished, `written
      ensures faults == [] ==> old(faults) == []
      ensures r.Crash? <==> Crashes(config, e)
      ensures !r.Crash? ==> (faults == [] <==> old(faults) == [] && GoodOp(config, history, e))
      ensures faults == [] && !r.Crash? ==>
        BuiltUp(history + [e]) && AnswersTo(r, e.bytes[1])
      ensures !r.Crash? ==> r == AnswerTo(config, e)
      ensures faults == [] && !r.Crash? ==> written == if IsOp(e, OP_FLASH_END) && config.writes
        then Some(FirstBytes(Joined(Blocks(config.chip, history)), Declared(config, history).size)) else old(written)
    {
      hide FirstBytes;
      hide Output;
      hide Clean;
      hide Built;
      hide GoodBegin;
      hide GoodEnd;
      hide DeclaredBy;
      hide ResetLine;
      hide BootLine;
      hide InDownload;
      var op, payload := e.bytes[1], Payload(e);
      ghost var h := history;
      GoodOpIs(config, h, e);
      hide GoodOp;
      hide GoodRequest;
      hide Crashes;
      hide Erased;
      ghost var declared := Declaration(imageSize, expectBlocks);
      if faults == [] {
        BuiltNow(h, attached, paramsSet, nextSeq);
        EndIsGood(config, h, attached, paramsSet, image, nextSeq, declared);
        if op !in {OP_FLASH_BEGIN, OP_FLASH_DATA, OP_SPI_ATTACH, OP_SPI_PARAMS} {
          BuiltSame(config, h, e, attached, paramsSet, image, nextSeq, declared);
        } else if op == OP_FLASH_BEGIN {
          BuiltBegin(config, h, e, attached, paramsSet, image, nextSeq, declared);
        } else if IsData(e) {
          BuiltData(config, h, e, attached, paramsSet, image, nextSeq, declared);
        } else if op != OP_FLASH_DATA && config.chip.spiCommands {
          BuiltAttached(config, h, e, attached, paramsSet, image, nextSeq, declared);
        }
      }
      if op == OP_SPI_ATTACH {
        r := SpiAttach();
      } else if op == OP_SPI_PARAMS {
        r := SpiParams(payload);
      } else if op == OP_FLASH_BEGIN {
        r := FlashBegin(e);
      } else if op == OP_FLASH_DATA {
        r := FlashData(e);
      } else if op == OP_FLASH_END {
        r := FlashEnd();
        if faults == [] {
          BuiltDeclared(h, declared);
        }
      } else {
        r := Ask(e);
      }
    }

    /** One frame.  An answered frame in a run without faults is a good one. */
    method Handle(frame: seq<byte>) returns (r: Response)
      requires Valid()
      modifies this
      ensures r.Crash? <==> |frame| >= 8 && inDownload && Crashes(config, Event.Frame(frame))
      ensures !r.Crash? ==> Valid() && history == old(history) + [Event.Frame(frame)]
      ensures faults == [] ==> old(faults) == []
      ensures faults == [] && !r.Crash? ==>
        |frame| >= 8 && AnswersTo(r, frame[1])
      ensures !r.Crash? ==>
        r == if |frame| >= 8 && old(inDownload) then AnswerTo(config, Event.Frame(frame)) else Silent
    {
      hide FirstBytes;
      hide Output;
      hide Built;
      hide GoodOp;
      hide Clean;
      hide ResetLine;
      hide BootLine;
      hide InDownload;
      ghost var e, h := Event.Frame(frame), history;
      FrameKeepsLines(config, h, e);
      OutputMore(config, h, e);
      if |frame| < 8 {
        Fault("runt frame");
        history := h + [e];
        return Silent;
      }
      Check(frame[0] == 0, "frame direction");
      Check(Little(frame, 2, 2) == |frame| - 8, "length field");
      if !inDownload {
        Fault("command while not in download mode");
        history := h + [e];
        return Silent;
      }
      r := Dispatch(Event.Frame(frame));
      history := h + [e];
    }

    /** A whole run; it stops when an exception ends the simulator. */
    method Run(events: seq<Event>) returns (crashed: bool)
      requires Valid() && history == []
      modifies this
      ensures !crashed ==> Valid() && history == events && (faults == [] <==> Clean(config, events))
      ensures !crashed && faults == [] ==> written == Output(config, events)
    {
      hide Clean;
      hide ResetLine;
      hide BootLine;
      hide InDownload;
      hide Built;
      hide Output;
      for i := 0 to |events|
        invariant Valid() && history == events[..i]
      {
        match events[i] {
          case Reset(asserted) => SetReset(asserted);
          case Boot(asserted) => SetBoot(asserted);
          case Baud(rate) => SetBaud(rate);
          case Frame(bytes) =>
            var r := Handle(bytes);
            if r.Crash? {
              return true;
            }
        }
        assert events[..i + 1] == events[..i] + [events[i]];
      }
      assert events[..|events|] == events;
      return false;
    }
  }
}
