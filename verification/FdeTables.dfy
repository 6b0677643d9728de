/**
 The tables the FDE search reads, as a linker and a compiler write them - header, sorted rows, CIEs and
 FDEs with pointers of any fixed size - and the proof that the search finds the function that covers
 the program counter in what was written.
 */
module FdeTables {
  import opened Common
  import opened Bits
  import opened Leb128
  import opened EncodedPointers
  import CieEncoding
  import opened FdeSearch

  // ----- FDEs -----

  /**
   An FDE at p: its length, the distance to its CIE, the start of the function in the encoding that the
   CIE names, and its length in the format of that encoding alone.
   */
  function FdeBytes(p: nat, length: nat, cie: nat, encoding: byte, pcBegin: seq<byte>, len: nat): seq<byte> {
    LittleBytes(length, 4) + (LittleBytes(Wrap(p + 4 - cie), 4) + (pcBegin + LittleBytes(len, WidthOf(encoding % 16))))
  }

  /** An encoding an FDE may have: any of a fixed size, relative to whatever, direct or indirect. */
  predicate IsFdeEncoding(encoding: byte) {
    IsFixed(encoding % 16)
  }

  /** The function has been written: its CIE at cie, and its FDE with its length. */
  ghost predicate FdeAt(mem: seq<byte>, f: Function, cie: nat, c: CieEncoding.Cie, length: nat, pcBegin: seq<byte>) {
    && CieEncoding.Writable(c) && CieEncoding.AllProper(c.fields, CieEncoding.DataAt(c, cie))
    && Holds(mem, cie + 8, CieEncoding.Written(c)) && cie < WORD
    && IsFdeEncoding(c.fdeEncoding) && |pcBegin| == WidthOf(c.fdeEncoding % 16)
    && f.len < WORD && HasRoom(c.fdeEncoding % 16, f.len)
    && Holds(mem, f.fde, FdeBytes(f.fde, length, cie, c.fdeEncoding, pcBegin, f.len))
  }

  lemma SizeIsWidth(encoding: byte)
    requires IsFdeEncoding(encoding)
    ensures SizeOfEncodedValue(encoding) == Some(WidthOf(encoding % 16))
  {
    assert encoding % 8 == encoding % 16 % 8;
  }

  lemma RangeField(mem: seq<byte>, format: byte, p: nat, v: nat)
    requires IsFixed(format) && v < WORD && HasRoom(format, v) && Holds(mem, p, LittleBytes(v, WidthOf(format)))
    ensures Encoded(mem, format, 0, p) == Some(Read(v, p + WidthOf(format)))
  {
    hide Field;
    hide LittleBytes;
    hide Holds;
    FixedReadsBack(mem, format, p, v);
  }

  lemma CiePointer(mem: seq<byte>, fde: nat, cie: nat)
    requires cie < WORD && Holds(mem, fde + 4, LittleBytes(Wrap(fde + 4 - cie), 4))
    ensures Wrap(fde + 4 - LittleSigned(mem, fde + 4, 4)) == cie
  {
    hide LittleSigned;
    hide LittleBytes;
    hide Little;
    WordReadsBack(mem, fde + 4, Wrap(fde + 4 - cie));
  }

  /** The length read is the length written, for every encoding the CIE may name and at every address. */
  lemma LengthReadsBack(mem: seq<byte>, f: Function, cie: nat, c: CieEncoding.Cie, length: nat, pcBegin: seq<byte>)
    requires FdeAt(mem, f, cie, c, length, pcBegin)
    ensures RangeOf(mem, f.fde) == Some(f.len)
  {
    hide Holds;
    hide LittleBytes;
    hide LittleSigned;
    hide Wrap;
    hide HasRoom;
    hide IsFixed;
    hide WidthOf;
    hide SizeOfEncodedValue;
    hide Encoded;
    hide CieEncoding.Encoding;
    hide CieEncoding.Written;
    hide CieEncoding.Writable;
    hide CieEncoding.AllProper;
    var width := WidthOf(c.fdeEncoding % 16);
    var lenBytes := LittleBytes(f.len, width);
    var delta := LittleBytes(Wrap(f.fde + 4 - cie), 4);
    HoldsSplit(mem, f.fde, LittleBytes(length, 4), delta + (pcBegin + lenBytes));
    HoldsSplit(mem, f.fde + 4, delta, pcBegin + lenBytes);
    HoldsSplit(mem, f.fde + 8, pcBegin, lenBytes);
    HoldsFits(mem, f.fde + 4, delta);
    CiePointer(mem, f.fde, cie);
    CieEncoding.WrittenEncodingIsRead(mem, cie, c);
    SizeIsWidth(c.fdeEncoding);
    RangeField(mem, c.fdeEncoding % 16, f.fde + 8 + width, f.len);
  }

  lemma HoldsFits(mem: seq<byte>, p: nat, bytes: seq<byte>)
    requires Holds(mem, p, bytes)
    ensures p + |bytes| <= |mem|
  {
  }

  // ----- the header and the rows -----

  /** A header at hdr: the address of the frames in any encoding of a fixed size, and a plain count of rows. */
  function HeaderBytes(frameEncoding: byte, countEncoding: byte, frame: seq<byte>, count: nat): seq<byte> {
    [VERSION, frameEncoding, countEncoding, TABLE_ENCODING] + (frame + LittleBytes(count, WidthOf(countEncoding)))
  }

  lemma PointerIsPassed(mem: seq<byte>, encoding: byte, base: nat, p: nat)
    requires IsFixed(encoding % 16) && encoding < 128 && encoding != DW_EH_PE_aligned
    requires p + WidthOf(encoding % 16) <= |mem|
    ensures Encoded(mem, encoding, base, p).Some?
    ensures Encoded(mem, encoding, base, p).value.next == p + WidthOf(encoding % 16)
  {
    hide Little;
    hide LittleSigned;
  }

  /** The four single bytes, and where the two fields are. */
  lemma HeaderParts(mem: seq<byte>, hdr: nat, frameEncoding: byte, countEncoding: byte, frame: seq<byte>, count: nat)
    requires Holds(mem, hdr, HeaderBytes(frameEncoding, countEncoding, frame, count))
    ensures hdr + 4 <= |mem| && mem[hdr] == VERSION && mem[hdr + 1] == frameEncoding
    ensures mem[hdr + 2] == countEncoding && mem[hdr + 3] == TABLE_ENCODING
    ensures hdr + 4 + |frame| <= |mem|
    ensures Holds(mem, hdr + 4 + |frame|, LittleBytes(count, WidthOf(countEncoding)))
  {
    hide LittleBytes;
    hide WidthOf;
    var four: seq<byte> := [VERSION, frameEncoding, countEncoding, TABLE_ENCODING];
    var lastBytes := LittleBytes(count, WidthOf(countEncoding));
    HoldsSplit(mem, hdr, four, frame + lastBytes);
    HoldsSplit(mem, hdr + 4, frame, lastBytes);
    var read := mem[hdr..hdr + 4];
    assert read[0] == mem[hdr] && read[1] == mem[hdr + 1] && read[2] == mem[hdr + 2] && read[3] == mem[hdr + 3];
  }

  /** A header is read back as its count of rows, which begin behind it. */
  lemma HeaderReadsBack(mem: seq<byte>, hdr: nat, s: Sections, frameEncoding: byte, countEncoding: byte,
                        frame: seq<byte>, count: nat)
    requires IsFixed(frameEncoding % 16) && frameEncoding < 128 && frameEncoding != DW_EH_PE_aligned
    requires EncodingBase(frameEncoding, s).Some? && |frame| == WidthOf(frameEncoding % 16)
    requires countEncoding < 16 && IsFixed(countEncoding) && count < WORD && HasRoom(countEncoding, count)
    requires Holds(mem, hdr, HeaderBytes(frameEncoding, countEncoding, frame, count))
    ensures var at := hdr + 4 + |frame| + WidthOf(countEncoding);
      ParseHeader(mem, hdr, s)
      == if count == 0 then Some(Empty) else if at % 4 != 0 then None else Some(Table(at, count))
  {
    hide LittleBytes;
    hide HasRoom;
    hide Holds;
    hide Encoded;
    hide WidthOf;
    HeaderParts(mem, hdr, frameEncoding, countEncoding, frame, count);
    PointerIsPassed(mem, frameEncoding, EncodingBase(frameEncoding, s).value, hdr + 4);
    RangeField(mem, countEncoding, hdr + 4 + |frame|, count);
  }

  /** Row i is that of a function: its start and its FDE, both relative to the header. */
  ghost predicate RowAt(mem: seq<byte>, hdr: nat, h: Header, i: nat, f: Function)
    requires h.Table?
  {
    && f.start < WORD && f.fde < WORD
    && Holds(mem, h.at + 8 * i, LittleBytes(Wrap(f.start - hdr), 4) + LittleBytes(Wrap(f.fde - hdr), 4))
  }

  /** The FDE of the function has been written, behind some CIE. */
  ghost predicate HasFde(mem: seq<byte>, f: Function) {
    exists cie, c, length, pcBegin :: FdeAt(mem, f, cie, c, length, pcBegin)
  }

  /** Everything about these functions has been written: a row and an FDE for each. */
  ghost predicate AllWritten(mem: seq<byte>, hdr: nat, h: Header, functions: seq<Function>)
    requires h.Table?
  {
    && InMemory(mem, h) && |functions| == h.count
    && forall i :: 0 <= i < h.count ==> RowAt(mem, hdr, h, i, functions[i]) && HasFde(mem, functions[i])
  }

  lemma RowIsRead(mem: seq<byte>, hdr: nat, h: Header, i: nat, f: Function)
    requires h.Table? && InMemory(mem, h) && i < h.count && RowAt(mem, hdr, h, i, f) && HasFde(mem, f)
    ensures IsRow(mem, hdr, h, i, f)
  {
    hide Start;
    hide FdeOf;
    hide RangeOf;
    hide FdeAt;
    hide Holds;
    hide LittleBytes;
    hide Wrap;
    RowReadsBack(mem, hdr, h, i, f.start, f.fde);
    var cie, c, length, pcBegin :| FdeAt(mem, f, cie, c, length, pcBegin);
    LengthReadsBack(mem, f, cie, c, length, pcBegin);
  }

  /** What has been written is what the search takes the tables to describe. */
  lemma WrittenIsDescribed(mem: seq<byte>, hdr: nat, h: Header, functions: seq<Function>)
    requires h.Table? && AllWritten(mem, hdr, h, functions)
    ensures Describes(mem, hdr, h, functions)
  {
    hide IsRow;
    hide RowAt;
    hide HasFde;
    forall i | 0 <= i < h.count
      ensures IsRow(mem, hdr, h, i, functions[i])
    {
      RowIsRead(mem, hdr, h, i, functions[i]);
    }
  }

  /**
   The result of the search among written functions: the one whose code, from the start written and as
   long as was written, holds the program counter - and none only if there is none, or if it ends with
   the last byte of the address space.
   */
  lemma SearchAmongWritten(mem: seq<byte>, hdr: nat, h: Header, functions: seq<Function>, pc: nat, r: Lookup)
    requires h.Table? && AllWritten(mem, hdr, h, functions) && Sorted(functions) && IsLinearSearch(functions, pc, r)
    ensures Describes(mem, hdr, h, functions)
    ensures forall i :: 0 <= i < |functions| && functions[i].start <= pc < functions[i].start + functions[i].len ==>
      r == if functions[i].start + functions[i].len == WORD then NotFound
           else Found(functions[i].fde, functions[i].start)
    ensures (forall i :: 0 <= i < |functions| ==> !(functions[i].start <= pc < functions[i].start + functions[i].len))
      ==> r == NotFound
  {
    WrittenIsDescribed(mem, hdr, h, functions);
    hide Describes;
    hide AllWritten;
    hide Sorted;
    forall i | 0 <= i < |functions| && functions[i].start <= pc < functions[i].start + functions[i].len
      ensures r == if functions[i].start + functions[i].len == WORD then NotFound
                   else Found(functions[i].fde, functions[i].start)
    {
      TopIsMissed(functions, pc, i, r);
    }
  }
}
