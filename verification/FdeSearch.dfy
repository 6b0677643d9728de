/**
 Finding the FDE of a program counter through the binary search table of .eh_frame_hdr (LSB Core
 Generic 5.0, section 10.6.2), on a 32-bit little-endian machine.
 */
module FdeSearch {
  import opened Common
  import opened Bits
  import opened EncodedPointers
  import CieEncoding

  const VERSION: byte := 1
  /** DW_EH_PE_datarel | DW_EH_PE_sdata4, the one table encoding that is searched. */
  const TABLE_ENCODING: byte := 0x3B
  const ROW_SIZE: nat := 8

  /** The addresses of the text and data sections. */
  datatype Sections = Sections(text: nat, data: nat)

  function EncodingBase(encoding: byte, s: Sections): Option<nat> {
    if encoding == DW_EH_PE_omit then Some(0)
    else
      match encoding / 16 % 8
      case 0 => Some(0)
      case 1 => Some(0)
      case 5 => Some(0)
      case 2 => Some(s.text)
      case 3 => Some(s.data)
      case _ => None
  }

  datatype Header = Empty | Table(at: nat, count: nat)

  /** What a pointer in the header is relative to: nothing, its own place, or one of the two sections. */
  ghost predicate IsOrigin(encoding: byte, s: Sections, p: nat, origin: nat) {
    match encoding / 16 % 8
    case 0 => origin == 0
    case 1 => origin == p
    case 2 => origin == s.text
    case 3 => origin == s.data
    case _ => false
  }

  /** A pointer of one word, written relative to any of these, is read back as the address it points at. */
  lemma RelativeReadsBack(mem: seq<byte>, s: Sections, encoding: byte, p: nat, target: nat, origin: nat)
    requires encoding % 16 in {0x00, 0x03, 0x0B} && encoding < 128 && IsOrigin(encoding, s, p, origin)
    requires target < WORD && Wrap(origin) != target && Holds(mem, p, LittleBytes(Wrap(target - origin), 4))
    ensures ReadField(mem, encoding, s, p) == Some(Read(target, p + 4))
  {
    hide Holds;
    hide LittleBytes;
    hide Encoded;
    hide Wrap;
    assert encoding != DW_EH_PE_aligned && encoding != DW_EH_PE_omit;
    PointerReadsBack(mem, encoding, EncodingBase(encoding, s).value, p, target);
  }

  function ReadField(mem: seq<byte>, encoding: byte, s: Sections, p: nat): Option<Read> {
    match EncodingBase(encoding, s)
    case None => None
    case Some(base) => Encoded(mem, encoding, base, p)
  }

  /** The header at hdr; None where the routine aborts or would leave the memory. */
  function ParseHeader(mem: seq<byte>, hdr: nat, s: Sections): (r: Option<Header>)
    ensures r.Some? && r.value.Table? ==> r.value.count > 0 && r.value.at % 4 == 0
  {
    if hdr + 4 > |mem| || mem[hdr] != VERSION then None
    else if mem[hdr + 2] == DW_EH_PE_omit then Some(Empty)
    else if mem[hdr + 3] != TABLE_ENCODING then None
    else
      match ReadField(mem, mem[hdr + 1], s, hdr + 4)
      case None => None
      case Some(frame) =>
        match ReadField(mem, mem[hdr + 2], s, frame.next)
        case None => None
        case Some(count) =>
          if count.value == 0 then Some(Empty)
          else if count.next % 4 != 0 then None
          else Some(Table(count.next, count.value))
  }

  /** With fields of a fixed size the table begins right behind them. */
  lemma TableFollowsFields(mem: seq<byte>, hdr: nat, s: Sections)
    requires ParseHeader(mem, hdr, s).Some? && ParseHeader(mem, hdr, s).value.Table?
    requires mem[hdr + 1] % 16 !in {0x01, 0x09} && mem[hdr + 1] != DW_EH_PE_aligned
    requires mem[hdr + 2] % 16 !in {0x01, 0x09} && mem[hdr + 2] != DW_EH_PE_aligned
    ensures SizeOfEncodedValue(mem[hdr + 1]).Some? && SizeOfEncodedValue(mem[hdr + 2]).Some?
    ensures ParseHeader(mem, hdr, s).value.at
         == hdr + 4 + SizeOfEncodedValue(mem[hdr + 1]).value + SizeOfEncodedValue(mem[hdr + 2]).value
  {
    hide Encoded;
    hide SizeOfEncodedValue;
    var base := EncodingBase(mem[hdr + 1], s).value;
    SizeIsAdvance(mem, mem[hdr + 1], base, hdr + 4);
    var frame := Encoded(mem, mem[hdr + 1], base, hdr + 4).value;
    SizeIsAdvance(mem, mem[hdr + 2], EncodingBase(mem[hdr + 2], s).value, frame.next);
  }

  // ----- the table -----

  predicate InMemory(mem: seq<byte>, h: Header) {
    h.Table? ==> h.at + ROW_SIZE * h.count <= |mem|
  }

  /** The start of the function of row i: relative to the header, modulo the word size. */
  function Start(mem: seq<byte>, hdr: nat, h: Header, i: nat): nat
    requires h.Table? && InMemory(mem, h) && i < h.count
  {
    Wrap(LittleSigned(mem, h.at + ROW_SIZE * i, 4) + hdr)
  }

  function FdeOf(mem: seq<byte>, hdr: nat, h: Header, i: nat): nat
    requires h.Table? && InMemory(mem, h) && i < h.count
  {
    Wrap(LittleSigned(mem, h.at + ROW_SIZE * i + 4, 4) + hdr)
  }

  /** A row written as two offsets from the header gives back the two addresses. */
  lemma RowReadsBack(mem: seq<byte>, hdr: nat, h: Header, i: nat, start: nat, fde: nat)
    requires h.Table? && InMemory(mem, h) && i < h.count && start < WORD && fde < WORD
    requires Holds(mem, h.at + ROW_SIZE * i, LittleBytes(Wrap(start - hdr), 4) + LittleBytes(Wrap(fde - hdr), 4))
    ensures Start(mem, hdr, h, i) == start && FdeOf(mem, hdr, h, i) == fde
  {
    hide LittleSigned;
    hide LittleBytes;
    hide Wrap;
    hide Holds;
    var p := h.at + ROW_SIZE * i;
    HoldsSplit(mem, p, LittleBytes(Wrap(start - hdr), 4), LittleBytes(Wrap(fde - hdr), 4));
    WordReadsBack(mem, p, Wrap(start - hdr));
    WordReadsBack(mem, p + 4, Wrap(fde - hdr));
    WrapBack(start, hdr);
    WrapBack(fde, hdr);
  }

  /** How much code the FDE describes, recorded behind the start in the format its CIE names. */
  function RangeOf(mem: seq<byte>, fde: nat): Option<nat> {
    if fde + 8 > |mem| then None
    else
      match CieEncoding.Encoding(mem, Wrap(fde + 4 - LittleSigned(mem, fde + 4, 4)))
      case None => None
      case Some(encoding) =>
        match SizeOfEncodedValue(encoding)
        case None => None
        case Some(size) =>
          match Encoded(mem, encoding % 16, 0, fde + 8 + size)
          case None => None
          case Some(range) => Some(range.value)
  }

  method ReadRange(mem: seq<byte>, fde: nat) returns (r: Option<nat>)
    ensures r == RangeOf(mem, fde)
  {
    hide Wrap;
    hide LittleSigned;
    hide Encoded;
    hide CieEncoding.Encoding;
    hide SizeOfEncodedValue;
    if fde + 8 > |mem| {
      return None;
    }
    var encoding := CieEncoding.GetCieEncoding(mem, Wrap(fde + 4 - LittleSigned(mem, fde + 4, 4)));
    if encoding.None? {
      return None;
    }
    var size := SizeOfEncodedValue(encoding.value);
    if size.None? {
      return None;
    }
    var range := ReadEncodedValueWithBase(mem, encoding.value % 16, 0, fde + 8 + size.value);
    return if range.None? then None else Some(range.value.value);
  }

  /**
   The binary search.  Whatever the table holds, sorted or not, the search ends with a row that
   starts at or before the program counter and is the last one or is followed by a row that starts
   behind it; there is none exactly if the first row starts behind it.
   */
  method LocateRow(mem: seq<byte>, hdr: nat, h: Header, pc: nat) returns (row: Option<nat>)
    requires h.Table? && InMemory(mem, h) && h.count > 0
    ensures row.None? <==> pc < Start(mem, hdr, h, 0)
    ensures row.Some? ==>
      && row.value < h.count && Start(mem, hdr, h, row.value) <= pc
      && (row.value + 1 < h.count ==> pc < Start(mem, hdr, h, row.value + 1))
  {
    hide Start;
    var mid := h.count - 1;
    if pc < Start(mem, hdr, h, 0) {
      return None;
    } else if pc < Start(mem, hdr, h, mid) {
      var lo, hi := 0, mid;
      while lo < hi
        invariant 0 <= lo < hi < h.count
        invariant Start(mem, hdr, h, lo) <= pc < Start(mem, hdr, h, hi)
        decreases hi - lo
      {
        mid := (lo + hi) / 2;
        if pc < Start(mem, hdr, h, mid) {
          hi := mid;
        } else if pc >= Start(mem, hdr, h, mid + 1) {
          lo := mid + 1;
        } else {
          break;
        }
      }
    }
    return Some(mid);
  }

  // ----- the result -----

  /** A function as the table and its FDE describe it. */
  datatype Function = Function(start: nat, len: nat, fde: nat)

  datatype Lookup = NotFound | Found(fde: nat, func: nat)

  ghost predicate Describes(mem: seq<byte>, hdr: nat, h: Header, functions: seq<Function>)
    requires h.Table?
  {
    && InMemory(mem, h) && |functions| == h.count
    && forall i :: 0 <= i < h.count ==> IsRow(mem, hdr, h, i, functions[i])
  }

  ghost predicate IsRow(mem: seq<byte>, hdr: nat, h: Header, i: nat, f: Function)
    requires h.Table? && InMemory(mem, h) && i < h.count
  {
    Start(mem, hdr, h, i) == f.start && FdeOf(mem, hdr, h, i) == f.fde && RangeOf(mem, f.fde) == Some(f.len)
  }

  /** Sorted by start, without overlap, within the address space. */
  ghost predicate Sorted(functions: seq<Function>) {
    && (forall i :: 0 <= i < |functions| ==> functions[i].start + functions[i].len <= WORD)
    && forall i, j :: 0 <= i < j < |functions| ==> functions[i].start + functions[i].len <= functions[j].start
  }

  ghost predicate Covers(f: Function, pc: nat) {
    f.start <= pc < f.start + f.len
  }

  /** A function that ends with the last byte of the address space. */
  ghost predicate EndsAtTop(f: Function) {
    f.start + f.len == WORD
  }

  /**
   What a linear search finds: the function that covers the program counter.  Its end is computed
   modulo the word size, so one that ends at the very top of the address space is never found.
   */
  ghost predicate IsLinearSearch(functions: seq<Function>, pc: nat, r: Lookup) {
    match r
    case NotFound => forall i :: 0 <= i < |functions| && Covers(functions[i], pc) ==> EndsAtTop(functions[i])
    case Found(fde, func) =>
      exists i :: 0 <= i < |functions| && Covers(functions[i], pc) && !EndsAtTop(functions[i])
        && fde == functions[i].fde && func == functions[i].start
  }

  lemma OneCovers(functions: seq<Function>, pc: nat, i: nat, j: nat)
    requires Sorted(functions) && i < |functions| && j < |functions|
    requires Covers(functions[i], pc) && Covers(functions[j], pc)
    ensures i == j
  {
  }

  /** The linear search has one result: the binary search returns that and nothing else. */
  lemma LinearSearchIsUnique(functions: seq<Function>, pc: nat, a: Lookup, b: Lookup)
    requires Sorted(functions) && IsLinearSearch(functions, pc, a) && IsLinearSearch(functions, pc, b)
    ensures a == b
  {
    hide Sorted;
    if a.Found? {
      var i :| 0 <= i < |functions| && Covers(functions[i], pc) && !EndsAtTop(functions[i])
        && a.fde == functions[i].fde && a.func == functions[i].start;
      if b.Found? {
        var j :| 0 <= j < |functions| && Covers(functions[j], pc) && !EndsAtTop(functions[j])
          && b.fde == functions[j].fde && b.func == functions[j].start;
        OneCovers(functions, pc, i, j);
      }
    }
  }

  /** Where the search misses a function: one that ends at the top of the address space. */
  lemma TopIsMissed(functions: seq<Function>, pc: nat, k: nat, r: Lookup)
    requires Sorted(functions) && k < |functions| && Covers(functions[k], pc) && IsLinearSearch(functions, pc, r)
    ensures r.NotFound? <==> EndsAtTop(functions[k])
    ensures r.Found? ==> r == Found(functions[k].fde, functions[k].start)
  {
    hide Sorted;
    hide EndsAtTop;
    if r.Found? {
      var i :| 0 <= i < |functions| && Covers(functions[i], pc) && !EndsAtTop(functions[i])
        && r.fde == functions[i].fde && r.func == functions[i].start;
      OneCovers(functions, pc, i, k);
    }
  }

  /** Only the row that the search has located can cover the program counter. */
  lemma OnlyLocated(functions: seq<Function>, pc: nat, k: nat, i: nat)
    requires Sorted(functions) && k < |functions| && i < |functions|
    requires functions[k].start <= pc && (k + 1 < |functions| ==> pc < functions[k + 1].start)
    requires Covers(functions[i], pc)
    ensures i == k
  {
  }

  lemma NoneBefore(functions: seq<Function>, pc: nat, i: nat)
    requires Sorted(functions) && i < |functions| && pc < functions[0].start
    ensures !Covers(functions[i], pc)
  {
    if i > 0 {
      assert functions[0].start + functions[0].len <= functions[i].start;
    }
  }

  /** The test against the end of the range, computed modulo the word size. */
  lemma EndTest(f: Function, pc: nat)
    requires f.start + f.len <= WORD && pc < WORD && f.start <= pc
    ensures pc < Wrap(f.start + f.len) <==> Covers(f, pc) && !EndsAtTop(f)
  {
  }

  method UnwindFindFde(mem: seq<byte>, hdr: nat, s: Sections, pc: nat, ghost functions: seq<Function>)
    returns (r: Option<Lookup>)
    requires pc < WORD
    requires var h := ParseHeader(mem, hdr, s);
      h.Some? && h.value.Table? ==> Describes(mem, hdr, h.value, functions) && Sorted(functions)
    ensures match ParseHeader(mem, hdr, s) {
      case None => r == None
      case Some(Empty) => r == Some(NotFound)
      case Some(Table(_, _)) => r.Some? && IsLinearSearch(functions, pc, r.value)
    }
  {
    hide Start;
    hide FdeOf;
    hide RangeOf;
    hide Sorted;
    hide Covers;
    hide EndsAtTop;
    hide Wrap;
    var header := ReadHeader(mem, hdr, s);
    if header.None? {
      return None;
    }
    var h := header.value;
    if h.Empty? {
      return Some(NotFound);
    }
    var row := LocateRow(mem, hdr, h, pc);
    assert IsRow(mem, hdr, h, 0, functions[0]);
    if row.None? {
      forall i | 0 <= i < |functions|
        ensures !Covers(functions[i], pc)
      {
        NoneBefore(functions, pc, i);
      }
      return Some(NotFound);
    }
    var k := row.value;
    ghost var f := functions[k];
    assert IsRow(mem, hdr, h, k, f);
    assert k + 1 < h.count ==> IsRow(mem, hdr, h, k + 1, functions[k + 1]);
    var range := ReadRange(mem, FdeOf(mem, hdr, h, k));
    SortedFits(functions, k);
    EndTest(f, pc);
    if pc >= Wrap(Start(mem, hdr, h, k) + range.value) {
      forall i | 0 <= i < |functions| && Covers(functions[i], pc)
        ensures EndsAtTop(functions[i])
      {
        OnlyLocated(functions, pc, k, i);
      }
      return Some(NotFound);
    }
    return Some(Found(FdeOf(mem, hdr, h, k), Start(mem, hdr, h, k)));
  }

  lemma SortedFits(functions: seq<Function>, k: nat)
    requires Sorted(functions) && k < |functions|
    ensures functions[k].start + functions[k].len <= WORD
  {
  }

  /** Reads the header field by field. */
  method ReadHeader(mem: seq<byte>, hdr: nat, s: Sections) returns (r: Option<Header>)
    ensures r == ParseHeader(mem, hdr, s)
  {
    hide Encoded;
    if hdr + 4 > |mem| || mem[hdr] != VERSION {
      return None;
    }
    if mem[hdr + 2] == DW_EH_PE_omit {
      return Some(Empty);
    }
    if mem[hdr + 3] != TABLE_ENCODING {
      return None;
    }
    var base := EncodingBase(mem[hdr + 1], s);
    if base.None? {
      return None;
    }
    var frame := ReadEncodedValueWithBase(mem, mem[hdr + 1], base.value, hdr + 4);
    if frame.None? {
      return None;
    }
    base := EncodingBase(mem[hdr + 2], s);
    if base.None? {
      return None;
    }
    var count := ReadEncodedValueWithBase(mem, mem[hdr + 2], base.value, frame.value.next);
    if count.None? {
      return None;
    }
    if count.value.value == 0 {
      return Some(Empty);
    }
    return if count.value.next % 4 != 0 then None else Some(Table(count.value.next, count.value.value));
  }

  // ----- a table that shows it -----

  /** A header with one row, a CIE without augmentation at 20 and an FDE at 32 for the last four bytes of code. */
  function TopByte(i: nat): byte {
    match i
    case 0 => VERSION
    case 1 => 0x03
    case 2 => 0x03
    case 3 => TABLE_ENCODING
    case 4 => 20
    case 8 => 1
    case 16 => 32
    case 20 => 8
    case 28 => 1
    case 32 => 12
    case 36 => 16
    case 44 => 4
    case _ => if i in {12, 40} then 0xFC else if i in {13, 14, 15, 41, 42, 43} then 0xFF else 0
  }

  function TopTable(): seq<byte> {
    seq(48, i requires 0 <= i => TopByte(i))
  }

  lemma FourBytesAt(mem: seq<byte>, p: nat, low: byte, high: byte)
    requires p + 4 <= |mem| && mem[p] == low && mem[p + 1] == mem[p + 2] == mem[p + 3] == high && high in {0, 0xFF}
    ensures var v := if high == 0 then low as int else WORD - 256 + low;
      Fixed(mem, p, 4, false) == Some(Read(v, p + 4)) && LittleSigned(mem, p, 4) == v
  {
    LittleFour(mem, p);
    WordIsPow2();
    assert Pow2(8 * 4) == WORD;
    hide Little;
    hide Pow2;
  }

  lemma TopWords()
    ensures var mem := TopTable();
      && |mem| == 48 && mem[0] == 1 && mem[1] == mem[2] == 3 && mem[3] == 0x3B && mem[28] == 1 && mem[29] == 0
      && Fixed(mem, 4, 4, false) == Some(Read(20, 8)) && Fixed(mem, 8, 4, false) == Some(Read(1, 12))
      && LittleSigned(mem, 12, 4) == WORD - 4 && LittleSigned(mem, 16, 4) == 32
      && LittleSigned(mem, 36, 4) == 16 && Fixed(mem, 44, 4, false) == Some(Read(4, 48))
  {
    hide Fixed;
    hide LittleSigned;
    var mem := TopTable();
    FourBytesAt(mem, 4, 20, 0);
    FourBytesAt(mem, 8, 1, 0);
    FourBytesAt(mem, 12, 0xFC, 0xFF);
    FourBytesAt(mem, 16, 32, 0);
    FourBytesAt(mem, 36, 16, 0);
    FourBytesAt(mem, 44, 4, 0);
  }

  lemma TopHeader(s: Sections)
    ensures ParseHeader(TopTable(), 0, s) == Some(Table(12, 1))
  {
    hide TopTable;
    hide Fixed;
    TopWords();
  }

  lemma TopRange()
    ensures RangeOf(TopTable(), 32) == Some(4)
  {
    hide TopTable;
    hide Fixed;
    hide LittleSigned;
    TopWords();
    var mem := TopTable();
    assert CieEncoding.NulAt(mem, 29) == Some(29);
    assert CieEncoding.Encoding(mem, 20) == Some(DW_EH_PE_absptr);
  }

  /** The tables are in order and the last byte of code is covered, yet the search finds nothing. */
  lemma LastByteIsMissed(s: Sections, found: Lookup)
    requires IsLinearSearch([Function(WORD - 4, 4, 32)], WORD - 1, found)
    ensures var mem, functions := TopTable(), [Function(WORD - 4, 4, 32)];
      && ParseHeader(mem, 0, s) == Some(Table(12, 1)) && Describes(mem, 0, Table(12, 1), functions)
      && Sorted(functions) && Covers(functions[0], WORD - 1) && found == NotFound
  {
    hide TopTable;
    hide LittleSigned;
    hide RangeOf;
    hide ParseHeader;
    TopWords();
    TopHeader(s);
    TopRange();
    TopIsMissed([Function(WORD - 4, 4, 32)], WORD - 1, 0, found);
  }
}
