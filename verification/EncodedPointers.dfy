/**
 Encoded pointers in exception tables (LSB Core Generic 5.0, section 10.5.1, DWARF extensions) on
 a 32-bit little-endian machine.  Memory is the address space from 0; a read outside it, like an
 encoding the reader aborts on, yields None.
 */
module EncodedPointers {
  import opened Common
  import opened Bits
  import opened Leb128

  const WORD_BITS: nat := 32
  const WORD := 0x1_0000_0000
  const PTR_SIZE := 4

  const DW_EH_PE_absptr: byte := 0x00
  const DW_EH_PE_omit: byte := 0xFF
  const DW_EH_PE_uleb128: byte := 0x01
  const DW_EH_PE_aligned: byte := 0x50

  lemma WordIsPow2()
    ensures Pow2(WORD_BITS) == WORD && Pow2(WORD_BITS - 1) == WORD / 2
  {
    Pow2Add(16, 16);
    Pow2Add(16, 15);
    Pow2Add(8, 8);
    Pow2Add(8, 7);
    assert Pow2(7) == 128;
  }

  /** A value read and the address behind it. */
  datatype Read = Read(value: nat, next: nat)

  function Wrap(v: int): (r: nat)
    ensures r < WORD
  {
    v % WORD
  }

  /** The same as a signed number, brought back to a word. */
  function LittleSigned(mem: seq<byte>, p: nat, n: nat): nat
    requires p + n <= |mem|
  {
    var v := Little(mem, p, n);
    if n > 0 && mem[p + n - 1] >= 128 then Wrap(v - Pow2(8 * n)) else Wrap(v)
  }

  function Fixed(mem: seq<byte>, p: nat, n: nat, isSigned: bool): Option<Read> {
    if p + n > |mem| then None
    else Some(Read(if isSigned then LittleSigned(mem, p, n) else Wrap(Little(mem, p, n)), p + n))
  }

  function Unsigned128(mem: seq<byte>, p: nat): Option<Read> {
    if Readable(mem, p, WORD_BITS) then Some(Read(Wrap(Value(mem, p)), End(mem, p).value)) else None
  }

  function Signed128(mem: seq<byte>, p: nat): Option<Read> {
    if Readable(mem, p, WORD_BITS) then Some(Read(Wrap(SignedValue(mem, p)), End(mem, p).value)) else None
  }

  /** The field at p in the format given by the low four bits, before any base is added. */
  function Field(mem: seq<byte>, format: nat, p: nat): Option<Read> {
    match format
    case 0x00 => Fixed(mem, p, PTR_SIZE, false)
    case 0x01 => Unsigned128(mem, p)
    case 0x02 => Fixed(mem, p, 2, false)
    case 0x03 => Fixed(mem, p, 4, false)
    case 0x04 => Fixed(mem, p, 8, false)
    case 0x09 => Signed128(mem, p)
    case 0x0A => Fixed(mem, p, 2, true)
    case 0x0B => Fixed(mem, p, 4, true)
    case 0x0C => Fixed(mem, p, 8, true)
    case _ => None
  }

  /** The first address from p on that is a multiple of the word size. */
  function AlignUp(p: nat): (r: nat)
    ensures r % 4 == 0 && p <= r < p + 4
  {
    (p + PTR_SIZE - 1) / PTR_SIZE * PTR_SIZE
  }

  /** What the field at p stands for: a zero field is a null pointer whatever the base. */
  function Based(mem: seq<byte>, encoding: byte, base: nat, p: nat, field: Read): Option<Read> {
    if field.value == 0 then Some(field)
    else
      var address := Wrap(field.value + (if encoding / 16 % 8 == 1 then p else base));
      if encoding >= 128 then
        match Fixed(mem, address, PTR_SIZE, false)
        case None => None
        case Some(target) => Some(Read(target.value, field.next))
      else Some(Read(address, field.next))
  }

  function Encoded(mem: seq<byte>, encoding: byte, base: nat, p: nat): (r: Option<Read>)
    ensures r.Some? ==> p < r.value.next <= |mem|
  {
    if encoding == DW_EH_PE_aligned then Fixed(mem, AlignUp(p), PTR_SIZE, false)
    else
      match Field(mem, encoding % 16, p)
      case None => None
      case Some(field) => Based(mem, encoding, base, p, field)
  }

  method ReadEncodedValueWithBase(mem: seq<byte>, encoding: byte, base: nat, p: nat) returns (r: Option<Read>)
    ensures r == Encoded(mem, encoding, base, p)
  {
    hide Based;
    hide Fixed;
    hide Pow2;
    WordIsPow2();
    var field: Option<Read>;
    if encoding == DW_EH_PE_aligned {
      return Fixed(mem, AlignUp(p), PTR_SIZE, false);
    }
    match encoding % 16 {
      case 0x01 =>
        if Readable(mem, p, WORD_BITS) {
          var val, next := ReadUleb128(mem, p, WORD_BITS);
          field := Some(Read(val, next));
        } else {
          field := None;
        }
      case 0x09 =>
        if Readable(mem, p, WORD_BITS) {
          var val, next := ReadSleb128(mem, p, WORD_BITS);
          field := Some(Read(Wrap(val), next));
        } else {
          field := None;
        }
      case format =>
        field := Field(mem, format, p);
    }
    if field.None? {
      return None;
    }
    return Based(mem, encoding, base, p, field.value);
  }

  method ReadUnsigned(mem: seq<byte>, p: nat) returns (r: Option<Read>)
    ensures r == Unsigned128(mem, p)
  {
    if !Readable(mem, p, WORD_BITS) {
      return None;
    }
    WordIsPow2();
    var val, next := ReadUleb128(mem, p, WORD_BITS);
    return Some(Read(val, next));
  }

  /** The size of a fixed-size format; None where the function aborts. */
  function SizeOfEncodedValue(encoding: byte): Option<nat> {
    if encoding == DW_EH_PE_omit then Some(0)
    else
      match encoding % 8
      case 0 => Some(PTR_SIZE)
      case 2 => Some(2)
      case 3 => Some(4)
      case 4 => Some(8)
      case _ => None
  }

  lemma FieldSize(mem: seq<byte>, format: nat, p: nat)
    requires format != 0x01 && format != 0x09 && Field(mem, format, p).Some?
    ensures Field(mem, format, p).value.next == p +
          (match format % 8 case 0 => PTR_SIZE case 2 => 2 case 3 => 4 case _ => 8)
    ensures format % 8 in {0, 2, 3, 4}
  {
  }

  lemma BasedAdvance(mem: seq<byte>, encoding: byte, base: nat, p: nat, field: Read)
    requires Based(mem, encoding, base, p, field).Some?
    ensures Based(mem, encoding, base, p, field).value.next == field.next
  {
  }

  /** Reading a field that is neither LEB128 nor aligned advances by exactly the size of its format. */
  lemma SizeIsAdvance(mem: seq<byte>, encoding: byte, base: nat, p: nat)
    requires encoding % 16 != 0x01 && encoding % 16 != 0x09 && encoding != DW_EH_PE_aligned
    requires Encoded(mem, encoding, base, p).Some?
    ensures SizeOfEncodedValue(encoding) == Some(Encoded(mem, encoding, base, p).value.next - p)
  {
    hide Based;
    hide Field;
    assert encoding % 8 == encoding % 16 % 8;
    FieldSize(mem, encoding % 16, p);
    BasedAdvance(mem, encoding, base, p, Field(mem, encoding % 16, p).value);
  }

  // ----- numbers and pointers as they are written -----

  /** These bytes are at p. */
  predicate Holds(mem: seq<byte>, p: nat, bytes: seq<byte>) {
    p + |bytes| <= |mem| && mem[p..p + |bytes|] == bytes
  }

  lemma HoldsSplit(mem: seq<byte>, p: nat, a: seq<byte>, b: seq<byte>)
    requires Holds(mem, p, a + b)
    ensures Holds(mem, p, a) && Holds(mem, p + |a|, b)
  {
    assert (a + b)[..|a|] == a && (a + b)[|a|..] == b;
    assert mem[p..p + |a + b|][..|a|] == mem[p..p + |a|];
    assert mem[p..p + |a + b|][|a|..] == mem[p + |a|..p + |a| + |b|];
  }

  lemma FirstHeld(mem: seq<byte>, p: nat, bytes: seq<byte>)
    requires bytes != [] && Holds(mem, p, bytes)
    ensures p < |mem| && mem[p] == bytes[0]
  {
    assert mem[p] == mem[p..p + |bytes|][0];
  }

  lemma UnsignedHeld(mem: seq<byte>, p: nat, v: nat)
    requires v < Pow2(WORD_BITS) && Holds(mem, p, Encode(v))
    ensures Unsigned128(mem, p) == Some(Read(v, p + |Encode(v)|))
  {
    WordIsPow2();
    var q := p + |Encode(v)|;
    assert mem == mem[..p] + Encode(v) + mem[q..];
    RoundTrip(v, WORD_BITS, mem[..p], mem[q..]);
  }

  lemma SignedHeld(mem: seq<byte>, p: nat, v: int)
    requires FitsSigned(v, WORD_BITS) && Holds(mem, p, EncodeSigned(v))
    ensures Signed128(mem, p).Some? && Signed128(mem, p).value.next == p + |EncodeSigned(v)|
    ensures Readable(mem, p, WORD_BITS) && End(mem, p) == Some(p + |EncodeSigned(v)|)
    ensures Signed(SignedValue(mem, p) % Pow2(WORD_BITS), WORD_BITS) == v
  {
    hide Signed;
    hide SignedValue;
    hide FitsSigned;
    hide Pow2;
    hide Wrap;
    hide Readable;
    hide End;
    hide EncodeSigned;
    var q := p + |EncodeSigned(v)|;
    assert mem == mem[..p] + EncodeSigned(v) + mem[q..];
    SignedRoundTrip(v, WORD_BITS, mem[..p], mem[q..]);
  }

  /** The low n bytes of v, least significant first. */
  function LittleBytes(v: int, n: nat): (r: seq<byte>)
    ensures |r| == n
    decreases n
  {
    if n == 0 then [] else [v % 256] + LittleBytes(v / 256, n - 1)
  }

  /** What has been written is read back, modulo the range of n bytes. */
  lemma {:induction false} LittleReadsBack(mem: seq<byte>, p: nat, v: int, n: nat)
    requires Holds(mem, p, LittleBytes(v, n))
    ensures Little(mem, p, n) == v % Pow2(8 * n)
    decreases n
  {
    if n > 0 {
      HoldsSplit(mem, p, [v % 256], LittleBytes(v / 256, n - 1));
      assert mem[p] == mem[p..p + 1][0] == v % 256;
      LittleReadsBack(mem, p + 1, v / 256, n - 1);
      EightMore(8 * (n - 1));
      ModuloDigit(v, Pow2(8 * (n - 1)));
    }
  }

  lemma EightMore(k: nat)
    ensures Pow2(k + 8) == 256 * Pow2(k)
  {
    SevenMore(k + 1);
  }

  lemma ModuloDigit(v: int, m: nat)
    requires m > 0
    ensures v % 256 + 256 * (v / 256 % m) == v % (256 * m)
  {
    var q := v / 256 / m;
    var r := v / 256 % m;
    assert v / 256 == q * m + r;
    assert v == 256 * (v / 256) + v % 256;
    assert 256 * (q * m + r) == q * (256 * m) + 256 * r by { MulAssoc(256, q, m); MulAssoc(q, 256, m); }
    DivModUnique(v, 256 * m, q, v % 256 + 256 * r);
  }

  /** A word written in four bytes is read back, signed or not. */
  lemma WordReadsBack(mem: seq<byte>, p: nat, v: nat)
    requires v < WORD && Holds(mem, p, LittleBytes(v, 4))
    ensures Wrap(Little(mem, p, 4)) == v && LittleSigned(mem, p, 4) == v
  {
    hide Pow2;
    hide Little;
    hide LittleBytes;
    hide Holds;
    hide Wrap;
    LittleReadsBack(mem, p, v, 4);
    WordIsPow2();
    SmallWord(v);
    assert 8 * 4 == WORD_BITS;
  }

  lemma SmallWord(v: nat)
    requires v < WORD
    ensures v % WORD == v == Wrap(v) == Wrap(v - WORD)
  {
  }

  lemma FieldReadsBack(mem: seq<byte>, format: nat, p: nat, v: nat)
    requires format in {0x00, 0x03, 0x0B} && v < WORD && Holds(mem, p, LittleBytes(v, 4))
    ensures Field(mem, format, p) == Some(Read(v, p + 4))
  {
    WordReadsBack(mem, p, v);
    hide Little;
    hide LittleSigned;
    hide LittleBytes;
  }

  lemma WrapBack(target: nat, from: nat)
    requires target < WORD
    ensures Wrap(Wrap(target - from) + from) == target
    ensures Wrap(target - from) == 0 ==> Wrap(from) == target
  {
  }

  /** Where a pointer with this encoding is relative to. */
  function Origin(encoding: byte, base: nat, p: nat): nat {
    if encoding / 16 % 8 == 1 then p else base
  }

  /**
   A pointer stored in four bytes, relative to the base or to its own place, is read back - unless
   it points at that very address: then zero is stored, which is taken for a null pointer.
   */
  lemma PointerReadsBack(mem: seq<byte>, encoding: byte, base: nat, p: nat, target: nat)
    requires encoding % 16 in {0x00, 0x03, 0x0B} && encoding < 128 && encoding != DW_EH_PE_aligned && target < WORD
    requires Holds(mem, p, LittleBytes(Wrap(target - Origin(encoding, base, p)), 4))
    ensures Encoded(mem, encoding, base, p).Some? && Encoded(mem, encoding, base, p).value.next == p + 4
    ensures Encoded(mem, encoding, base, p).value.value == target <==>
      target == 0 || Wrap(Origin(encoding, base, p)) != target
  {
    var from := Origin(encoding, base, p);
    FieldReadsBack(mem, encoding % 16, p, Wrap(target - from));
    WrapBack(target, from);
    WrapZero(target, from);
    hide Field;
    hide Holds;
    hide LittleBytes;
    hide Wrap;
  }

  lemma WrapZero(target: nat, from: nat)
    requires target < WORD
    ensures Wrap(target - from) == 0 <==> Wrap(from) == target
  {
  }

  /** A pointer that shows it: relative to its own place, it points at itself and is read as null. */
  lemma SelfReadsNull(before: seq<byte>)
    requires 0 < |before| < WORD
    ensures var p := |before|;
      var mem := before + LittleBytes(Wrap(p - Origin(0x1B, 0, p)), 4);
      Encoded(mem, 0x1B, 0, p) == Some(Read(0, p + 4))
  {
    hide Field;
    hide LittleBytes;
    hide Little;
    hide Pow2;
    var p := |before|;
    var mem := before + LittleBytes(0, 4);
    FieldReadsBack(mem, 0x0B, p, 0);
  }

  // ----- every format -----

  /** The formats of a fixed size, and how many bytes they have. */
  predicate IsFixed(format: nat) {
    format in {0x00, 0x02, 0x03, 0x04, 0x0A, 0x0B, 0x0C}
  }

  function WidthOf(format: nat): nat {
    match format % 8
    case 2 => 2
    case 4 => 8
    case _ => 4
  }

  /** The format has room for the number: two bytes hold less than a word. */
  predicate HasRoom(format: nat, v: int) {
    && (format == 0x02 ==> 0 <= v < 0x10000)
    && (format == 0x0A ==> -0x8000 <= v < 0x8000)
  }

  lemma SixteenBits()
    ensures Pow2(16) == 0x10000
  {
    Pow2Add(8, 8);
    assert Pow2(8) == 256;
  }

  lemma TopBit(v: int, low: byte, high: byte)
    requires -0x8000 <= v < 0x10000 && low as int + 256 * high as int == v % 0x10000
    ensures v >= 0 ==> v % 0x10000 == v
    ensures v < 0x8000 ==> v % 0x10000 == if high >= 128 then v + 0x10000 else v
  {
    assert v % 0x10000 == if v < 0 then v + 0x10000 else v;
  }

  lemma TwoReadBack(mem: seq<byte>, p: nat, v: int)
    requires -0x8000 <= v < 0x10000 && Holds(mem, p, LittleBytes(v, 2))
    ensures v >= 0 ==> Wrap(Little(mem, p, 2)) == Wrap(v)
    ensures v < 0x8000 ==> LittleSigned(mem, p, 2) == Wrap(v)
  {
    hide Little;
    hide LittleBytes;
    hide Pow2;
    hide Wrap;
    SixteenBits();
    LittleReadsBack(mem, p, v, 2);
    LittleTwo(mem, p);
    TopBit(v, mem[p], mem[p + 1]);
  }

  lemma WrapsAlike(v: int)
    ensures var low := v % (WORD * WORD);
      Wrap(low) == Wrap(v) == Wrap(low - WORD * WORD)
  {
    var q := v / (WORD * WORD);
    assert v % (WORD * WORD) == v - WORD * (WORD * q);
  }

  lemma EightReadBack(mem: seq<byte>, p: nat, v: int)
    requires Holds(mem, p, LittleBytes(v, 8))
    ensures Wrap(Little(mem, p, 8)) == Wrap(v) == LittleSigned(mem, p, 8)
  {
    hide Little;
    hide LittleBytes;
    hide Pow2;
    hide Wrap;
    LittleReadsBack(mem, p, v, 8);
    WordIsPow2();
    Pow2Add(32, 32);
    WrapsAlike(v);
  }

  lemma FourReadBack(mem: seq<byte>, p: nat, v: int)
    requires Holds(mem, p, LittleBytes(v, 4))
    ensures Wrap(Little(mem, p, 4)) == Wrap(v) == LittleSigned(mem, p, 4)
  {
    hide Little;
    hide LittleBytes;
    hide Pow2;
    LittleReadsBack(mem, p, v, 4);
    WordIsPow2();
  }

  /** A number written in a format of a fixed size is read back, negative ones as the word they stand for. */
  lemma FixedReadsBack(mem: seq<byte>, format: nat, p: nat, v: int)
    requires IsFixed(format) && HasRoom(format, v) && Holds(mem, p, LittleBytes(v, WidthOf(format)))
    ensures Field(mem, format, p) == Some(Read(Wrap(v), p + WidthOf(format)))
  {
    hide Pow2;
    hide Little;
    hide LittleSigned;
    hide LittleBytes;
    match WidthOf(format) {
      case 2 => TwoReadBack(mem, p, v);
      case 4 => FourReadBack(mem, p, v);
      case _ => EightReadBack(mem, p, v);
    }
  }

  /** The two LEB128 formats. */
  lemma Leb128ReadsBack(mem: seq<byte>, p: nat, v: int)
    ensures 0 <= v < WORD && Holds(mem, p, Encode(v)) ==> Field(mem, 0x01, p) == Some(Read(v, p + |Encode(v)|))
    ensures -0x8000_0000 <= v < 0x8000_0000 && Holds(mem, p, EncodeSigned(v)) ==>
      Field(mem, 0x09, p) == Some(Read(Wrap(v), p + |EncodeSigned(v)|))
  {
    hide Encode;
    hide EncodeSigned;
    hide Holds;
    hide Pow2;
    WordIsPow2();
    if 0 <= v && v < WORD && Holds(mem, p, Encode(v)) {
      UnsignedHeld(mem, p, v);
    }
    if -0x8000_0000 <= v < 0x8000_0000 && Holds(mem, p, EncodeSigned(v)) {
      SignedHeld(mem, p, v);
    }
  }

  /** An aligned pointer is a word at the next address that is a multiple of four. */
  lemma AlignedReadsBack(mem: seq<byte>, base: nat, p: nat, at: nat, v: nat)
    requires p <= at < p + 4 && at % 4 == 0 && v < WORD && Holds(mem, at, LittleBytes(v, 4))
    ensures Encoded(mem, 0x50, base, p) == Some(Read(v, at + 4))
  {
    hide LittleBytes;
    WordReadsBack(mem, at, v);
  }
}
