/**
 The pointer encoding of the FDEs that share a CIE.  The reader keeps two cursors in step: one over
 the letters of the augmentation string, one over the fields those letters describe.
 */
module CieEncoding {
  import opened Common
  import opened Bits
  import opened Leb128
  import opened EncodedPointers

  const LETTER_Z: byte := 0x7A
  const LETTER_R: byte := 0x52
  const LETTER_P: byte := 0x50
  const LETTER_L: byte := 0x4C

  /** The end of the string at p. */
  function NulAt(mem: seq<byte>, p: nat): (r: Option<nat>)
    ensures r.Some? ==> p <= r.value < |mem| && mem[r.value] == 0
    decreases |mem| - p
  {
    if p >= |mem| then None
    else if mem[p] == 0 then Some(p)
    else NulAt(mem, p + 1)
  }

  /** The letters from aug on and the fields from p on. */
  function Augmentation(mem: seq<byte>, aug: nat, p: nat): Option<byte>
    decreases |mem| - aug
  {
    if aug >= |mem| then None
    else if mem[aug] == LETTER_R then (if p < |mem| then Some(mem[p]) else None)
    else if mem[aug] == LETTER_P then
      (if p >= |mem| then None
       else
         match Encoded(mem, mem[p] % 128, 0, p + 1)
         case None => None
         case Some(pointer) => Augmentation(mem, aug + 1, pointer.next))
    else if mem[aug] == LETTER_L then Augmentation(mem, aug + 1, p + 1)
    else Some(DW_EH_PE_absptr)
  }

  /** Behind the alignment factors and the return address column. */
  function SkipFactors(mem: seq<byte>, version: byte, p: nat): Option<nat> {
    match Unsigned128(mem, p)
    case None => None
    case Some(code) =>
      match Signed128(mem, code.next)
      case None => None
      case Some(align) =>
        if version == 1 then Some(align.next + 1)
        else
          match Unsigned128(mem, align.next)
          case None => None
          case Some(column) => Some(column.next)
  }

  /**
   The whole reading of a CIE: 8 bytes of length and id, the version, the augmentation string.  None
   where it would leave the memory or a decoder aborts.
   */
  function Encoding(mem: seq<byte>, cie: nat): Option<byte> {
    var aug := cie + 9;
    match NulAt(mem, aug)
    case None => None
    case Some(nul) =>
      var version := mem[cie + 8];
      if version >= 4 && nul + 2 >= |mem| then None
      else if version >= 4 && (mem[nul + 1] != PTR_SIZE || mem[nul + 2] != 0) then Some(DW_EH_PE_omit)
      else if mem[aug] != LETTER_Z then Some(DW_EH_PE_absptr)
      else
        match SkipFactors(mem, version, if version >= 4 then nul + 3 else nul + 1)
        case None => None
        case Some(q) =>
          match Unsigned128(mem, q)
          case None => None
          case Some(length) => Augmentation(mem, aug + 1, length.next)
  }

  method ReadSigned(mem: seq<byte>, p: nat) returns (next: Option<nat>)
    ensures next == (match Signed128(mem, p) case None => None case Some(r) => Some(r.next))
  {
    if !Readable(mem, p, WORD_BITS) {
      return None;
    }
    var _, q := ReadSleb128(mem, p, WORD_BITS);
    return Some(q);
  }

  method ReadFactors(mem: seq<byte>, version: byte, p: nat) returns (next: Option<nat>)
    ensures next == SkipFactors(mem, version, p)
  {
    hide Unsigned128;
    hide Signed128;
    var code := ReadUnsigned(mem, p);
    if code.None? {
      return None;
    }
    var align := ReadSigned(mem, code.value.next);
    if align.None? {
      return None;
    }
    if version == 1 {
      return Some(align.value + 1);
    }
    var column := ReadUnsigned(mem, align.value);
    return if column.None? then None else Some(column.value.next);
  }

  /** The loop over the letters. */
  method ReadAugmentation(mem: seq<byte>, start: nat, data: nat) returns (r: Option<byte>)
    ensures r == Augmentation(mem, start, data)
  {
    hide Encoded;
    var aug: nat, p: nat := start, data;
    while aug < |mem|
      invariant Augmentation(mem, aug, p) == Augmentation(mem, start, data)
      decreases |mem| - aug
    {
      if mem[aug] == LETTER_R {
        return if p < |mem| then Some(mem[p]) else None;
      } else if mem[aug] == LETTER_P {
        if p >= |mem| {
          return None;
        }
        var pointer := ReadEncodedValueWithBase(mem, mem[p] % 128, 0, p + 1);
        if pointer.None? {
          return None;
        }
        p := pointer.value.next;
      } else if mem[aug] == LETTER_L {
        p := p + 1;
      } else {
        return Some(DW_EH_PE_absptr);
      }
      aug := aug + 1;
    }
    return None;
  }

  method GetCieEncoding(mem: seq<byte>, cie: nat) returns (r: Option<byte>)
    ensures r == Encoding(mem, cie)
  {
    hide Unsigned128;
    hide SkipFactors;
    hide Augmentation;
    var aug: nat := cie + 9;
    var p: nat := aug;
    while p < |mem| && mem[p] != 0
      invariant aug <= p && NulAt(mem, p) == NulAt(mem, aug)
      decreases |mem| - p
    {
      p := p + 1;
    }
    if p >= |mem| {
      return None;
    }
    p := p + 1;
    var version := mem[cie + 8];
    if version >= 4 {
      if p + 1 >= |mem| {
        return None;
      }
      if mem[p] != PTR_SIZE || mem[p + 1] != 0 {
        return Some(DW_EH_PE_omit);
      }
      p := p + 2;
    }
    if mem[aug] != LETTER_Z {
      return Some(DW_EH_PE_absptr);
    }
    var q := ReadFactors(mem, version, p);
    if q.None? {
      return None;
    }
    var length := ReadUnsigned(mem, q.value);
    if length.None? {
      return None;
    }
    r := ReadAugmentation(mem, aug + 1, length.value.next);
  }

  // ----- CIEs as they are written -----

  /** A field before the FDE encoding: of a personality routine or of the language-specific data. */
  datatype Part = Personality(encoding: byte, pointer: seq<byte>) | Lsda(encoding: byte)

  function Letter(f: Part): byte {
    if f.Personality? then LETTER_P else LETTER_L
  }

  function Bytes(f: Part): (r: seq<byte>)
    ensures r != []
  {
    if f.Personality? then [f.encoding] + f.pointer else [f.encoding]
  }

  /** The pointer of a personality field is as long as its encoding says, alignment included. */
  ghost predicate Fits(mem: seq<byte>, p: nat, f: Part) {
    f.Personality? ==>
      && Encoded(mem, f.encoding % 128, 0, p + 1).Some?
      && Encoded(mem, f.encoding % 128, 0, p + 1).value.next == p + 1 + |f.pointer|
  }

  /** The letters at aug and the data at p stand for these fields and then the FDE encoding. */
  ghost predicate Augmented(mem: seq<byte>, aug: nat, p: nat, fields: seq<Part>, fdeEncoding: byte)
    decreases |fields|
  {
    if fields == [] then aug < |mem| && mem[aug] == LETTER_R && p < |mem| && mem[p] == fdeEncoding
    else
      && aug < |mem| && mem[aug] == Letter(fields[0])
      && Holds(mem, p, Bytes(fields[0])) && Fits(mem, p, fields[0])
      && Augmented(mem, aug + 1, p + |Bytes(fields[0])|, fields[1..], fdeEncoding)
  }

  /** One letter and its field are passed together. */
  lemma PartIsPassed(mem: seq<byte>, aug: nat, p: nat, fields: seq<Part>, fdeEncoding: byte)
    requires fields != [] && Augmented(mem, aug, p, fields, fdeEncoding)
    ensures Augmentation(mem, aug, p) == Augmentation(mem, aug + 1, p + |Bytes(fields[0])|)
    ensures Augmented(mem, aug + 1, p + |Bytes(fields[0])|, fields[1..], fdeEncoding)
  {
    hide Encoded;
    var f := fields[0];
    assert mem[p] == mem[p..p + |Bytes(f)|][0] == f.encoding;
  }

  lemma NoPartLeft(mem: seq<byte>, aug: nat, p: nat, fdeEncoding: byte)
    requires Augmented(mem, aug, p, [], fdeEncoding)
    ensures Augmentation(mem, aug, p) == Some(fdeEncoding)
  {
  }

  /** Whatever fields come before it, the byte recorded for the letter R is what is returned. */
  lemma {:induction false} RecordedIsReturned(mem: seq<byte>, aug: nat, p: nat, fields: seq<Part>, fdeEncoding: byte)
    requires Augmented(mem, aug, p, fields, fdeEncoding)
    ensures Augmentation(mem, aug, p) == Some(fdeEncoding)
    decreases |fields|
  {
    hide *;
    if fields == [] {
      NoPartLeft(mem, aug, p, fdeEncoding);
    } else {
      PartIsPassed(mem, aug, p, fields, fdeEncoding);
      RecordedIsReturned(mem, aug + 1, p + |Bytes(fields[0])|, fields[1..], fdeEncoding);
    }
  }

  function Letters(fields: seq<Part>): (r: seq<byte>)
    ensures |r| == |fields| && forall i :: 0 <= i < |r| ==> r[i] != 0
  {
    if fields == [] then [] else [Letter(fields[0])] + Letters(fields[1..])
  }

  function Data(fields: seq<Part>): seq<byte> {
    if fields == [] then [] else Bytes(fields[0]) + Data(fields[1..])
  }

  /** A LEB128 string of any value, in any number of bytes that a word can take. */
  predicate IsLeb128(s: seq<byte>) {
    && 0 < |s| && 7 * (|s| - 1) < WORD_BITS
    && s[|s| - 1] < 128 && forall i :: 0 <= i < |s| - 1 ==> s[i] >= 128
  }

  /** The bytes of a pointer at p in this encoding, with the padding in front of an aligned one. */
  predicate IsPointer(encoding: byte, p: nat, bytes: seq<byte>) {
    if encoding == DW_EH_PE_aligned then |bytes| == AlignUp(p) - p + PTR_SIZE
    else if encoding % 16 in {0x01, 0x09} then IsLeb128(bytes)
    else IsFixed(encoding % 16) && SizeOfEncodedValue(encoding) == Some(|bytes|)
  }

  /** A field at p as a producer may write it, for every encoding the reader knows. */
  predicate Proper(f: Part, p: nat) {
    f.Personality? ==> IsPointer(f.encoding % 128, p + 1, f.pointer)
  }

  predicate AllProper(fields: seq<Part>, p: nat) {
    fields == [] || (Proper(fields[0], p) && AllProper(fields[1..], p + |Bytes(fields[0])|))
  }

  lemma {:induction false} StringEnds(mem: seq<byte>, p: nat, s: seq<byte>)
    requires s != [] && Holds(mem, p, s) && s[|s| - 1] < 128 && forall i :: 0 <= i < |s| - 1 ==> s[i] >= 128
    ensures End(mem, p) == Some(p + |s|)
    decreases |s|
  {
    FirstHeld(mem, p, s);
    if |s| > 1 {
      assert s == s[..1] + s[1..];
      HoldsSplit(mem, p, s[..1], s[1..]);
      StringEnds(mem, p + 1, s[1..]);
    }
  }

  lemma FixedFits(mem: seq<byte>, encoding: byte, p: nat)
    requires IsFixed(encoding % 16) && encoding < 128
      && encoding != DW_EH_PE_aligned
    requires SizeOfEncodedValue(encoding).Some? && p + SizeOfEncodedValue(encoding).value <= |mem|
    ensures Encoded(mem, encoding, 0, p).Some?
    ensures Encoded(mem, encoding, 0, p).value.next == p + SizeOfEncodedValue(encoding).value
  {
    assert encoding % 8 == encoding % 16 % 8;
    assert Field(mem, encoding % 16, p).Some?;
    SizeIsAdvance(mem, encoding, 0, p);
  }

  lemma PointerFits(mem: seq<byte>, encoding: byte, p: nat, bytes: seq<byte>)
    requires encoding < 128 && IsPointer(encoding, p, bytes) && Holds(mem, p, bytes)
    ensures Encoded(mem, encoding, 0, p).Some? && Encoded(mem, encoding, 0, p).value.next == p + |bytes|
  {
    hide Little;
    hide LittleSigned;
    hide Value;
    hide SignedValue;
    if encoding != DW_EH_PE_aligned {
      if encoding % 16 in {0x01, 0x09} {
        StringEnds(mem, p, bytes);
        BasedAdvance(mem, encoding, 0, p, Field(mem, encoding % 16, p).value);
      } else {
        FixedFits(mem, encoding, p);
      }
    }
  }

  lemma ProperFits(mem: seq<byte>, p: nat, f: Part)
    requires Proper(f, p) && Holds(mem, p, Bytes(f))
    ensures Fits(mem, p, f)
  {
    hide Encoded;
    hide IsPointer;
    hide Holds;
    if f.Personality? {
      HoldsSplit(mem, p, [f.encoding], f.pointer);
      PointerFits(mem, f.encoding % 128, p + 1, f.pointer);
    }
  }

  /** The first letter and field of what is written, and the rest of it. */
  lemma WrittenStep(mem: seq<byte>, aug: nat, p: nat, fields: seq<Part>, fdeEncoding: byte)
    requires fields != [] && Proper(fields[0], p)
    requires Holds(mem, aug, Letters(fields) + [LETTER_R]) && Holds(mem, p, Data(fields) + [fdeEncoding])
    ensures aug < |mem| && mem[aug] == Letter(fields[0])
    ensures Holds(mem, p, Bytes(fields[0])) && Fits(mem, p, fields[0])
    ensures Holds(mem, aug + 1, Letters(fields[1..]) + [LETTER_R])
    ensures Holds(mem, p + |Bytes(fields[0])|, Data(fields[1..]) + [fdeEncoding])
  {
    hide Holds;
    hide Proper;
    hide Fits;
    hide Bytes;
    var f, rest := fields[0], fields[1..];
    assert Letters(fields) + [LETTER_R] == [Letter(f)] + (Letters(rest) + [LETTER_R]);
    assert Data(fields) + [fdeEncoding] == Bytes(f) + (Data(rest) + [fdeEncoding]);
    HoldsSplit(mem, aug, [Letter(f)], Letters(rest) + [LETTER_R]);
    HoldsSplit(mem, p, Bytes(f), Data(rest) + [fdeEncoding]);
    FirstHeld(mem, aug, [Letter(f)]);
    ProperFits(mem, p, f);
  }

  lemma {:induction false} WrittenIsAugmented(mem: seq<byte>, aug: nat, p: nat, fields: seq<Part>, fdeEncoding: byte)
    requires AllProper(fields, p)
    requires Holds(mem, aug, Letters(fields) + [LETTER_R]) && Holds(mem, p, Data(fields) + [fdeEncoding])
    ensures Augmented(mem, aug, p, fields, fdeEncoding)
    decreases |fields|
  {
    hide Proper;
    hide Fits;
    hide Bytes;
    if fields == [] {
      assert mem[aug] == mem[aug..aug + 1][0] && mem[p] == mem[p..p + 1][0];
    } else {
      WrittenStep(mem, aug, p, fields, fdeEncoding);
      hide Letters;
      hide Data;
      hide Holds;
      WrittenIsAugmented(mem, aug + 1, p + |Bytes(fields[0])|, fields[1..], fdeEncoding);
    }
  }

  // ----- the whole CIE -----

  /** What a producer writes behind the version, with augmentation "z", the fields, R and more letters. */
  datatype Cie = Cie(version: byte, codeAlign: nat, dataAlign: int, column: nat, fields: seq<Part>, fdeEncoding: byte,
                     moreLetters: seq<byte>, moreData: seq<byte>)

  ghost predicate Writable(c: Cie) {
    && c.codeAlign < Pow2(WORD_BITS) && FitsSigned(c.dataAlign, WORD_BITS)
    && (if c.version == 1 then c.column < 256 else c.column < Pow2(WORD_BITS))
    && (forall i :: 0 <= i < |c.moreLetters| ==> c.moreLetters[i] != 0)
    && |AllData(c)| < Pow2(WORD_BITS)
  }

  function AllData(c: Cie): seq<byte> {
    Data(c.fields) + [c.fdeEncoding] + c.moreData
  }

  function Name(c: Cie): (r: seq<byte>) {
    [LETTER_Z] + (Letters(c.fields) + [LETTER_R] + c.moreLetters)
  }

  function AddressSizes(c: Cie): seq<byte> {
    if c.version >= 4 then [PTR_SIZE, 0] else []
  }

  function Column(c: Cie): seq<byte>
    requires Writable(c)
  {
    if c.version == 1 then [c.column] else Encode(c.column)
  }

  function Factors(c: Cie): seq<byte>
    requires Writable(c)
  {
    Encode(c.codeAlign) + (EncodeSigned(c.dataAlign) + Column(c))
  }

  function Written(c: Cie): seq<byte>
    requires Writable(c)
  {
    [c.version] + (Name(c) + ([0] + (AddressSizes(c) + (Factors(c) + (Encode(|AllData(c)|) + AllData(c))))))
  }

  /** Where the fields are when the CIE is at cie. */
  function DataAt(c: Cie, cie: nat): nat
    requires Writable(c)
  {
    cie + 10 + |Name(c)| + |AddressSizes(c)| + |Factors(c)| + |Encode(|AllData(c)|)|
  }

  lemma FactorsHeld(mem: seq<byte>, p: nat, c: Cie)
    requires Writable(c) && Holds(mem, p, Factors(c))
    ensures SkipFactors(mem, c.version, p) == Some(p + |Factors(c)|)
  {
    hide Encode;
    hide EncodeSigned;
    hide Pow2;
    hide FitsSigned;
    hide Unsigned128;
    hide Signed128;
    hide Holds;
    HoldsSplit(mem, p, Encode(c.codeAlign), EncodeSigned(c.dataAlign) + Column(c));
    HoldsSplit(mem, p + |Encode(c.codeAlign)|, EncodeSigned(c.dataAlign), Column(c));
    UnsignedHeld(mem, p, c.codeAlign);
    SignedHeld(mem, p + |Encode(c.codeAlign)|, c.dataAlign);
    if c.version != 1 {
      UnsignedHeld(mem, p + |Encode(c.codeAlign)| + |EncodeSigned(c.dataAlign)|, c.column);
    }
  }

  lemma {:induction false} NulFound(mem: seq<byte>, p: nat, s: seq<byte>)
    requires Holds(mem, p, s + [0]) && forall i :: 0 <= i < |s| ==> s[i] != 0
    ensures NulAt(mem, p) == Some(p + |s|)
    decreases |s|
  {
    if s == [] {
      assert mem[p] == mem[p..p + 1][0];
    } else {
      assert s + [0] == s[..1] + (s[1..] + [0]);
      HoldsSplit(mem, p, s[..1], s[1..] + [0]);
      assert mem[p] == mem[p..p + 1][0];
      NulFound(mem, p + 1, s[1..]);
    }
  }

  /** Where the parts of a written CIE are. */
  lemma WrittenParts(mem: seq<byte>, cie: nat, c: Cie)
    requires Writable(c) && Holds(mem, cie + 8, Written(c))
    ensures var nul := cie + 9 + |Name(c)|;
      var p := nul + 1 + |AddressSizes(c)|;
      var length := Encode(|AllData(c)|);
      var data := p + |Factors(c)| + |length|;
      && Holds(mem, cie + 8, [c.version]) && Holds(mem, cie + 9, [LETTER_Z]) && Holds(mem, cie + 9, Name(c) + [0])
      && Holds(mem, cie + 10, Letters(c.fields) + [LETTER_R])
      && Holds(mem, nul + 1, AddressSizes(c)) && Holds(mem, p, Factors(c)) && Holds(mem, p + |Factors(c)|, length)
      && Holds(mem, data, Data(c.fields) + [c.fdeEncoding])
  {
    hide Factors;
    hide Encode;
    hide Holds;
    hide Letters;
    hide Data;
    hide AddressSizes;
    var data := AllData(c);
    var afterFactors := Encode(|data|) + data;
    var afterSizes := Factors(c) + afterFactors;
    var afterNul := AddressSizes(c) + afterSizes;
    var nul := cie + 9 + |Name(c)|;
    var p := nul + 1 + |AddressSizes(c)|;
    HoldsSplit(mem, cie + 8, [c.version], Name(c) + ([0] + afterNul));
    assert Name(c) + ([0] + afterNul) == (Name(c) + [0]) + afterNul;
    HoldsSplit(mem, cie + 9, Name(c) + [0], afterNul);
    var letters := Letters(c.fields) + [LETTER_R];
    assert Name(c) + [0] == [LETTER_Z] + (letters + (c.moreLetters + [0]));
    HoldsSplit(mem, cie + 9, [LETTER_Z], letters + (c.moreLetters + [0]));
    HoldsSplit(mem, cie + 10, letters, c.moreLetters + [0]);
    HoldsSplit(mem, nul + 1, AddressSizes(c), afterSizes);
    HoldsSplit(mem, p, Factors(c), afterFactors);
    HoldsSplit(mem, p + |Factors(c)|, Encode(|data|), data);
    HoldsSplit(mem, p + |Factors(c)| + |Encode(|data|)|, Data(c.fields) + [c.fdeEncoding], c.moreData);
  }

  /** The single bytes among the parts. */
  lemma WrittenBytes(mem: seq<byte>, cie: nat, c: Cie)
    requires Writable(c) && Holds(mem, cie + 8, [c.version]) && Holds(mem, cie + 9, [LETTER_Z])
    requires Holds(mem, cie + 10 + |Name(c)|, AddressSizes(c))
    ensures cie + 9 < |mem| && mem[cie + 8] == c.version && mem[cie + 9] == LETTER_Z
    ensures c.version >= 4 ==>
      cie + 11 + |Name(c)| < |mem| && mem[cie + 10 + |Name(c)|] == PTR_SIZE && mem[cie + 11 + |Name(c)|] == 0
  {
    hide Name;
    var at := cie + 10 + |Name(c)|;
    assert mem[cie + 8] == mem[cie + 8..cie + 9][0] && mem[cie + 9] == mem[cie + 9..cie + 10][0];
    if c.version >= 4 {
      assert mem[at] == mem[at..at + 2][0] && mem[at + 1] == mem[at..at + 2][1];
    }
  }

  lemma NameHasNoNul(c: Cie)
    requires Writable(c)
    ensures forall i :: 0 <= i < |Name(c)| ==> Name(c)[i] != 0
  {
  }

  /** The reading of a CIE, given where its parts are. */
  lemma EncodingOf(mem: seq<byte>, cie: nat, nul: nat, q: nat, data: nat)
    requires NulAt(mem, cie + 9) == Some(nul) && mem[cie + 9] == LETTER_Z
    requires mem[cie + 8] >= 4 ==> nul + 2 < |mem| && mem[nul + 1] == PTR_SIZE && mem[nul + 2] == 0
    requires SkipFactors(mem, mem[cie + 8], if mem[cie + 8] >= 4 then nul + 3 else nul + 1) == Some(q)
    requires Unsigned128(mem, q).Some? && Unsigned128(mem, q).value.next == data
    ensures Encoding(mem, cie) == Augmentation(mem, cie + 10, data)
  {
    hide Unsigned128;
    hide SkipFactors;
    hide Augmentation;
  }

  /** Reading inverts writing: whatever precedes R, in any encoding, for every version, at every address. */
  lemma WrittenEncodingIsRead(mem: seq<byte>, cie: nat, c: Cie)
    requires Writable(c) && AllProper(c.fields, DataAt(c, cie)) && Holds(mem, cie + 8, Written(c))
    ensures Encoding(mem, cie) == Some(c.fdeEncoding)
  {
    hide Written;
    hide Name;
    hide Factors;
    hide AllData;
    hide Holds;
    hide Encode;
    hide NulAt;
    hide SkipFactors;
    hide Unsigned128;
    hide Augmentation;
    hide Augmented;
    hide Encoding;
    hide Letters;
    hide Data;
    hide AllProper;
    var nul := cie + 9 + |Name(c)|;
    var p := nul + 1 + |AddressSizes(c)|;
    var q := p + |Factors(c)|;
    var data := q + |Encode(|AllData(c)|)|;
    WrittenParts(mem, cie, c);
    WrittenBytes(mem, cie, c);
    NameHasNoNul(c);
    NulFound(mem, cie + 9, Name(c));
    FactorsHeld(mem, p, c);
    UnsignedHeld(mem, q, |AllData(c)|);
    WrittenIsAugmented(mem, cie + 10, data, c.fields, c.fdeEncoding);
    RecordedIsReturned(mem, cie + 10, data, c.fields, c.fdeEncoding);
    EncodingOf(mem, cie, nul, q, data);
  }

  /**
   CIEs that record no encoding for their FDEs: from version 4 on with other addresses than words or with
   segments, they cannot be used; without augmentation data, or with a letter nobody knows before R or
   with none at all, their FDEs have absolute pointers.
   */
  lemma NoneRecorded(mem: seq<byte>, cie: nat, nul: nat)
    requires NulAt(mem, cie + 9) == Some(nul) && nul + 2 < |mem|
    ensures mem[cie + 8] >= 4 && (mem[nul + 1] != 4 || mem[nul + 2] != 0) ==> Encoding(mem, cie) == Some(0xFF)
    ensures mem[cie + 9] != 0x7A && (mem[cie + 8] >= 4 ==> mem[nul + 1] == 4 && mem[nul + 2] == 0) ==>
      Encoding(mem, cie) == Some(0x00)
    ensures forall aug, p :: cie <= aug < |mem| && mem[aug] !in {0x52, 0x50, 0x4C} ==>
      Augmentation(mem, aug, p) == Some(0x00)
  {
  }
}
