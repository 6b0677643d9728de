/**
 Directory slots of a FAT volume: the checksum that ties long-name slots to their short entry, the
 slots written for a name, the listing that reads names back, and the choice of a short alias.
 */
module FatNames {
  import opened Common
  import opened Bits
  import opened FatLayout

  const SLOT := 32
  const ATTR_DIRECTORY: byte := 0x10
  const ATTR_LONG_NAME: byte := 0x0F
  const DELETED: byte := 0xE5

  /** A 16-bit code unit. */
  type Unit = x: int | 0 <= x < 65536

  type Name = seq<Unit>

  /** 32 bytes of a directory. */
  type Slot = seq<byte>

  ghost predicate AreSlots(slots: seq<Slot>) {
    forall i :: 0 <= i < |slots| ==> |slots[i]| == SLOT
  }

  // ----- short-name checksum -----

  function Turn(total: byte): byte {
    total % 2 * 128 + total / 2
  }

  function ChecksumFrom(total: byte, bytes: seq<byte>): byte
    decreases |bytes|
  {
    if bytes == [] then total else ChecksumFrom((Turn(total) + bytes[0]) % 256, bytes[1..])
  }

  method ShortNameChecksum(eleven: seq<byte>) returns (total: byte)
    ensures total == ChecksumFrom(0, eleven)
  {
    total := 0;
    for i := 0 to |eleven|
      invariant ChecksumFrom(total, eleven[i..]) == ChecksumFrom(0, eleven)
    {
      total := (total % 2 * 128 + total / 2 + eleven[i]) % 256;
    }
  }

  /** The total is turned to the right: its lowest bit becomes the highest one. */
  lemma TurnsRight(total: byte, k: nat)
    requires k < 8
    ensures Bit(Turn(total), k) <==> Bit(total, if k == 7 then 0 else k + 1)
  {
    ByteBound(7);
    assert Pow2(7) == 128;
    var high := total % 2;
    OrAdds(total / 2, high, 7);
    OrBit(total / 2, high * Pow2(7), k);
    PowerBit(7, k);
    ZeroHasNoBit(k);
    if k == 7 {
      BelowHasNoBit(total / 2, 7, 7);
    }
  }

  /** The checksum starts with 0; for each byte it is turned and the byte added, modulo 256. */
  lemma {:induction false} ChecksumStep(total: byte, bytes: seq<byte>, b: byte)
    ensures ChecksumFrom(0, []) == 0
    ensures ChecksumFrom(total, bytes + [b]) == (Turn(ChecksumFrom(total, bytes)) + b) % 256
    decreases |bytes|
  {
    var all := bytes + [b];
    if bytes == [] {
      assert all[1..] == [];
    } else {
      assert all[1..] == bytes[1..] + [b];
      ChecksumStep((Turn(total) + bytes[0]) % 256, bytes[1..], b);
    }
  }

  /** The checksum never confuses two running totals. */
  lemma {:induction false} ChecksumInjective(s: byte, t: byte, bytes: seq<byte>)
    requires s != t
    ensures ChecksumFrom(s, bytes) != ChecksumFrom(t, bytes)
    decreases |bytes|
  {
    if bytes != [] {
      assert Turn(s) != Turn(t);
      ChecksumInjective((Turn(s) + bytes[0]) % 256, (Turn(t) + bytes[0]) % 256, bytes[1..]);
    }
  }

  /** Two names that differ in exactly one byte have different checksums. */
  lemma {:induction false} ChecksumDetectsOneByte(total: byte, a: seq<byte>, b: seq<byte>, k: nat)
    requires |a| == |b| && k < |a| && a[k] != b[k]
    requires forall i :: 0 <= i < |a| && i != k ==> a[i] == b[i]
    ensures ChecksumFrom(total, a) != ChecksumFrom(total, b)
    decreases |a|
  {
    if k == 0 {
      assert a[1..] == b[1..];
      ChecksumInjective((Turn(total) + a[0]) % 256, (Turn(total) + b[0]) % 256, a[1..]);
    } else {
      ChecksumDetectsOneByte((Turn(total) + a[0]) % 256, a[1..], b[1..], k - 1);
    }
  }

  // ----- the slots written for one entry -----

  function WordByte(codes: seq<Unit>, i: nat): byte
    requires i < 2 * |codes|
  {
    if i % 2 == 0 then codes[i / 2] % 256 else codes[i / 2] / 256
  }

  /** Byte i of a long-name slot: five, six and two code units around the fixed fields. */
  function LongByte(ordinal: byte, checksum: byte, codes: seq<Unit>, i: nat): byte
    requires |codes| == 13 && i < SLOT
  {
    if i == 0 then ordinal
    else if i < 11 then WordByte(codes, i - 1)
    else if i == 11 then ATTR_LONG_NAME
    else if i == 13 then checksum
    else if 14 <= i < 26 then WordByte(codes, i - 4)
    else if 28 <= i then WordByte(codes, i - 6)
    else 0
  }

  function LongSlot(ordinal: byte, checksum: byte, codes: seq<Unit>): (r: Slot)
    requires |codes| == 13
    ensures |r| == SLOT
  {
    seq(SLOT, i requires 0 <= i < SLOT => LongByte(ordinal, checksum, codes, i))
  }

  /** Where code unit i of a long-name slot is stored. */
  function UnitOffset(i: nat): nat {
    if i < 5 then 1 + 2 * i else if i < 11 then 4 + 2 * i else 6 + 2 * i
  }

  function UnitAt(slot: Slot, at: nat): Unit
    requires at + 2 <= |slot|
  {
    U16(slot, at)
  }

  /** The 13 code units of a long-name slot. */
  function Codes(slot: Slot): (r: seq<Unit>)
    requires |slot| == SLOT
    ensures |r| == 13
  {
    seq(13, i requires 0 <= i < 13 => UnitAt(slot, UnitOffset(i)))
  }

  lemma LongUnitAt(ordinal: byte, checksum: byte, codes: seq<Unit>, i: nat)
    requires |codes| == 13 && i < 13
    ensures UnitAt(LongSlot(ordinal, checksum, codes), UnitOffset(i)) == codes[i]
  {
    var at := UnitOffset(i);
    assert LongByte(ordinal, checksum, codes, at) == WordByte(codes, 2 * i);
    assert LongByte(ordinal, checksum, codes, at + 1) == WordByte(codes, 2 * i + 1);
  }

  /** What is packed into a long-name slot is unpacked again. */
  lemma LongSlotFields(ordinal: byte, checksum: byte, codes: seq<Unit>)
    requires |codes| == 13
    ensures var slot := LongSlot(ordinal, checksum, codes);
      slot[0] == ordinal && slot[11] == ATTR_LONG_NAME && slot[13] == checksum && Codes(slot) == codes
  {
    forall i | 0 <= i < 13 {
      LongUnitAt(ordinal, checksum, codes, i);
    }
  }

  /** How many chunks of 13 code units a name needs; one that is empty if the name is. */
  function ChunkCount(name: Name): (n: nat)
    ensures name != [] ==> 13 * n - 13 < |name| <= 13 * n
    ensures name == [] ==> n == 1
  {
    if name == [] then 1 else (|name| + 12) / 13
  }

  function Chunk(name: Name, k: nat): (r: Name)
    requires k < ChunkCount(name)
    ensures |r| <= 13
  {
    if 13 * k + 13 <= |name| then name[13 * k..13 * k + 13] else name[13 * k..]
  }

  function Fill(n: nat): (r: seq<Unit>)
    ensures |r| == n && forall i :: 0 <= i < n ==> r[i] == 0xFFFF
  {
    seq(n, _ => 0xFFFF)
  }

  /** The code units stored for one chunk: a terminator and filler follow a short one. */
  function Padded(chunk: Name): (r: seq<Unit>)
    requires |chunk| <= 13
    ensures |r| == 13
  {
    if |chunk| < 13 then chunk + [0] + Fill(12 - |chunk|) else chunk
  }

  /** The ordinal byte: bit 6 marks the last chunk of the name, which is stored first. */
  function Ordinal(index: nat, count: nat): byte
    requires 1 <= index <= count <= 255
  {
    if index == count && index / 64 % 2 == 0 then index + 64 else index
  }

  function ChunkSlot(name: Name, checksum: byte, index: nat): (r: Slot)
    requires 1 <= index <= ChunkCount(name) <= 255
    ensures |r| == SLOT
  {
    LongSlot(Ordinal(index, ChunkCount(name)), checksum, Padded(Chunk(name, index - 1)))
  }

  /** Five, six and two code units, low byte first, from bytes 1, 14 and 28 on. */
  lemma LongSlotLayout(ordinal: byte, checksum: byte, codes: seq<Unit>, i: nat)
    requires |codes| == 13
    ensures var slot := LongSlot(ordinal, checksum, codes);
      && slot[0] == ordinal && slot[11] == 0x0F && slot[12] == 0 && slot[13] == checksum && slot[26] == slot[27] == 0
      && (i < 5 ==> U16(slot, 1 + 2 * i) == codes[i])
      && (i < 6 ==> U16(slot, 14 + 2 * i) == codes[5 + i])
      && (i < 2 ==> U16(slot, 28 + 2 * i) == codes[11 + i])
  {
    FixedFields(ordinal, checksum, codes);
    hide LongSlot;
    hide U16;
    if i < 5 {
      LongUnitAt(ordinal, checksum, codes, i);
    }
    if i < 6 {
      LongUnitAt(ordinal, checksum, codes, 5 + i);
    }
    if i < 2 {
      LongUnitAt(ordinal, checksum, codes, 11 + i);
    }
  }

  lemma FixedFields(ordinal: byte, checksum: byte, codes: seq<Unit>)
    requires |codes| == 13
    ensures var slot := LongSlot(ordinal, checksum, codes);
      slot[0] == ordinal && slot[11] == 0x0F && slot[12] == 0 && slot[13] == checksum && slot[26] == slot[27] == 0
  {
  }

  lemma ChunkUnit(name: Name, index: nat, i: nat)
    requires 1 <= index <= ChunkCount(name) && i < 13
    ensures var at := 13 * (index - 1) + i;
      Padded(Chunk(name, index - 1))[i] == if at < |name| then name[at] else if at == |name| then 0 else 0xFFFF
  {
    var k := index - 1;
    assert |Chunk(name, k)| == if 13 * k + 13 <= |name| then 13 else |name| - 13 * k;
    if i < |Chunk(name, k)| {
      assert Chunk(name, k)[i] == name[13 * k + i];
    }
  }

  lemma OrdinalIs(index: nat, count: nat)
    requires 1 <= index <= count <= 255
    ensures Ordinal(index, count) % 64 == index % 64
    ensures if index == count then Ordinal(index, count) / 64 % 2 == 1 else Ordinal(index, count) as int == index
  {
  }

  /**
   A slot of a name holds one chunk of it, and behind the end of the name a terminator and filler.  Its
   ordinal counts the chunks, and bit 6 marks the last one.
   */
  lemma ChunkLayout(name: Name, checksum: byte, index: nat, i: nat)
    requires 1 <= index <= ChunkCount(name) <= 255 && i < 13
    ensures var slot := ChunkSlot(name, checksum, index);
      var at := 13 * (index - 1) + i;
      && Codes(slot)[i] == (if at < |name| then name[at] else if at == |name| then 0 else 0xFFFF)
      && slot[13] == checksum && slot[0] % 64 == index % 64
      && if index == ChunkCount(name) then slot[0] / 64 % 2 == 1 else slot[0] as int == index
  {
    LongSlotFields(Ordinal(index, ChunkCount(name)), checksum, Padded(Chunk(name, index - 1)));
    ChunkUnit(name, index, i);
    OrdinalIs(index, ChunkCount(name));
    hide LongSlot;
    hide Padded;
    hide Chunk;
    hide Codes;
    hide Ordinal;
  }

  /** The slots of chunks k, k-1, .., 1. */
  function LongSlots(name: Name, checksum: byte, k: nat): (r: seq<Slot>)
    requires k <= ChunkCount(name) <= 255
    ensures |r| == k && AreSlots(r)
  {
    if k == 0 then [] else [ChunkSlot(name, checksum, k)] + LongSlots(name, checksum, k - 1)
  }

  lemma FourDigits(v: nat)
    requires v < 0x1_0000_0000
    ensures v == v % 256 + 256 * (v / 256 % 256) + 65536 * (v / 65536 % 256) + 16777216 * (v / 16777216)
    ensures v / 16777216 < 256
  {
    assert v / 256 / 256 == v / 65536 && v / 65536 / 256 == v / 16777216;
  }

  function ShortEntry(short: seq<byte>, attributes: byte, first: nat, size: nat): (r: Slot)
    requires |short| == 11 && first < 65536 && size < 0x1_0000_0000
    ensures |r| == SLOT
    ensures r[..11] == short && r[0] == short[0] && r[11] == attributes && U16(r, 26) == first && U32(r, 28) == size
  {
    FourDigits(size);
    short + [attributes, 0, 0, 0, 0, 0, 0, 0, 0, 0, 0, 0x00, 0x80, 0x21, 0x5A, first % 256, first / 256,
             size % 256, size / 256 % 256, size / 65536 % 256, size / 16777216]
  }

  /** Every entry carries the same time and date, and nothing in the other fields. */
  lemma ShortEntryStamp(short: seq<byte>, attributes: byte, first: nat, size: nat)
    requires |short| == 11 && first < 65536 && size < 0x1_0000_0000
    ensures var r := ShortEntry(short, attributes, first, size);
      && U16(r, 22) == 0x8000 && U16(r, 24) == 0x5A21
      && forall i :: 12 <= i < 22 ==> r[i] == 0
  {
  }

  /** The long-name slots of an entry followed by its short entry. */
  function EntrySlots(name: Name, short: seq<byte>, attributes: byte, first: nat, size: nat): (r: seq<Slot>)
    requires ChunkCount(name) <= 255 && |short| == 11 && first < 65536 && size < 0x1_0000_0000
    ensures AreSlots(r) && |r| == ChunkCount(name) + 1
  {
    LongSlots(name, ChecksumFrom(0, short), ChunkCount(name)) + [ShortEntry(short, attributes, first, size)]
  }

  /** Builds the slots first chunk first and turns them round; more than 255 chunks do not fit the ordinal byte. */
  method MakeEntrySlots(name: Name, short: seq<byte>, attributes: byte, first: nat, size: nat)
    returns (r: Option<seq<Slot>>)
    requires |short| == 11 && first < 65536 && size < 0x1_0000_0000
    ensures r.Some? <==> ChunkCount(name) <= 255
    ensures r.Some? ==> r.value == EntrySlots(name, short, attributes, first, size)
  {
    var checksum := ShortNameChecksum(short);
    var count := ChunkCount(name);
    var slots: seq<Slot> := [];
    if count > 255 {
      return None;
    }
    for index := 1 to count + 1
      invariant slots == LongSlots(name, checksum, index - 1)
    {
      slots := [ChunkSlot(name, checksum, index)] + slots;
    }
    return Some(slots + [ShortEntry(short, attributes, first, size)]);
  }

  // ----- listing a directory -----

  /** The long-name slots collected since the last entry, by ordinal, and the checksum they carry. */
  datatype Pending = Pending(parts: map<nat, seq<Unit>>, checksum: Option<byte>)

  const NOTHING_PENDING := Pending(map[], None)

  predicate IsLong(slot: Slot)
    requires |slot| == SLOT
  {
    slot[0] != DELETED && slot[11] == ATTR_LONG_NAME
  }

  predicate IsEntry(slot: Slot)
    requires |slot| == SLOT
  {
    slot[0] != DELETED && slot[11] != ATTR_LONG_NAME
  }

  /** A slot that has been deleted starts with 0xE5; the attributes 0x0F mark one of a long name. */
  lemma SlotKinds(slot: Slot)
    requires |slot| == SLOT
    ensures IsLong(slot) <==> slot[0] != 0xE5 && slot[11] == 0x0F
    ensures IsEntry(slot) <==> slot[0] != 0xE5 && slot[11] != 0x0F
  {
  }

  function Collect(p: Pending, slot: Slot): Pending
    requires |slot| == SLOT
  {
    if IsLong(slot) then
      var q := if slot[0] / 64 % 2 == 1 then Pending(map[], Some(slot[13])) else p;
      q.(parts := q.parts[(slot[0] % 64) as nat := Codes(slot)])
    else p.(parts := map[])
  }

  /** The collected code units in ascending order of their ordinals, from k on. */
  function Assemble(parts: map<nat, seq<Unit>>, k: nat): seq<Unit>
    decreases 64 - k
  {
    if k >= 64 then [] else (if k in parts then parts[k] else []) + Assemble(parts, k + 1)
  }

  /** The name spelt by code units: it ends at the terminator, and filler is skipped. */
  function Spell(codes: seq<Unit>): Name {
    if codes == [] || codes[0] == 0 then []
    else if codes[0] == 0xFFFF then Spell(codes[1..])
    else [codes[0]] + Spell(codes[1..])
  }

  predicate IsBlank(b: byte) {
    9 <= b <= 13 || 28 <= b <= 32 || b == 133 || b == 160
  }

  function TrimRight(s: seq<byte>): seq<byte> {
    if s != [] && IsBlank(s[|s| - 1]) then TrimRight(s[..|s| - 1]) else s
  }

  function Widen(s: seq<byte>): Name {
    seq(|s|, i requires 0 <= i < |s| => s[i])
  }

  function ShortName(slot: Slot): Name
    requires |slot| == SLOT
  {
    var stem, ext := TrimRight(slot[..8]), TrimRight(slot[8..11]);
    Widen(stem) + (if ext != [] then [46] + Widen(ext) else [])
  }

  function NameOf(p: Pending, slot: Slot): Name
    requires |slot| == SLOT
  {
    var name := if p.parts != map[]
      && p.checksum == Some(ChecksumFrom(0, slot[..11])) then Spell(Assemble(p.parts, 0)) else [];
    if name == [] then ShortName(slot) else name
  }

  /** The live entries, with their names reassembled, up to the first slot that starts with 0. */
  function Listing(p: Pending, slots: seq<Slot>): seq<(Name, Slot)>
    requires AreSlots(slots)
    decreases |slots|
  {
    if slots == [] || slots[0][0] == 0 then []
    else
      (if IsEntry(slots[0]) then [(NameOf(p, slots[0]), slots[0])] else []) + Listing(Collect(p, slots[0]), slots[1..])
  }

  /** The generator over the slots of a directory. */
  method Entries(slots: seq<Slot>) returns (r: seq<(Name, Slot)>)
    requires AreSlots(slots)
    ensures r == Listing(NOTHING_PENDING, slots)
  {
    hide Collect;
    hide NameOf;
    var pending := NOTHING_PENDING;
    r := [];
    for i := 0 to |slots|
      invariant r + Listing(pending, slots[i..]) == Listing(NOTHING_PENDING, slots)
    {
      assert slots[i..][0] == slots[i] && slots[i..][1..] == slots[i + 1..];
      if slots[i][0] == 0 {
        break;
      }
      if IsEntry(slots[i]) {
        r := r + [(NameOf(pending, slots[i]), slots[i])];
      }
      pending := Collect(pending, slots[i]);
    }
  }

  /** No slot starts with 0, so that listing reads all of them. */
  ghost predicate Unterminated(slots: seq<Slot>) {
    AreSlots(slots) && forall i :: 0 <= i < |slots| ==> slots[i][0] != 0
  }

  function CollectAll(p: Pending, slots: seq<Slot>): Pending
    requires AreSlots(slots)
    decreases |slots|
  {
    if slots == [] then p else CollectAll(Collect(p, slots[0]), slots[1..])
  }

  lemma {:induction false} ListingConcat(p: Pending, a: seq<Slot>, b: seq<Slot>)
    requires Unterminated(a) && AreSlots(b)
    ensures Listing(p, a + b) == Listing(p, a) + Listing(CollectAll(p, a), b)
    decreases |a|
  {
    if a == [] {
      assert a + b == b;
    } else {
      assert (a + b)[0] == a[0] && (a + b)[1..] == a[1..] + b;
      ListingConcat(Collect(p, a[0]), a[1..], b);
    }
  }

  lemma {:induction false} ListingStops(p: Pending, a: seq<Slot>, b: seq<Slot>)
    requires Unterminated(a) && AreSlots(b) && (b == [] || b[0][0] == 0)
    ensures Listing(p, a + b) == Listing(p, a)
  {
    ListingConcat(p, a, b);
  }

  // ----- a written name is read back -----

  /** No terminator and no filler. */
  ghost predicate Plain(name: Name) {
    forall i :: 0 <= i < |name| ==> name[i] != 0 && name[i] != 0xFFFF
  }

  /** A name that long-name slots can represent exactly. */
  ghost predicate Representable(name: Name) {
    1 <= |name| <= 819 && Plain(name)
  }

  lemma {:induction false} SpellPlain(plain: Name, rest: seq<Unit>)
    requires Plain(plain)
    ensures Spell(plain + rest) == plain + Spell(rest)
  {
    if plain == [] {
      assert plain + rest == rest;
    } else {
      assert (plain + rest)[1..] == plain[1..] + rest;
      SpellPlain(plain[1..], rest);
      assert plain == [plain[0]] + plain[1..];
    }
  }

  /** Ordinals k + 1 .. count are collected, and nothing else. */
  ghost predicate Collected(p: Pending, name: Name, checksum: byte, k: nat)
    requires k <= ChunkCount(name)
  {
    p.checksum == Some(checksum) && PartsFrom(p.parts, name, k)
  }

  ghost predicate PartsFrom(parts: map<nat, seq<Unit>>, name: Name, k: nat)
    requires k <= ChunkCount(name)
  {
    && (forall i: nat :: i in parts <==> k < i <= ChunkCount(name))
    && forall i: nat :: k < i <= ChunkCount(name) ==> parts[i] == Padded(Chunk(name, i - 1))
  }

  lemma {:induction false} AssembleEmpty(parts: map<nat, seq<Unit>>, k: nat)
    requires forall i :: i in parts ==> i < k
    ensures Assemble(parts, k) == []
    decreases 64 - k
  {
    if k < 64 {
      AssembleEmpty(parts, k + 1);
    }
  }

  /** A full chunk is spelt before what follows it, and a short one ends the name. */
  lemma PaddedSpells(chunk: Name, rest: seq<Unit>)
    requires |chunk| <= 13 && Plain(chunk)
    ensures Spell(Padded(chunk) + rest) == if |chunk| == 13 then chunk + Spell(rest) else chunk
  {
    if |chunk| == 13 {
      SpellPlain(chunk, rest);
    } else {
      assert Padded(chunk) + rest == chunk + ([0] + Fill(12 - |chunk|) + rest);
      SpellPlain(chunk, [0] + Fill(12 - |chunk|) + rest);
    }
  }

  /** The name without its first k chunks. */
  function Rest(name: Name, k: nat): Name {
    if 13 * k <= |name| then name[13 * k..] else []
  }

  lemma ChunkFacts(name: Name, k: nat)
    requires Representable(name) && 1 <= k <= ChunkCount(name)
    ensures |Chunk(name, k - 1)| < 13 ==> Rest(name, k) == []
    ensures Rest(name, k - 1) == Chunk(name, k - 1) + Rest(name, k)
    ensures Plain(Chunk(name, k - 1))
  {
  }

  lemma AssembleEnd(parts: map<nat, seq<Unit>>, name: Name)
    requires Representable(name) && PartsFrom(parts, name, 0)
    ensures Spell(Assemble(parts, ChunkCount(name) + 1)) == Rest(name, ChunkCount(name))
  {
    AssembleEmpty(parts, ChunkCount(name) + 1);
    assert Rest(name, ChunkCount(name)) == [];
  }

  lemma AssembleStep(parts: map<nat, seq<Unit>>, name: Name, k: nat)
    requires Representable(name) && PartsFrom(parts, name, 0) && 1 <= k <= ChunkCount(name)
    requires Spell(Assemble(parts, k + 1)) == Rest(name, k)
    ensures Spell(Assemble(parts, k)) == Rest(name, k - 1)
  {
    var chunk := Chunk(name, k - 1);
    ChunkFacts(name, k);
    assert k in parts && parts[k] == Padded(chunk);
    assert Assemble(parts, k) == Padded(chunk) + Assemble(parts, k + 1);
    PaddedSpells(chunk, Assemble(parts, k + 1));
  }

  lemma {:induction false} AssembleSpells(parts: map<nat, seq<Unit>>, name: Name, k: nat, count: nat)
    requires Representable(name) && count == ChunkCount(name) && PartsFrom(parts, name, 0)
    requires 1 <= k <= count + 1
    ensures Spell(Assemble(parts, k)) == Rest(name, k - 1)
    decreases count + 1 - k
  {
    if k == count + 1 {
      AssembleEnd(parts, name);
    } else {
      AssembleSpells(parts, name, k + 1, count);
      AssembleStep(parts, name, k);
    }
  }

  lemma OrdinalBits(index: nat, count: nat)
    requires 1 <= index <= count <= 63
    ensures var o := Ordinal(index, count);
      o != 0 && o != DELETED && o % 64 == index && (o / 64 % 2 == 1 <==> index == count)
  {
  }

  lemma PartsAdd(parts: map<nat, seq<Unit>>, name: Name, k: nat)
    requires 1 <= k <= ChunkCount(name)
    requires PartsFrom(parts, name, k)
    ensures PartsFrom(parts[k := Padded(Chunk(name, k - 1))], name, k - 1)
  {
  }

  /** One more chunk is collected, whatever was pending if it is the last chunk of the name. */
  lemma CollectChunk(p: Pending, name: Name, checksum: byte, k: nat)
    requires Representable(name) && 1 <= k <= ChunkCount(name)
    requires k < ChunkCount(name) ==> Collected(p, name, checksum, k)
    ensures var slot := ChunkSlot(name, checksum, k);
      slot[0] != 0 && IsLong(slot) && Collected(Collect(p, slot), name, checksum, k - 1)
  {
    var slot := ChunkSlot(name, checksum, k);
    OrdinalBits(k, ChunkCount(name));
    LongSlotFields(Ordinal(k, ChunkCount(name)), checksum, Padded(Chunk(name, k - 1)));
    assert IsLong(slot) && (slot[0] % 64) as nat == k && Codes(slot) == Padded(Chunk(name, k - 1));
    var kept := if k == ChunkCount(name) then map[] else p.parts;
    PartsAdd(kept, name, k);
    assert Collect(p, slot).parts == kept[k := Padded(Chunk(name, k - 1))];
  }

  lemma AllCollected(p: Pending, name: Name, checksum: byte, entry: Slot)
    requires Representable(name) && Collected(p, name, checksum, 0)
    requires |entry| == SLOT && ChecksumFrom(0, entry[..11]) == checksum
    ensures NameOf(p, entry) == name
  {
    AssembleSpells(p.parts, name, 1, ChunkCount(name));
    assert Rest(name, 0) == name;
    assert 1 in p.parts && 0 !in p.parts;
    assert Assemble(p.parts, 0) == Assemble(p.parts, 1);
  }

  lemma ListingOne(p: Pending, entry: Slot)
    requires |entry| == SLOT && entry[0] != 0 && IsEntry(entry)
    ensures Listing(p, [entry]) == [(NameOf(p, entry), entry)]
  {
    assert [entry][1..] == [];
  }

  lemma {:induction false} LongSlotsListing(p: Pending, name: Name, checksum: byte, k: nat, entry: Slot)
    requires Representable(name) && k <= ChunkCount(name)
    requires k < ChunkCount(name) ==> Collected(p, name, checksum, k)
    requires |entry| == SLOT && entry[0] != 0 && IsEntry(entry) && ChecksumFrom(0, entry[..11]) == checksum
    ensures Listing(p, LongSlots(name, checksum, k) + [entry]) == [(name, entry)]
    decreases k
  {
    hide Collect;
    hide NameOf;
    hide IsLong;
    hide ChunkSlot;
    var slots := LongSlots(name, checksum, k) + [entry];
    if k == 0 {
      assert slots == [entry];
      AllCollected(p, name, checksum, entry);
      ListingOne(p, entry);
    } else {
      var slot := ChunkSlot(name, checksum, k);
      CollectChunk(p, name, checksum, k);
      assert slots[0] == slot && slots[1..] == LongSlots(name, checksum, k - 1) + [entry];
      LongSlotsListing(Collect(p, slot), name, checksum, k - 1, entry);
    }
  }

  /** The first byte of an alias is neither an end mark, a deletion mark nor a dot. */
  ghost predicate IsAlias(short: seq<byte>) {
    |short| == 11 && short[0] !in {0, DELETED, 0x2E}
  }

  lemma {:induction false} LongSlotsUnterminated(name: Name, checksum: byte, k: nat)
    requires k <= ChunkCount(name) <= 255
    ensures Unterminated(LongSlots(name, checksum, k))
    ensures forall i :: 0 <= i < k ==> LongSlots(name, checksum, k)[i][11] == ATTR_LONG_NAME
  {
    if k > 0 {
      LongSlotFields(Ordinal(k, ChunkCount(name)), checksum, Padded(Chunk(name, k - 1)));
      LongSlotsUnterminated(name, checksum, k - 1);
    }
  }

  /** Whatever slots a directory holds, appending an entry appends its exact name to the listing. */
  lemma AppendListing(p: Pending, slots: seq<Slot>, name: Name, short: seq<byte>, attributes: byte, first: nat,
                      size: nat)
    requires Unterminated(slots) && Representable(name) && IsAlias(short) && attributes != ATTR_LONG_NAME
    requires first < 65536 && size < 0x1_0000_0000
    ensures Unterminated(slots + EntrySlots(name, short, attributes, first, size))
    ensures Listing(p, slots + EntrySlots(name, short, attributes, first, size))
         == Listing(p, slots) + [(name, ShortEntry(short, attributes, first, size))]
  {
    var checksum := ChecksumFrom(0, short);
    ListingConcat(p, slots, EntrySlots(name, short, attributes, first, size));
    LongSlotsListing(CollectAll(p, slots), name, checksum, ChunkCount(name),
                     ShortEntry(short, attributes, first, size));
    LongSlotsUnterminated(name, checksum, ChunkCount(name));
  }
}
