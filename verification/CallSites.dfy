/**
 The tables an exception handler frame carries: the header that locates them, the call-site table
 and its scan, which stops as soon as it has passed the instruction pointer.
 */
module CallSites {
  import opened Common
  import opened Bits
  import opened Leb128
  import opened EncodedPointers

  /** The bases to which encoded pointers of a frame may be relative. */
  datatype Bases = Bases(text: nat, data: nat, region: nat)

  /** What the personality routine is told about a frame; an lsda of 0 means there is none. */
  datatype Context = Context(lsda: nat, ip: nat, ipBeforeInsn: bool, bases: Bases)

  datatype Region = Region(
    base: nat, lpBase: nat,
    callSiteEncoding: byte, callSiteTable: nat, actionTable: nat,
    ttypeEncoding: byte, ttypeTable: nat, ttypeBase: nat)

  /** The base of an encoding; None where there is no context to ask or the encoding is unknown. */
  function BaseOf(encoding: byte, bases: Option<Bases>): Option<nat> {
    if encoding == DW_EH_PE_omit then Some(0)
    else
      match encoding / 16 % 8
      case 0 => Some(0)
      case 1 => Some(0)
      case 5 => Some(0)
      case 2 => if bases.Some? then Some(bases.value.text) else None
      case 3 => if bases.Some? then Some(bases.value.data) else None
      case 4 => if bases.Some? then Some(bases.value.region) else None
      case _ => None
  }

  function ReadIn(mem: seq<byte>, bases: Option<Bases>, encoding: byte, p: nat): (r: Option<Read>)
    ensures r.Some? ==> p < r.value.next <= |mem|
  {
    match BaseOf(encoding, bases)
    case None => None
    case Some(base) => Encoded(mem, encoding, base, p)
  }

  method ReadEncodedValue(mem: seq<byte>, bases: Option<Bases>, encoding: byte, p: nat) returns (r: Option<Read>)
    ensures r == ReadIn(mem, bases, encoding, p)
  {
    var base := BaseOf(encoding, bases);
    if base.None? {
      return None;
    }
    r := ReadEncodedValueWithBase(mem, encoding, base.value, p);
  }

  /** What a pointer is relative to: nothing, its own place, or the text, data or region of its frame. */
  ghost predicate IsOrigin(encoding: byte, b: Bases, p: nat, origin: nat) {
    match encoding / 16 % 8
    case 0 => origin == 0
    case 1 => origin == p
    case 2 => origin == b.text
    case 3 => origin == b.data
    case 4 => origin == b.region
    case _ => false
  }

  /** A pointer of one word, written relative to any of these, is read back as the address it points at. */
  lemma RelativeReadsBack(mem: seq<byte>, b: Bases, encoding: byte, p: nat, target: nat, origin: nat)
    requires encoding % 16 in {0x00, 0x03, 0x0B} && encoding < 128 && IsOrigin(encoding, b, p, origin)
    requires target < WORD && Wrap(origin) != target && Holds(mem, p, LittleBytes(Wrap(target - origin), 4))
    ensures ReadIn(mem, Some(b), encoding, p) == Some(Read(target, p + 4))
  {
    hide Holds;
    hide LittleBytes;
    hide Encoded;
    hide Wrap;
    NotAligned(encoding);
    PointerReadsBack(mem, encoding, BaseOf(encoding, Some(b)).value, p, target);
  }

  lemma NotAligned(encoding: byte)
    requires encoding / 16 % 8 <= 4
    ensures encoding != DW_EH_PE_aligned && encoding != DW_EH_PE_omit
  {
  }

  /** The address the tables are searched for: a return address is moved back into the call. */
  function IpOf(c: Context): nat {
    if c.ipBeforeInsn then c.ip else Wrap(c.ip - 1)
  }

  // ----- the header -----

  function ParseRegion(mem: seq<byte>, c: Context): Option<Region> {
    if c.lsda >= |mem| then None
    else
      var lp := if mem[c.lsda] == DW_EH_PE_omit then Some(Read(c.bases.region, c.lsda + 1))
                else ReadIn(mem, Some(c.bases), mem[c.lsda], c.lsda + 1);
      match lp
      case None => None
      case Some(start) => ParseTables(mem, c, start.value, start.next)
  }

  function ParseTables(mem: seq<byte>, c: Context, lpBase: nat, p: nat): Option<Region> {
    if p >= |mem| then None
    else
      var encoding := mem[p];
      var ttype := if encoding == DW_EH_PE_omit then Some(Read(0, p + 1))
                   else
                     match Unsigned128(mem, p + 1)
                     case None => None
                     case Some(offset) => Some(Read(Wrap(offset.next + offset.value), offset.next));
      match (ttype, BaseOf(encoding, Some(c.bases)))
      case (Some(table), Some(base)) =>
        if table.next >= |mem| then None
        else
          match Unsigned128(mem, table.next + 1) {
            case None => None
            case Some(length) =>
              Some(Region(c.bases.region, lpBase, mem[table.next], length.next, Wrap(length.next + length.value),
                          encoding, table.value, base))
          }
      case _ => None
  }

  /** Reads the header step by step. */
  method GetRegionDescriptionFor(mem: seq<byte>, c: Context) returns (r: Option<Region>)
    ensures r == ParseRegion(mem, c)
  {
    hide Encoded;
    hide ReadIn;
    hide Readable;
    if c.lsda >= |mem| {
      return None;
    }
    var p, lpBase := c.lsda + 1, c.bases.region;
    if mem[c.lsda] != DW_EH_PE_omit {
      var start := ReadEncodedValue(mem, Some(c.bases), mem[c.lsda], p);
      if start.None? {
        return None;
      }
      lpBase, p := start.value.value, start.value.next;
    }
    r := GetTables(mem, c, lpBase, p);
  }

  method GetTables(mem: seq<byte>, c: Context, lpBase: nat, start: nat) returns (r: Option<Region>)
    ensures r == ParseTables(mem, c, lpBase, start)
  {
    hide Readable;
    hide Value;
    if start >= |mem| {
      return None;
    }
    var encoding, p := mem[start], start + 1;
    var ttypeTable := 0;
    if encoding != DW_EH_PE_omit {
      var offset := ReadUnsigned(mem, p);
      if offset.None? {
        return None;
      }
      ttypeTable, p := Wrap(offset.value.next + offset.value.value), offset.value.next;
    }
    var ttypeBase := BaseOf(encoding, Some(c.bases));
    if ttypeBase.None? || p >= |mem| {
      return None;
    }
    var length := ReadUnsigned(mem, p + 1);
    if length.None? {
      return None;
    }
    var table := length.value.next;
    return Some(Region(c.bases.region, lpBase, mem[p], table,
                      Wrap(table + length.value.value), encoding, ttypeTable, ttypeBase.value));
  }

  /** The offset of the type table is there only if there is a type table. */
  function OffsetBytes(ttypeEncoding: byte, offset: nat): seq<byte> {
    if ttypeEncoding == DW_EH_PE_omit then [] else Encode(offset)
  }

  /** The part of a header that says where the tables are. */
  function FieldBytes(ttypeEncoding: byte, offset: nat, encoding: byte, length: nat): (r: seq<byte>)
    ensures |r| == 2 + |OffsetBytes(ttypeEncoding, offset)| + |Encode(length)|
  {
    [ttypeEncoding] + (OffsetBytes(ttypeEncoding, offset) + ([encoding] + Encode(length)))
  }

  /** A header as it is written, with landing pads relative to the region. */
  function HeaderBytes(ttypeEncoding: byte, offset: nat, encoding: byte, length: nat): (r: seq<byte>)
    ensures |r| == 3 + |OffsetBytes(ttypeEncoding, offset)| + |Encode(length)|
  {
    [0xFF] + FieldBytes(ttypeEncoding, offset, encoding, length)
  }

  lemma HeaderFields(mem: seq<byte>, p: nat, ttypeEncoding: byte, offset: nat, encoding: byte, length: nat)
    requires offset < Pow2(WORD_BITS) && length < Pow2(WORD_BITS)
    requires Holds(mem, p, FieldBytes(ttypeEncoding, offset, encoding, length))
    ensures var q := p + 1 + |OffsetBytes(ttypeEncoding, offset)|;
      && q < |mem| && mem[p] == ttypeEncoding && mem[q] == encoding
      && (ttypeEncoding != DW_EH_PE_omit ==> Unsigned128(mem, p + 1) == Some(Read(offset, q)))
      && Unsigned128(mem, q + 1) == Some(Read(length, q + 1 + |Encode(length)|))
  {
    hide Unsigned128;
    hide Encode;
    hide Holds;
    hide Pow2;
    var offsetBytes := OffsetBytes(ttypeEncoding, offset);
    var q := p + 1 + |offsetBytes|;
    HoldsSplit(mem, p, [ttypeEncoding], offsetBytes + ([encoding] + Encode(length)));
    HoldsSplit(mem, p + 1, offsetBytes, [encoding] + Encode(length));
    HoldsSplit(mem, q, [encoding], Encode(length));
    FirstHeld(mem, p, [ttypeEncoding]);
    FirstHeld(mem, q, [encoding]);
    if ttypeEncoding != DW_EH_PE_omit {
      UnsignedHeld(mem, p + 1, offset);
    }
    UnsignedHeld(mem, q + 1, length);
  }

  /** The region of a header whose landing pads are relative to lpBase and whose other fields are at p. */
  function RegionWith(c: Context, lpBase: nat, p: nat, ttypeEncoding: byte, base: nat, offset: nat, encoding: byte,
                    length: nat): Region
  {
    var q := p + 1 + |OffsetBytes(ttypeEncoding, offset)|;
    var table := q + 1 + |Encode(length)|;
    var types := if ttypeEncoding == DW_EH_PE_omit then 0 else Wrap(q + offset);
    Region(c.bases.region, lpBase, encoding, table, Wrap(table + length), ttypeEncoding, types, base)
  }

  lemma TablesReadBack(mem: seq<byte>, c: Context, lpBase: nat, p: nat, ttypeEncoding: byte, base: nat, offset: nat,
                       encoding: byte, length: nat)
    requires BaseOf(ttypeEncoding, Some(c.bases)) == Some(base)
    requires offset < Pow2(WORD_BITS) && length < Pow2(WORD_BITS)
    requires Holds(mem, p, FieldBytes(ttypeEncoding, offset, encoding, length))
    ensures ParseTables(mem, c, lpBase, p)
         == Some(RegionWith(c, lpBase, p, ttypeEncoding, base, offset, encoding, length))
  {
    hide Unsigned128;
    hide Encode;
    hide Holds;
    hide FieldBytes;
    hide Wrap;
    hide Pow2;
    hide BaseOf;
    HeaderFields(mem, p, ttypeEncoding, offset, encoding, length);
  }

  /** A header is read back as the region it was written for. */
  lemma RegionReadsBack(mem: seq<byte>, c: Context, ttypeEncoding: byte, base: nat, offset: nat, encoding: byte,
                        length: nat)
    requires BaseOf(ttypeEncoding, Some(c.bases)) == Some(base)
    requires offset < Pow2(WORD_BITS) && length < Pow2(WORD_BITS)
    requires Holds(mem, c.lsda, HeaderBytes(ttypeEncoding, offset, encoding, length))
    ensures var p := c.lsda + 2 + |OffsetBytes(ttypeEncoding, offset)|;
      var table := p + 1 + |Encode(length)|;
      var types := if ttypeEncoding == DW_EH_PE_omit then 0 else Wrap(p + offset);
      ParseRegion(mem, c)
      == Some(Region(c.bases.region, c.bases.region, encoding, table, Wrap(table + length), ttypeEncoding, types, base))
  {
    hide Encode;
    hide Holds;
    hide FieldBytes;
    hide ReadIn;
    hide ParseTables;
    hide Wrap;
    hide Pow2;
    hide BaseOf;
    HoldsSplit(mem, c.lsda, [0xFF], FieldBytes(ttypeEncoding, offset, encoding, length));
    FirstHeld(mem, c.lsda, [0xFF]);
    TablesReadBack(mem, c, c.bases.region, c.lsda + 1, ttypeEncoding, base, offset, encoding, length);
  }

  /** So is a header that says what its landing pads are relative to: the other fields follow that pointer. */
  lemma PadBaseReadsBack(mem: seq<byte>, c: Context, padEncoding: byte, pads: Read, ttypeEncoding: byte, base: nat,
                         offset: nat, encoding: byte, length: nat)
    requires Holds(mem, c.lsda, [padEncoding]) && padEncoding != 0xFF
    requires ReadIn(mem, Some(c.bases), padEncoding, c.lsda + 1) == Some(pads)
    requires BaseOf(ttypeEncoding, Some(c.bases)) == Some(base)
    requires offset < Pow2(WORD_BITS) && length < Pow2(WORD_BITS)
    requires Holds(mem, pads.next, FieldBytes(ttypeEncoding, offset, encoding, length))
    ensures var p := pads.next + 1 + |OffsetBytes(ttypeEncoding, offset)|;
      var table := p + 1 + |Encode(length)|;
      var types := if ttypeEncoding == DW_EH_PE_omit then 0 else Wrap(p + offset);
      ParseRegion(mem, c)
      == Some(Region(c.bases.region, pads.value, encoding, table, Wrap(table + length), ttypeEncoding, types, base))
  {
    hide Encode;
    hide Holds;
    hide FieldBytes;
    hide ReadIn;
    hide ParseTables;
    hide Wrap;
    hide Pow2;
    hide BaseOf;
    FirstHeld(mem, c.lsda, [padEncoding]);
    TablesReadBack(mem, c, pads.value, pads.next, ttypeEncoding, base, offset, encoding, length);
  }

  // ----- the call-site table -----

  /** One record: a range of code, a landing pad and the index of its first action. */
  datatype Site = Site(start: nat, len: nat, pad: nat, action: nat)

  function SiteAt(mem: seq<byte>, encoding: byte, p: nat): (r: Option<(Site, nat)>)
    ensures r.Some? ==> p < r.value.1
  {
    match ReadIn(mem, None, encoding, p)
    case None => None
    case Some(start) =>
      match ReadIn(mem, None, encoding, start.next)
      case None => None
      case Some(len) =>
        match ReadIn(mem, None, encoding, len.next)
        case None => None
        case Some(pad) =>
          match Unsigned128(mem, pad.next)
          case None => None
          case Some(action) => Some((Site(start.value, len.value, pad.value, action.value), action.next))
  }

  /** The whole table, decoded; None if a record is malformed. */
  function Sites(mem: seq<byte>, encoding: byte, p: nat, end: nat): Option<seq<Site>>
    decreases end - p
  {
    if p >= end then Some([])
    else
      match SiteAt(mem, encoding, p)
      case None => None
      case Some((site, next)) =>
        match Sites(mem, encoding, next, end)
        case None => None
        case Some(rest) => Some([site] + rest)
  }

  /** A record of LEB128 numbers, as the compiler writes it. */
  function SiteBytes(s: Site): (r: seq<byte>)
    ensures r != []
  {
    Encode(s.start) + (Encode(s.len) + (Encode(s.pad) + Encode(s.action)))
  }

  function TableBytes(sites: seq<Site>): seq<byte> {
    if sites == [] then [] else SiteBytes(sites[0]) + TableBytes(sites[1..])
  }

  ghost predicate FitsWords(s: Site) {
    s.start < Pow2(WORD_BITS) && s.len < Pow2(WORD_BITS) && s.pad < Pow2(WORD_BITS) && s.action < Pow2(WORD_BITS)
  }

  lemma NumberReadsBack(mem: seq<byte>, p: nat, v: nat)
    requires v < Pow2(WORD_BITS) && Holds(mem, p, Encode(v))
    ensures ReadIn(mem, None, DW_EH_PE_uleb128, p) == Some(Read(v, p + |Encode(v)|))
  {
    hide Unsigned128;
    hide Encode;
    hide Pow2;
    hide Fixed;
    UnsignedHeld(mem, p, v);
    WordIsPow2();
  }

  lemma SiteReadsBack(mem: seq<byte>, p: nat, s: Site)
    requires FitsWords(s) && Holds(mem, p, SiteBytes(s))
    ensures SiteAt(mem, DW_EH_PE_uleb128, p) == Some((s, p + |SiteBytes(s)|))
  {
    hide Holds;
    hide Encode;
    hide ReadIn;
    hide Unsigned128;
    var p1 := p + |Encode(s.start)|;
    var p2 := p1 + |Encode(s.len)|;
    var p3 := p2 + |Encode(s.pad)|;
    HoldsSplit(mem, p, Encode(s.start), Encode(s.len) + (Encode(s.pad) + Encode(s.action)));
    HoldsSplit(mem, p1, Encode(s.len), Encode(s.pad) + Encode(s.action));
    HoldsSplit(mem, p2, Encode(s.pad), Encode(s.action));
    NumberReadsBack(mem, p, s.start);
    NumberReadsBack(mem, p1, s.len);
    NumberReadsBack(mem, p2, s.pad);
    UnsignedHeld(mem, p3, s.action);
  }

  /** A table of any records, written one after the other, is decoded to those records. */
  lemma {:induction false} TableReadsBack(mem: seq<byte>, p: nat, sites: seq<Site>)
    requires forall i :: 0 <= i < |sites| ==> FitsWords(sites[i])
    requires Holds(mem, p, TableBytes(sites))
    ensures Sites(mem, DW_EH_PE_uleb128, p, p + |TableBytes(sites)|) == Some(sites)
    decreases |sites|
  {
    hide SiteAt;
    hide SiteBytes;
    hide FitsWords;
    hide Holds;
    if sites != [] {
      HoldsSplit(mem, p, SiteBytes(sites[0]), TableBytes(sites[1..]));
      SiteReadsBack(mem, p, sites[0]);
      TableReadsBack(mem, p + |SiteBytes(sites[0])|, sites[1..]);
      assert |TableBytes(sites)| == |SiteBytes(sites[0])| + |TableBytes(sites[1..])| && |SiteBytes(sites[0])| > 0;
      assert [sites[0]] + sites[1..] == sites;
    }
  }

  /** Sorted by start, without overlap, and within the address space. */
  ghost predicate WellFormed(base: nat, sites: seq<Site>) {
    && (forall i :: 0 <= i < |sites| ==> base + sites[i].start + sites[i].len <= WORD)
    && forall i, j :: 0 <= i < j < |sites| ==> sites[i].start + sites[i].len <= sites[j].start
  }

  ghost predicate Covers(base: nat, s: Site, ip: nat) {
    base + s.start <= ip < base + s.start + s.len
  }

  /** A record that ends with the last byte of the address space. */
  predicate EndsAtTop(base: nat, s: Site) {
    base + s.start + s.len == WORD
  }

  /** The kind of action is still to be decided when there is a site. */
  datatype CallSiteAction = NoSite | AtSite(pad: nat, entry: nat)

  function Describe(r: Region, s: Site): CallSiteAction {
    AtSite(if s.pad != 0 then Wrap(r.lpBase + s.pad) else 0,
           if s.action != 0 then Wrap(r.actionTable + s.action - 1) else 0)
  }

  /**
   What a search of the full table finds: the record that covers the address, if there is one.  The
   end of a record is computed modulo the word size, so one that ends at the very top of the address
   space is never found.
   */
  ghost predicate IsFullSearch(r: Region, sites: seq<Site>, ip: nat, found: CallSiteAction) {
    match found
    case NoSite => forall i :: 0 <= i < |sites| && Covers(r.base, sites[i], ip) ==> EndsAtTop(r.base, sites[i])
    case AtSite(_, _) =>
      exists i :: 0 <= i < |sites| && Covers(r.base, sites[i], ip) && !EndsAtTop(r.base, sites[i])
        && found == Describe(r, sites[i])
  }

  /** In a well-formed table at most one record covers an address. */
  lemma CoverIsUnique(base: nat, sites: seq<Site>, ip: nat, i: nat, j: nat)
    requires WellFormed(base, sites) && i < |sites| && j < |sites|
    requires Covers(base, sites[i], ip) && Covers(base, sites[j], ip)
    ensures i == j
  {
  }

  /** Where the scan misses a record that covers the address: at the top of the address space. */
  lemma TopIsMissed(r: Region, sites: seq<Site>, ip: nat, k: nat, found: CallSiteAction)
    requires WellFormed(r.base, sites) && k < |sites| && Covers(r.base, sites[k], ip)
      && IsFullSearch(r, sites, ip, found)
    ensures found.NoSite? <==> EndsAtTop(r.base, sites[k])
    ensures found.AtSite? ==> found == Describe(r, sites[k])
  {
    hide WellFormed;
    hide EndsAtTop;
    if found.AtSite? {
      var i :| 0 <= i < |sites| && Covers(r.base, sites[i], ip) && !EndsAtTop(r.base, sites[i])
        && found == Describe(r, sites[i]);
      CoverIsUnique(r.base, sites, ip, i, k);
    }
  }

  /** A table that shows it: one record for the last four bytes of code, whose landing pad is not found. */
  lemma LastByteIsMissed(r: Region, before: seq<byte>, last: Site, found: CallSiteAction)
    requires last == Site(WORD - 4, 4, 16, 0) && r.base == 0 && IsFullSearch(r, [last], WORD - 1, found)
    ensures Sites(before + TableBytes([last]), DW_EH_PE_uleb128, |before|, |before + TableBytes([last])|)
      == Some([last])
    ensures WellFormed(0, [last]) && Covers(0, last, WORD - 1) && found == NoSite
  {
    hide *;
    LastBytes(last, before, TableBytes([last]));
    TableReadsBack(before + TableBytes([last]), |before|, [last]);
    TopIsMissed(r, [last], WORD - 1, 0, found);
  }

  lemma LastBytes(site: Site, before: seq<byte>, bytes: seq<byte>)
    requires site == Site(WORD - 4, 4, 16, 0)
    ensures FitsWords(site) && WellFormed(0, [site]) && Covers(0, site, WORD - 1) && EndsAtTop(0, site)
    ensures Holds(before + bytes, |before|, bytes) && |before + bytes| == |before| + |bytes|
  {
    WordIsPow2();
    hide Pow2;
  }

  lemma FullSearchIsUnique(r: Region, sites: seq<Site>, ip: nat, a: CallSiteAction, b: CallSiteAction)
    requires WellFormed(r.base, sites) && IsFullSearch(r, sites, ip, a) && IsFullSearch(r, sites, ip, b)
    ensures a == b
  {
    if a.AtSite? {
      var i :| 0 <= i < |sites| && Covers(r.base, sites[i], ip) && !EndsAtTop(r.base, sites[i])
        && a == Describe(r, sites[i]);
      TopIsMissed(r, sites, ip, i, b);
    }
  }

  lemma SitesStep(mem: seq<byte>, encoding: byte, p: nat, end: nat, all: seq<Site>, k: nat)
    requires p < end && k <= |all| && Sites(mem, encoding, p, end) == Some(all[k..])
    ensures k < |all| && SiteAt(mem, encoding, p).Some? && SiteAt(mem, encoding, p).value.0 == all[k]
    ensures Sites(mem, encoding, SiteAt(mem, encoding, p).value.1, end) == Some(all[k + 1..])
  {
    hide SiteAt;
    var (site, next) := SiteAt(mem, encoding, p).value;
    var rest := Sites(mem, encoding, next, end).value;
    assert all[k..] == [site] + rest;
    assert all[k..][0] == site && all[k..][1..] == rest;
  }

  lemma SitesEnd(mem: seq<byte>, encoding: byte, p: nat, end: nat, all: seq<Site>, k: nat)
    requires p >= end && k <= |all| && Sites(mem, encoding, p, end) == Some(all[k..])
    ensures k == |all|
  {
    assert |all[k..]| == |all| - k;
  }

  /** The table is sorted, so once it has passed the address no later record covers it. */
  lemma PassedIp(base: nat, sites: seq<Site>, ip: nat, k: nat)
    requires WellFormed(base, sites) && k < |sites| && ip < base + sites[k].start
    ensures forall i :: k <= i < |sites| ==> !Covers(base, sites[i], ip)
  {
    forall i | k <= i < |sites|
      ensures !Covers(base, sites[i], ip)
    {
      if k < i {
        assert sites[k].start + sites[k].len <= sites[i].start;
      }
    }
  }

  /** What the two comparisons of the scan, both modulo the word size, mean for one record. */
  lemma Comparisons(base: nat, sites: seq<Site>, k: nat, ip: nat)
    requires WellFormed(base, sites) && k < |sites|
    ensures var start := Wrap(base + sites[k].start);
      && (ip < start ==> ip < base + sites[k].start)
      && (ip >= start ==>
           (ip < Wrap(start + sites[k].len) <==> Covers(base, sites[k], ip) && !EndsAtTop(base, sites[k])))
  {
  }

  /** The scan over the bytes of the table, with its early exit. */
  method GetCallSiteActionFor(mem: seq<byte>, r: Region, ip: nat) returns (found: CallSiteAction)
    requires Sites(mem, r.callSiteEncoding, r.callSiteTable, r.actionTable).Some?
    requires WellFormed(r.base, Sites(mem, r.callSiteEncoding, r.callSiteTable, r.actionTable).value)
    ensures IsFullSearch(r, Sites(mem, r.callSiteEncoding, r.callSiteTable, r.actionTable).value, ip, found)
  {
    hide Sites;
    hide SiteAt;
    hide WellFormed;
    hide Wrap;
    hide Covers;
    hide EndsAtTop;
    ghost var all := Sites(mem, r.callSiteEncoding, r.callSiteTable, r.actionTable).value;
    ghost var k := 0;
    var p := r.callSiteTable;
    assert all[0..] == all;
    while p < r.actionTable
      invariant 0 <= k <= |all|
      invariant Sites(mem, r.callSiteEncoding, p, r.actionTable) == Some(all[k..])
      invariant forall i :: 0 <= i < k && Covers(r.base, all[i], ip) ==> EndsAtTop(r.base, all[i])
      decreases r.actionTable - p
    {
      SitesStep(mem, r.callSiteEncoding, p, r.actionTable, all, k);
      Comparisons(r.base, all, k, ip);
      var site, next := ReadSite(mem, r.callSiteEncoding, p);
      p := next;
      if ip < Wrap(r.base + site.start) {
        PassedIp(r.base, all, ip, k);
        return NoSite;
      } else if ip < Wrap(Wrap(r.base + site.start) + site.len) {
        assert Covers(r.base, all[k], ip) && !EndsAtTop(r.base, all[k]);
        return Describe(r, site);
      }
      k := k + 1;
    }
    SitesEnd(mem, r.callSiteEncoding, p, r.actionTable, all, k);
    return NoSite;
  }

  method ReadSite(mem: seq<byte>, encoding: byte, p: nat) returns (site: Site, next: nat)
    requires SiteAt(mem, encoding, p).Some?
    ensures SiteAt(mem, encoding, p) == Some((site, next))
  {
    var start := ReadEncodedValue(mem, None, encoding, p);
    var len := ReadEncodedValue(mem, None, encoding, start.value.next);
    var pad := ReadEncodedValue(mem, None, encoding, len.value.next);
    WordIsPow2();
    var action, q := ReadUleb128(mem, pad.value.next, WORD_BITS);
    return Site(start.value.value, len.value.value, pad.value.value, action), q;
  }
}
