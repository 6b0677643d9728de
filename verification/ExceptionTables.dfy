/**
 Exception tables as the compiler lays them out - header, call-site table, action records, type
 table - and the proof that the readers of the personality routine find in those bytes what was
 written.
 */
module ExceptionTables {
  import opened Common
  import opened Bits
  import opened Leb128
  import opened EncodedPointers
  import opened CallSites
  import opened Personality

  // ----- the type table -----

  /** Type tables have entries of one word. */
  predicate FourBytes(encoding: byte) {
    encoding % 16 in {0x00, 0x03, 0x0B} && encoding != DW_EH_PE_aligned
  }

  /** An entry at p that refers to the address stored; a null entry is zero whatever it is relative to. */
  function EntryBytes(encoding: byte, base: nat, p: nat, stored: nat): (r: seq<byte>)
    ensures |r| == 4
  {
    LittleBytes(if stored == 0 then 0 else Wrap(stored - Origin(encoding, base, p)), 4)
  }

  /** The choice an entry stands for: what it refers to, or the word stored there if it is indirect. */
  predicate Refers(mem: seq<byte>, encoding: byte, stored: nat, choice: nat) {
    && stored < WORD && choice < WORD
    && if stored == 0 || encoding < 128 then choice == stored else Holds(mem, stored, LittleBytes(choice, 4))
  }

  /** An entry cannot refer to the address it is relative to. */
  predicate Storable(encoding: byte, base: nat, p: nat, stored: nat) {
    stored == 0 || Wrap(Origin(encoding, base, p)) != stored
  }

  lemma EntryReadsBack(mem: seq<byte>, encoding: byte, base: nat, p: nat, stored: nat, choice: nat)
    requires FourBytes(encoding) && Refers(mem, encoding, stored, choice) && Storable(encoding, base, p, stored)
    requires Holds(mem, p, EntryBytes(encoding, base, p, stored))
    ensures Encoded(mem, encoding, base, p) == Some(Read(choice, p + 4))
  {
    hide Field;
    hide Wrap;
    hide Holds;
    hide LittleBytes;
    hide Based;
    hide Refers;
    hide Storable;
    hide Origin;
    var field := if stored == 0 then 0 else Wrap(stored - Origin(encoding, base, p));
    FieldReadsBack(mem, encoding % 16, p, field);
    EntryRefers(mem, encoding, base, p, stored, choice);
  }

  lemma EntryRefers(mem: seq<byte>, encoding: byte, base: nat, p: nat, stored: nat, choice: nat)
    requires Refers(mem, encoding, stored, choice) && Storable(encoding, base, p, stored)
    ensures var field := if stored == 0 then 0 else Wrap(stored - Origin(encoding, base, p));
      Based(mem, encoding, base, p, Read(field, p + 4)) == Some(Read(choice, p + 4))
  {
    hide Wrap;
    hide Little;
    hide LittleBytes;
    WrapBack(stored, Origin(encoding, base, p));
    WrapZero(stored, Origin(encoding, base, p));
    if stored != 0 && encoding >= 128 {
      WordReadsBack(mem, stored, choice);
    }
  }

  /** The entries of a table that ends at end: the first one is the highest. */
  function TypesBytes(encoding: byte, base: nat, end: nat, stored: seq<nat>): (r: seq<byte>)
    requires 4 * |stored| <= end
    ensures |r| == 4 * |stored|
  {
    var n := |stored|;
    if n == 0 then []
    else EntryBytes(encoding, base, end - 4 * n, stored[n - 1]) + TypesBytes(encoding, base, end, stored[..n - 1])
  }

  lemma {:induction false} TypesSplit(mem: seq<byte>, encoding: byte, base: nat, end: nat, stored: seq<nat>, k: nat)
    requires 4 * |stored| <= end && k < |stored|
    requires Holds(mem, end - 4 * |stored|, TypesBytes(encoding, base, end, stored))
    ensures Holds(mem, end - 4 * (k + 1), EntryBytes(encoding, base, end - 4 * (k + 1), stored[k]))
    decreases |stored|
  {
    hide Holds;
    hide EntryBytes;
    var n := |stored|;
    HoldsSplit(mem, end - 4 * n, EntryBytes(encoding, base, end - 4 * n, stored[n - 1]),
               TypesBytes(encoding, base, end, stored[..n - 1]));
    if k < n - 1 {
      TypesSplit(mem, encoding, base, end, stored[..n - 1], k);
      assert stored[..n - 1][k] == stored[k];
    }
  }

  /** The entries can all be stored, and stand for these choices. */
  ghost predicate GoodTypes(mem: seq<byte>, encoding: byte, base: nat, end: nat, stored: seq<nat>, choices: seq<nat>) {
    && |choices| == |stored| && 4 * |stored| <= end
    && forall k :: 0 <= k < |stored| ==>
        Refers(mem, encoding, stored[k], choices[k]) && Storable(encoding, base, end - 4 * (k + 1), stored[k])
  }

  /** What the reader finds for the positive filters. */
  ghost predicate HasTypes(mem: seq<byte>, r: Region, choices: seq<nat>) {
    forall filter :: 1 <= filter <= |choices| ==> TtypeEntry(mem, r, filter) == Some(choices[filter - 1])
  }

  /** In a type table written downwards from its end, filter f yields the f-th choice. */
  lemma TypeTableReadsBack(mem: seq<byte>, r: Region, end: nat, stored: seq<nat>, choices: seq<nat>)
    requires FourBytes(r.ttypeEncoding) && end <= WORD && r.ttypeTable == Wrap(end)
    requires GoodTypes(mem, r.ttypeEncoding, r.ttypeBase, end, stored, choices)
    requires Holds(mem, end - 4 * |stored|, TypesBytes(r.ttypeEncoding, r.ttypeBase, end, stored))
    ensures HasTypes(mem, r, choices)
  {
    hide *;
    forall filter | 1 <= filter <= |choices|
      ensures TtypeEntry(mem, r, filter) == Some(choices[filter - 1])
    {
      GoodEntry(mem, r.ttypeEncoding, r.ttypeBase, end, stored, choices, filter - 1);
      TypesSplit(mem, r.ttypeEncoding, r.ttypeBase, end, stored, filter - 1);
      EntryIsFound(mem, r, end, stored[filter - 1], choices[filter - 1], filter);
    }
    AllTypes(mem, r, choices);
  }

  lemma AllTypes(mem: seq<byte>, r: Region, choices: seq<nat>)
    requires forall filter :: 1 <= filter <= |choices| ==> TtypeEntry(mem, r, filter) == Some(choices[filter - 1])
    ensures HasTypes(mem, r, choices)
  {
  }

  lemma GoodEntry(mem: seq<byte>, encoding: byte, base: nat, end: nat, stored: seq<nat>, choices: seq<nat>, k: nat)
    requires GoodTypes(mem, encoding, base, end, stored, choices) && k < |choices|
    ensures |stored| == |choices| && 4 * (k + 1) <= 4 * |stored| <= end
    ensures Refers(mem, encoding, stored[k], choices[k]) && Storable(encoding, base, end - 4 * (k + 1), stored[k])
  {
    hide Refers;
    hide Storable;
  }

  lemma EntryIsFound(mem: seq<byte>, r: Region, end: nat, stored: nat, choice: nat, filter: nat)
    requires FourBytes(r.ttypeEncoding) && r.ttypeTable == Wrap(end) && 1 <= filter && 4 * filter <= end <= WORD
    requires Refers(mem, r.ttypeEncoding, stored, choice)
    requires Storable(r.ttypeEncoding, r.ttypeBase, end - 4 * filter, stored)
    requires Holds(mem, end - 4 * filter, EntryBytes(r.ttypeEncoding, r.ttypeBase, end - 4 * filter, stored))
    ensures TtypeEntry(mem, r, filter) == Some(choice)
  {
    EntryReadsBack(mem, r.ttypeEncoding, r.ttypeBase, end - 4 * filter, stored, choice);
    hide Refers;
    hide Storable;
    hide Encoded;
    hide Holds;
    hide EntryBytes;
    EntryAddress(end, filter);
    FourByteSize(r.ttypeEncoding);
  }

  lemma EntryAddress(end: nat, filter: nat)
    requires 1 <= filter && 4 * filter <= end <= WORD
    ensures Wrap(Wrap(end) - filter * 4) == end - 4 * filter
  {
  }

  lemma FourByteSize(encoding: byte)
    requires FourBytes(encoding)
    ensures SizeOfEncodedValue(encoding) == Some(4)
  {
  }

  // ----- action records -----

  /** A record: its filter and the earlier record that follows it in the chain. */
  datatype Record = Record(filter: int, next: Option<nat>)

  /** Chains lead to earlier records, and positive filters to choices. */
  ghost predicate GoodRecords(records: seq<Record>, types: nat) {
    && |ActionBytes(records, |records|)| < WORD / 2
    && forall i :: 0 <= i < |records| ==>
        && FitsSigned(records[i].filter, WORD_BITS) && records[i].filter <= types
        && (records[i].next.Some? ==> records[i].next.value < i)
  }

  /** The first n records, one behind the other. */
  function ActionBytes(records: seq<Record>, n: nat): seq<byte>
    requires n <= |records|
    decreases n, 0
  {
    if n == 0 then [] else ActionBytes(records, n - 1) + RecordBytes(records, n - 1)
  }

  /** How far the next record is from the field that says so; 0 at the end of a chain. */
  function Displacement(records: seq<Record>, i: nat): int
    requires i < |records|
    decreases i, 1
  {
    match records[i].next
    case None => 0
    case Some(j) =>
      if j < i then |ActionBytes(records, j)| - (|ActionBytes(records, i)| + |EncodeSigned(records[i].filter)|) else 0
  }

  function RecordBytes(records: seq<Record>, i: nat): (r: seq<byte>)
    requires i < |records|
    ensures r != []
    decreases i, 2
  {
    EncodeSigned(records[i].filter) + EncodeSigned(Displacement(records, i))
  }

  lemma {:induction false} LaterIsHigher(records: seq<Record>, i: nat, n: nat)
    requires i < n <= |records|
    ensures |ActionBytes(records, i)| + |RecordBytes(records, i)| <= |ActionBytes(records, n)|
    decreases n
  {
    hide RecordBytes;
    if i + 1 < n {
      LaterIsHigher(records, i, n - 1);
    }
  }

  lemma {:induction false} RecordHeld(mem: seq<byte>, at: nat, records: seq<Record>, i: nat, n: nat)
    requires i < n <= |records| && Holds(mem, at, ActionBytes(records, n))
    ensures Holds(mem, at + |ActionBytes(records, i)|, RecordBytes(records, i))
    decreases n
  {
    hide Holds;
    hide RecordBytes;
    HoldsSplit(mem, at, ActionBytes(records, n - 1), RecordBytes(records, n - 1));
    if i < n - 1 {
      RecordHeld(mem, at, records, i, n - 1);
    }
  }

  lemma DisplacementFits(records: seq<Record>, types: nat, i: nat)
    requires GoodRecords(records, types) && i < |records|
    ensures FitsSigned(Displacement(records, i), WORD_BITS) && FitsSigned(records[i].filter, WORD_BITS)
    ensures records[i].filter <= types
    ensures match records[i].next
            case None => Displacement(records, i) == 0
            case Some(j) =>
              var field := |ActionBytes(records, i)| + |EncodeSigned(records[i].filter)|;
              j < i && Displacement(records, i) < 0 && field + Displacement(records, i) == |ActionBytes(records, j)|
  {
    hide Pow2;
    hide ActionBytes;
    hide EncodeSigned;
    WordIsPow2();
    LaterIsHigher(records, i, |records|);
    if records[i].next.Some? {
      LaterIsHigher(records, records[i].next.value, i);
    }
  }

  /** The clauses of the chain that starts with record i. */
  ghost function ChainOf(records: seq<Record>, types: seq<nat>, i: nat): (r: seq<Clause>)
    requires GoodRecords(records, |types|) && i < |records|
    ensures r != []
    decreases i
  {
    var filter := records[i].filter;
    [Clause(filter, if filter > 0 then types[filter - 1] else 0)]
      + match records[i].next
        case None => []
        case Some(j) => ChainOf(records, types, j)
  }

  /** Whatever came before, the bytes of a record and of those it leads to are its chain. */
  lemma {:induction false} ChainReadsBack(mem: seq<byte>, r: Region, at: nat, records: seq<Record>, types: seq<nat>,
                                          i: nat,
                                          before: seq<Clause>)
    requires GoodRecords(records, |types|) && i < |records| && HasTypes(mem, r, types)
    requires Holds(mem, at, ActionBytes(records, |records|))
    ensures IsChainFrom(mem, r, at + |ActionBytes(records, i)|, before + ChainOf(records, types, i), |before|)
    decreases i
  {
    hide *;
    var p := at + |ActionBytes(records, i)|;
    LinkReadsBack(mem, r, at, records, types, i);
    ChainUnfolds(records, types, i);
    var clauses := before + ChainOf(records, types, i);
    DisplacementFits(records, |types|, i);
    match records[i].next {
      case None =>
        LastLink(mem, r, p, clauses, |before|);
      case Some(j) =>
        var more := before + [clauses[|before|]];
        ChainReadsBack(mem, r, at, records, types, j, more);
        assert clauses == more + ChainOf(records, types, j);
        InnerLink(mem, r, p, clauses, |before|, at + |ActionBytes(records, j)|);
    }
  }

  lemma ChainUnfolds(records: seq<Record>, types: seq<nat>, i: nat)
    requires GoodRecords(records, |types|) && i < |records|
    ensures var filter := records[i].filter;
      var rest := match records[i].next case None => [] case Some(j) => ChainOf(records, types, j);
      && filter <= |types|
      && ChainOf(records, types, i) == [Clause(filter, if filter > 0 then types[filter - 1] else 0)] + rest
  {
  }

  lemma LinkReadsBack(mem: seq<byte>, r: Region, at: nat, records: seq<Record>, types: seq<nat>, i: nat)
    requires GoodRecords(records, |types|) && i < |records| && HasTypes(mem, r, types)
    requires Holds(mem, at, ActionBytes(records, |records|))
    ensures records[i].filter <= |types|
    ensures var filter := records[i].filter;
      var p := at + |ActionBytes(records, i)|;
      var clause := Clause(filter, if filter > 0 then types[filter - 1] else 0);
      LinkAt(mem, r, p) == Some(Link(clause, Displacement(records, i), p + |EncodeSigned(filter)|))
  {
    hide LinkAt;
    hide TtypeEntry;
    hide Holds;
    hide ActionBytes;
    hide EncodeSigned;
    hide Displacement;
    hide FitsSigned;
    DisplacementFits(records, |types|, i);
    RecordHeld(mem, at, records, i, |records|);
    RecordReadsBack(mem, r, at + |ActionBytes(records, i)|, records[i].filter, Displacement(records, i));
  }

  lemma LastLink(mem: seq<byte>, r: Region, p: nat, clauses: seq<Clause>, k: nat)
    requires k + 1 == |clauses| && LinkAt(mem, r, p).Some?
    requires LinkAt(mem, r, p).value.clause == clauses[k] && LinkAt(mem, r, p).value.disp == 0
    ensures IsChainFrom(mem, r, p, clauses, k)
  {
    hide LinkAt;
  }

  lemma InnerLink(mem: seq<byte>, r: Region, p: nat, clauses: seq<Clause>, k: nat, next: nat)
    requires k < |clauses| && LinkAt(mem, r, p).Some?
    requires LinkAt(mem, r, p).value.clause == clauses[k] && LinkAt(mem, r, p).value.disp != 0
    requires next == LinkAt(mem, r, p).value.dispAt + LinkAt(mem, r, p).value.disp
    requires IsChainFrom(mem, r, next, clauses, k + 1)
    ensures IsChainFrom(mem, r, p, clauses, k)
  {
    hide LinkAt;
  }

  // ----- the whole area -----

  /**
   What is written for a function: a call-site table, the records of its actions, and a type table with
   the addresses its entries refer to.
   */
  datatype Area = Area(ttypeEncoding: byte, types: seq<nat>, table: seq<byte>, records: seq<Record>, padding: seq<byte>)

  /** The bytes of the action table, and from there to the end of the type table. */
  function Tail(a: Area, base: nat, end: nat): (r: seq<byte>)
    requires 4 * |a.types| <= end
    ensures |r| == |ActionBytes(a.records, |a.records|)| + |a.padding| + 4 * |a.types|
  {
    ActionBytes(a.records, |a.records|) + (a.padding + TypesBytes(a.ttypeEncoding, base, end, a.types))
  }

  /** The distance of the end of the type table from the field that says so. */
  function OffsetOf(a: Area): nat {
    1 + |Encode(|a.table|)| + |a.table| + |ActionBytes(a.records, |a.records|)| + |a.padding| + 4 * |a.types|
  }

  /** Where the call-site table, the action table and everything ends when the header is at p. */
  function TableAt(a: Area, p: nat): nat {
    p + 2 + |OffsetBytes(a.ttypeEncoding, OffsetOf(a))| + 1 + |Encode(|a.table|)|
  }

  function ActionsAt(a: Area, p: nat): nat {
    TableAt(a, p) + |a.table|
  }

  function EndOf(a: Area, p: nat): (r: nat)
    ensures 4 * |a.types| <= r
    ensures r == p + 2 + |OffsetBytes(a.ttypeEncoding, OffsetOf(a))| + OffsetOf(a)
  {
    ActionsAt(a, p) + |ActionBytes(a.records, |a.records|)| + |a.padding| + 4 * |a.types|
  }

  /** The area as it is written at p. */
  function AreaBytes(a: Area, base: nat, p: nat): seq<byte> {
    HeaderBytes(a.ttypeEncoding, OffsetOf(a), DW_EH_PE_uleb128, |a.table|) + (a.table + Tail(a, base, EndOf(a, p)))
  }

  /** The region the reader makes of it. */
  function RegionOf(a: Area, c: Context, base: nat): Region {
    Region(c.bases.region, c.bases.region, DW_EH_PE_uleb128, TableAt(a, c.lsda), ActionsAt(a, c.lsda), a.ttypeEncoding,
           if a.ttypeEncoding == DW_EH_PE_omit then 0 else Wrap(EndOf(a, c.lsda)), base)
  }

  /** The chain of each record, by its address. */
  ghost function ChainsOf(records: seq<Record>, types: seq<nat>, at: nat, n: nat): map<nat, seq<Clause>>
    requires GoodRecords(records, |types|) && n <= |records|
  {
    if n == 0 then map[]
    else ChainsOf(records, types, at, n - 1)[at + |ActionBytes(records, n - 1)| := ChainOf(records, types, n - 1)]
  }

  lemma {:induction false} ChainsHold(records: seq<Record>, types: seq<nat>, at: nat, n: nat, i: nat)
    requires GoodRecords(records, |types|) && i < n <= |records|
    ensures var p := at + |ActionBytes(records, i)|;
      var chains := ChainsOf(records, types, at, n);
      p in chains && chains[p] == ChainOf(records, types, i)
    decreases n
  {
    hide ActionBytes;
    hide ChainOf;
    hide GoodRecords;
    if i < n - 1 {
      ChainsHold(records, types, at, n - 1, i);
      LaterIsHigher(records, i, n - 1);
    }
  }

  /** The area fits the address space, and every number in it the field it is written in. */
  ghost predicate Layable(a: Area, mem: seq<byte>, c: Context, base: nat, choices: seq<nat>) {
    && c.lsda != 0 && EndOf(a, c.lsda) <= WORD && ActionsAt(a, c.lsda) < WORD
    && BaseOf(a.ttypeEncoding, Some(c.bases)) == Some(base)
    && (if a.types == [] then choices == [] && (FourBytes(a.ttypeEncoding) || a.ttypeEncoding == DW_EH_PE_omit)
        else FourBytes(a.ttypeEncoding))
    && GoodTypes(mem, a.ttypeEncoding, base, EndOf(a, c.lsda), a.types, choices)
    && GoodRecords(a.records, |choices|)
  }

  /** The area has been written where the context says. */
  ghost predicate LaidOut(a: Area, mem: seq<byte>, c: Context, base: nat, choices: seq<nat>) {
    Layable(a, mem, c, base, choices) && Holds(mem, c.lsda, AreaBytes(a, base, c.lsda))
  }

  /** The parts of the area are where the header says. */
  lemma AreaSplit(a: Area, mem: seq<byte>, p: nat, base: nat)
    requires Holds(mem, p, AreaBytes(a, base, p))
    ensures Holds(mem, p, HeaderBytes(a.ttypeEncoding, OffsetOf(a), DW_EH_PE_uleb128, |a.table|))
    ensures Holds(mem, TableAt(a, p), a.table)
    ensures Holds(mem, ActionsAt(a, p), ActionBytes(a.records, |a.records|))
    ensures Holds(mem, EndOf(a, p) - 4 * |a.types|, TypesBytes(a.ttypeEncoding, base, EndOf(a, p), a.types))
  {
    hide Holds;
    hide HeaderBytes;
    hide ActionBytes;
    hide TypesBytes;
    hide OffsetOf;
    hide OffsetBytes;
    hide Encode;
    var header := HeaderBytes(a.ttypeEncoding, OffsetOf(a), DW_EH_PE_uleb128, |a.table|);
    var types := TypesBytes(a.ttypeEncoding, base, EndOf(a, p), a.types);
    var actions := ActionBytes(a.records, |a.records|);
    HoldsSplit(mem, p, header, a.table + Tail(a, base, EndOf(a, p)));
    HoldsSplit(mem, TableAt(a, p), a.table, Tail(a, base, EndOf(a, p)));
    HoldsSplit(mem, ActionsAt(a, p), actions, a.padding + types);
    HoldsSplit(mem, ActionsAt(a, p) + |actions|, a.padding, types);
  }

  /** What laying out comes down to. */
  lemma PartsHeld(a: Area, mem: seq<byte>, c: Context, base: nat, choices: seq<nat>)
    requires LaidOut(a, mem, c, base, choices)
    ensures GoodRecords(a.records, |choices|) && EndOf(a, c.lsda) <= WORD && c.lsda != 0
    ensures Holds(mem, TableAt(a, c.lsda), a.table)
    ensures Holds(mem, ActionsAt(a, c.lsda), ActionBytes(a.records, |a.records|))
  {
    AreaSplit(a, mem, c.lsda, base);
  }

  /** The header of a written area is read as the region it was written for. */
  lemma RegionIsRead(a: Area, mem: seq<byte>, c: Context, base: nat, choices: seq<nat>)
    requires LaidOut(a, mem, c, base, choices)
    ensures ParseRegion(mem, c) == Some(RegionOf(a, c, base))
  {
    hide GoodTypes;
    hide GoodRecords;
    hide ActionBytes;
    hide Holds;
    hide ParseRegion;
    hide BaseOf;
    hide AreaBytes;
    hide HeaderBytes;
    hide OffsetBytes;
    hide Encode;
    hide Pow2;
    WordIsPow2();
    AreaSplit(a, mem, c.lsda, base);
    SmallWord(ActionsAt(a, c.lsda));
    RegionReadsBack(mem, c, a.ttypeEncoding, base, OffsetOf(a), DW_EH_PE_uleb128, |a.table|);
  }

  lemma TypesAreRead(a: Area, mem: seq<byte>, c: Context, base: nat, choices: seq<nat>)
    requires LaidOut(a, mem, c, base, choices)
    ensures HasTypes(mem, RegionOf(a, c, base), choices)
  {
    hide GoodTypes;
    hide GoodRecords;
    hide FourBytes;
    hide Holds;
    hide AreaBytes;
    hide TypesBytes;
    hide EndOf;
    hide TtypeEntry;
    hide TableAt;
    hide BaseOf;
    if a.types != [] {
      AreaSplit(a, mem, c.lsda, base);
      OmitHasNoTypes(a.ttypeEncoding);
      TypeTableReadsBack(mem, RegionOf(a, c, base), EndOf(a, c.lsda), a.types, choices);
    }
  }

  lemma OmitHasNoTypes(encoding: byte)
    requires FourBytes(encoding)
    ensures encoding != DW_EH_PE_omit
  {
  }

  /** The number of an action is one more than its place in the table, and 0 if there is none. */
  function ActionNumber(records: seq<Record>, chain: Option<nat>): nat {
    match chain
    case None => 0
    case Some(i) => if i < |records| then |ActionBytes(records, i)| + 1 else 0
  }

  lemma NumberIsPlace(a: Area, c: Context, base: nat, i: nat)
    requires i < |a.records| && EndOf(a, c.lsda) <= WORD
    ensures var number := ActionNumber(a.records, Some(i));
      var place := ActionsAt(a, c.lsda) + |ActionBytes(a.records, i)|;
      number != 0 && place != 0 && Wrap(RegionOf(a, c, base).actionTable + number - 1) == place
  {
    hide ActionBytes;
    hide TableAt;
    hide Wrap;
    LaterIsHigher(a.records, i, |a.records|);
    SmallWord(ActionsAt(a, c.lsda) + |ActionBytes(a.records, i)|);
    TablesAreBehind(a, c.lsda);
  }

  lemma TablesAreBehind(a: Area, p: nat)
    ensures ActionsAt(a, p) > 0
  {
  }

  /** At this address there is this chain, in the bytes as well as among the chains of the tables. */
  ghost predicate ChainIsAt(mem: seq<byte>, r: Region, chains: map<nat, seq<Clause>>, at: nat, clauses: seq<Clause>) {
    at in chains && chains[at] == clauses && IsChain(mem, r, at, clauses)
  }

  lemma ChainIsRead(a: Area, mem: seq<byte>, c: Context, base: nat, choices: seq<nat>, i: nat)
    requires LaidOut(a, mem, c, base, choices) && i < |a.records|
    ensures GoodRecords(a.records, |choices|)
    ensures ChainIsAt(mem, RegionOf(a, c, base), ChainsOf(a.records, choices, ActionsAt(a, c.lsda), |a.records|),
                      ActionsAt(a, c.lsda) + |ActionBytes(a.records, i)|, ChainOf(a.records, choices, i))
  {
    hide *;
    TypesAreRead(a, mem, c, base, choices);
    PartsHeld(a, mem, c, base, choices);
    ChainReadsBack(mem, RegionOf(a, c, base), ActionsAt(a, c.lsda), a.records, choices, i, []);
    assert [] + ChainOf(a.records, choices, i) == ChainOf(a.records, choices, i);
    WholeChain(mem, RegionOf(a, c, base), ActionsAt(a, c.lsda) + |ActionBytes(a.records, i)|,
               ChainOf(a.records, choices, i));
    ChainsHold(a.records, choices, ActionsAt(a, c.lsda), |a.records|, i);
    IsAt(mem, RegionOf(a, c, base), ChainsOf(a.records, choices, ActionsAt(a, c.lsda), |a.records|),
         ActionsAt(a, c.lsda) + |ActionBytes(a.records, i)|, ChainOf(a.records, choices, i));
  }

  lemma IsAt(mem: seq<byte>, r: Region, chains: map<nat, seq<Clause>>, at: nat, clauses: seq<Clause>)
    ensures ChainIsAt(mem, r, chains, at, clauses) <==>
      at in chains && chains[at] == clauses && IsChain(mem, r, at, clauses)
  {
  }

  lemma WholeChain(mem: seq<byte>, r: Region, p: nat, clauses: seq<Clause>)
    requires IsChainFrom(mem, r, p, clauses, 0)
    ensures IsChain(mem, r, p, clauses)
  {
  }

  // ----- call sites -----

  /** A call site refers to the record its chain starts with. */
  datatype CallSite = CallSite(start: nat, len: nat, pad: nat, chain: Option<nat>)

  function SiteOf(records: seq<Record>, s: CallSite): Site {
    Site(s.start, s.len, s.pad, ActionNumber(records, s.chain))
  }

  function SitesOf(records: seq<Record>, sites: seq<CallSite>): (r: seq<Site>)
    ensures |r| == |sites| && forall k :: 0 <= k < |r| ==> r[k] == SiteOf(records, sites[k])
  {
    seq(|sites|, k requires 0 <= k < |sites| => SiteOf(records, sites[k]))
  }

  /** The table of the area is that of these call sites, which are sorted and refer to its records. */
  ghost predicate HasSites(a: Area, region: nat, sites: seq<CallSite>) {
    && a.table == TableBytes(SitesOf(a.records, sites)) && WellFormed(region, SitesOf(a.records, sites))
    && forall k :: 0 <= k < |sites| ==> GoodSite(a.records, sites[k])
  }

  ghost predicate GoodSite(records: seq<Record>, s: CallSite) {
    FitsWords(SiteOf(records, s)) && (s.chain.Some? ==> s.chain.value < |records|)
  }

  lemma SitesAreRead(a: Area, mem: seq<byte>, c: Context, base: nat, choices: seq<nat>, sites: seq<CallSite>)
    requires LaidOut(a, mem, c, base, choices) && HasSites(a, c.bases.region, sites)
    ensures Sites(mem, DW_EH_PE_uleb128, TableAt(a, c.lsda), ActionsAt(a, c.lsda)) == Some(SitesOf(a.records, sites))
  {
    hide LaidOut;
    hide WellFormed;
    hide FitsWords;
    hide TableBytes;
    hide Holds;
    hide TableAt;
    hide SiteOf;
    PartsHeld(a, mem, c, base, choices);
    assert forall k :: 0 <= k < |sites| ==> GoodSite(a.records, sites[k]);
    TableReadsBack(mem, TableAt(a, c.lsda), SitesOf(a.records, sites));
  }

  lemma DescribedBy(mem: seq<byte>, r: Region, s: Site, chains: map<nat, seq<Clause>>, entry: nat)
    requires Describe(r, s).entry == entry
    requires entry == 0 || (entry in chains && IsChain(mem, r, entry, chains[entry]))
    ensures Described(mem, r, s, chains)
  {
    hide IsChain;
    hide Describe;
  }

  lemma HasItsRecord(records: seq<Record>, s: CallSite)
    requires GoodSite(records, s) && s.chain.Some?
    ensures s.chain.value < |records|
  {
    hide FitsWords;
  }

  /** Pad and entry of a written site. */
  lemma DescribedAs(a: Area, c: Context, base: nat, s: CallSite)
    requires EndOf(a, c.lsda) <= WORD && (s.chain.Some? ==> s.chain.value < |a.records|)
    ensures var found := Describe(RegionOf(a, c, base), SiteOf(a.records, s));
      && found.AtSite? && found.pad == (if s.pad == 0 then 0 else Wrap(c.bases.region + s.pad))
      && match s.chain
         case None => found.entry == 0
         case Some(i) => found.entry != 0 && found.entry == ActionsAt(a, c.lsda) + |ActionBytes(a.records, i)|
  {
    hide ActionBytes;
    hide TableAt;
    hide EndOf;
    hide Wrap;
    hide ActionsAt;
    if s.chain.Some? {
      NumberIsPlace(a, c, base, s.chain.value);
    }
  }

  lemma SiteIsDescribed(a: Area, mem: seq<byte>, c: Context, base: nat, choices: seq<nat>, s: CallSite)
    requires LaidOut(a, mem, c, base, choices) && GoodSite(a.records, s)
    ensures GoodRecords(a.records, |choices|)
    ensures Described(mem, RegionOf(a, c, base), SiteOf(a.records, s),
                      ChainsOf(a.records, choices, ActionsAt(a, c.lsda), |a.records|))
  {
    hide *;
    PartsHeld(a, mem, c, base, choices);
    var chains := ChainsOf(a.records, choices, ActionsAt(a, c.lsda), |a.records|);
    if s.chain.Some? {
      HasItsRecord(a.records, s);
      ChainIsRead(a, mem, c, base, choices, s.chain.value);
      IsAt(mem, RegionOf(a, c, base), chains, ActionsAt(a, c.lsda) + |ActionBytes(a.records, s.chain.value)|,
           ChainOf(a.records, choices, s.chain.value));
    }
    DescribedAs(a, c, base, s);
    DescribedBy(mem, RegionOf(a, c, base), SiteOf(a.records, s), chains,
                Describe(RegionOf(a, c, base), SiteOf(a.records, s)).entry);
  }

  /** The tables the area was laid out for. */
  ghost function ViewOf(a: Area, c: Context, base: nat, choices: seq<nat>, sites: seq<CallSite>): View
    requires GoodRecords(a.records, |choices|)
  {
    Tables(RegionOf(a, c, base), SitesOf(a.records, sites),
           ChainsOf(a.records, choices, ActionsAt(a, c.lsda), |a.records|))
  }

  /** The area the compiler has laid out represents exactly the tables it was laid out for. */
  lemma WrittenAreaRepresents(a: Area, mem: seq<byte>, c: Context, base: nat, choices: seq<nat>, sites: seq<CallSite>)
    requires LaidOut(a, mem, c, base, choices) && HasSites(a, c.bases.region, sites)
    ensures GoodRecords(a.records, |choices|)
    ensures Represents(mem, c, ViewOf(a, c, base, choices, sites))
  {
    hide LaidOut;
    hide Holds;
    hide GoodRecords;
    hide GoodSite;
    hide TableAt;
    hide ActionsAt;
    hide EndOf;
    hide SiteOf;
    hide TableBytes;
    hide Described;
    hide ChainsOf;
    hide WellFormed;
    hide ParseRegion;
    hide Sites;
    PartsHeld(a, mem, c, base, choices);
    RegionIsRead(a, mem, c, base, choices);
    SitesAreRead(a, mem, c, base, choices, sites);
    forall k | 0 <= k < |sites|
      ensures Described(mem, RegionOf(a, c, base), SitesOf(a.records, sites)[k],
                        ChainsOf(a.records, choices, ActionsAt(a, c.lsda), |a.records|))
    {
      SiteIsDescribed(a, mem, c, base, choices, sites[k]);
    }
  }

  // ----- what is done at a call -----

  lemma SearchFinds(r: Region, sites: seq<Site>, ip: nat, k: nat)
    requires WellFormed(r.base, sites) && k < |sites| && Covers(r.base, sites[k], ip) && !EndsAtTop(r.base, sites[k])
    ensures FindSite(r.base, sites, ip).Some? && Describe(r, FindSite(r.base, sites, ip).value) == Describe(r, sites[k])
  {
    hide WellFormed;
    hide Covers;
    hide EndsAtTop;
    hide Describe;
    hide FindSite;
    FindSiteIsFullSearch(r, sites, ip);
    TopIsMissed(r, sites, ip, k, FoundAt(r, FindSite(r.base, sites, ip)));
  }

  /**
   The action written for a call site: none without a landing pad, a cleanup without a chain, and else
   what the clauses of its chain decide, the first one that catches the exception going before a cleanup.
   */
  ghost predicate Written(a: Area, region: nat, choices: seq<nat>, s: CallSite, ids: Ids, exc: Occurrence, forced: bool,
                          action: Action)
    requires GoodRecords(a.records, |choices|)
  {
    var pad := if s.pad == 0 then 0 else Wrap(region + s.pad);
    if pad == 0 then action == Nothing
    else
      match s.chain
      case None => action == Cleanup(pad)
      case Some(i) => i < |a.records| && action == Choose(ids, ChainOf(a.records, choices, i), exc, forced, pad)
  }

  lemma Decide(ids: Ids, v: View, ip: nat, exc: Occurrence, forced: bool, found: CallSiteAction,
               clauses: Option<seq<Clause>>)
    requires v.Tables? && FindSite(v.region.base, v.sites, ip).Some?
    requires found == Describe(v.region, FindSite(v.region.base, v.sites, ip).value)
    requires match clauses
             case None => found.entry == 0
             case Some(chain) => found.entry != 0 && found.entry in v.chains && v.chains[found.entry] == chain
    ensures ActionOf(ids, v, ip, exc, forced)
      == if found.pad == 0 then Nothing
         else match clauses
           case None => Cleanup(found.pad)
           case Some(chain) => Choose(ids, chain, exc, forced, found.pad)
  {
    hide FindSite;
    hide Describe;
    hide Choose;
  }

  lemma IsWritten(a: Area, c: Context, base: nat, choices: seq<nat>, s: CallSite, ids: Ids, exc: Occurrence,
                  forced: bool, action: Action)
    requires GoodRecords(a.records, |choices|) && (s.chain.Some? ==> s.chain.value < |a.records|)
    requires var found := Describe(RegionOf(a, c, base), SiteOf(a.records, s));
      && found.AtSite? && found.pad == (if s.pad == 0 then 0 else Wrap(c.bases.region + s.pad))
      && action == if found.pad == 0 then Nothing
                   else match s.chain
                     case None => Cleanup(found.pad)
                     case Some(i) => Choose(ids, ChainOf(a.records, choices, i), exc, forced, found.pad)
    ensures Written(a, c.bases.region, choices, s, ids, exc, forced, action)
  {
    hide Describe;
    hide GoodRecords;
    hide RegionOf;
    hide SiteOf;
    hide ChainOf;
    hide Choose;
    hide Wrap;
  }

  /** What the tables decide at an address inside a call site is what the site was written with. */
  lemma SiteDecides(a: Area, mem: seq<byte>, c: Context, base: nat, choices: seq<nat>, sites: seq<CallSite>, k: nat,
                    ids: Ids, ip: nat, exc: Occurrence, forced: bool)
    requires LaidOut(a, mem, c, base, choices) && HasSites(a, c.bases.region, sites) && k < |sites|
    requires c.bases.region + sites[k].start <= ip < c.bases.region + sites[k].start + sites[k].len != WORD
    ensures GoodRecords(a.records, |choices|)
    ensures Written(a, c.bases.region, choices, sites[k], ids, exc, forced,
                    ActionOf(ids, ViewOf(a, c, base, choices, sites), ip, exc, forced))
  {
    hide *;
    PartsHeld(a, mem, c, base, choices);
    var s := sites[k];
    var v := ViewOf(a, c, base, choices, sites);
    ViewParts(a, c, base, choices, sites);
    SiteFacts(a, c.bases.region, sites, k, ip);
    SearchFinds(v.region, v.sites, ip, k);
    DescribedAs(a, c, base, s);
    var found := Describe(v.region, SiteOf(a.records, s));
    match s.chain {
      case None =>
        Decide(ids, v, ip, exc, forced, found, None);
      case Some(i) =>
        ChainIsRead(a, mem, c, base, choices, i);
        IsAt(mem, v.region, v.chains, ActionsAt(a, c.lsda) + |ActionBytes(a.records, i)|,
             ChainOf(a.records, choices, i));
        Decide(ids, v, ip, exc, forced, found, Some(ChainOf(a.records, choices, i)));
    }
    IsWritten(a, c, base, choices, s, ids, exc, forced, ActionOf(ids, v, ip, exc, forced));
  }

  lemma SiteFacts(a: Area, region: nat, sites: seq<CallSite>, k: nat, ip: nat)
    requires HasSites(a, region, sites) && k < |sites|
    requires region + sites[k].start <= ip < region + sites[k].start + sites[k].len != WORD
    ensures WellFormed(region, SitesOf(a.records, sites)) && |SitesOf(a.records, sites)| == |sites|
    ensures SitesOf(a.records, sites)[k] == SiteOf(a.records, sites[k])
    ensures Covers(region, SitesOf(a.records, sites)[k], ip) && !EndsAtTop(region, SitesOf(a.records, sites)[k])
    ensures sites[k].chain.Some? ==> sites[k].chain.value < |a.records|
  {
    hide WellFormed;
    hide FitsWords;
    hide TableBytes;
    assert GoodSite(a.records, sites[k]);
  }

  lemma ViewParts(a: Area, c: Context, base: nat, choices: seq<nat>, sites: seq<CallSite>)
    requires GoodRecords(a.records, |choices|)
    ensures var v := ViewOf(a, c, base, choices, sites);
      && v.Tables? && v.region == RegionOf(a, c, base) && v.region.base == c.bases.region
      && v.sites == SitesOf(a.records, sites)
      && v.chains == ChainsOf(a.records, choices, ActionsAt(a, c.lsda), |a.records|)
  {
    hide ChainsOf;
    hide ActionsAt;
    hide TableAt;
    hide EndOf;
  }

  /**
   The instruction that a context stands at is inside the call site: a return address is behind its
   call, so it may be the first address behind the site, but not the first one in it.
   */
  predicate CallIsIn(c: Context, s: CallSite) {
    var first, behind := c.bases.region + s.start, c.bases.region + s.start + s.len;
    if c.ipBeforeInsn then first <= c.ip < behind else first < c.ip <= behind
  }

  /**
   What the personality routine decides in a frame is what was written for the call site that the call
   is in, and for no neighbour of it.
   */
  lemma CallDecides(a: Area, mem: seq<byte>, c: Context, base: nat, choices: seq<nat>, sites: seq<CallSite>, k: nat,
                    ids: Ids, exc: Occurrence, forced: bool)
    requires LaidOut(a, mem, c, base, choices) && HasSites(a, c.bases.region, sites)
    requires k < |sites| && CallIsIn(c, sites[k]) && c.bases.region + sites[k].start + sites[k].len != WORD
    ensures GoodRecords(a.records, |choices|) && Represents(mem, c, ViewOf(a, c, base, choices, sites))
    ensures Written(a, c.bases.region, choices, sites[k], ids, exc, forced,
                    ActionOf(ids, ViewOf(a, c, base, choices, sites), IpOf(c), exc, forced))
  {
    hide *;
    CallIp(a, c, sites, k);
    WrittenAreaRepresents(a, mem, c, base, choices, sites);
    SiteDecides(a, mem, c, base, choices, sites, k, ids, IpOf(c), exc, forced);
  }

  lemma CallIp(a: Area, c: Context, sites: seq<CallSite>, k: nat)
    requires HasSites(a, c.bases.region, sites) && k < |sites| && CallIsIn(c, sites[k])
    ensures c.bases.region + sites[k].start <= IpOf(c) < c.bases.region + sites[k].start + sites[k].len
  {
    hide TableBytes;
    assert SitesOf(a.records, sites)[k] == SiteOf(a.records, sites[k]);
  }
}
