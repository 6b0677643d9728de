/** The volume: allocation, writing of chains, directories and the two operations put and mkdir. */
module FatVolume {
  import opened Common
  import opened FatLayout
  import opened FatNames
  import opened FatAliases
  import opened FatDirs
  import opened FatState
  import opened FatLink

  // ----- allocation, as a specification -----

  /** The free clusters from c on, in ascending order. */
  function FreeFrom(g: Geometry, d: Disk, c: nat): (r: seq<nat>)
    requires Layout(g, d) && 2 <= c <= g.clusters + 2
    decreases g.clusters + 2 - c
  {
    if c == g.clusters + 2 then []
    else (if EntryOf(g, d, c) == 0 then [c] else []) + FreeFrom(g, d, c + 1)
  }

  /** The free clusters are all those with a table entry of 0, each once, the lowest one first. */
  lemma {:induction false} FreeAre(g: Geometry, d: Disk, c: nat)
    requires Layout(g, d) && 2 <= c <= g.clusters + 2
    ensures forall x :: x in FreeFrom(g, d, c) <==> c <= x < g.clusters + 2 && EntryOf(g, d, x) == 0
    ensures Ascending(FreeFrom(g, d, c))
    decreases g.clusters + 2 - c
  {
    hide EntryOf;
    if c < g.clusters + 2 {
      FreeAre(g, d, c + 1);
      var rest := FreeFrom(g, d, c + 1);
      assert forall i :: 0 <= i < |rest| ==> rest[i] in rest;
    }
  }

  ghost predicate FreeChain(g: Geometry, d: Disk, chain: seq<nat>, below: nat)
    requires Layout(g, d)
  {
    && Ascending(chain) && AllData(g, chain)
    && forall i :: 0 <= i < |chain| ==> chain[i] < below && EntryOf(g, d, chain[i]) == 0
  }

  lemma FreeChainExtend(g: Geometry, d: Disk, chain: seq<nat>, c: nat)
    requires Layout(g, d) && g.IsData(c) && FreeChain(g, d, chain, c)
    ensures FreeChain(g, d, chain, c + 1)
    ensures EntryOf(g, d, c) == 0 ==> FreeChain(g, d, chain + [c], c + 1)
  {
  }

  /** What the search for free clusters has found before it looks at cluster c. */
  ghost predicate Scanned(g: Geometry, d: Disk, chain: seq<nat>, c: nat)
    requires Layout(g, d)
  {
    && 2 <= c <= g.clusters + 2 && FreeChain(g, d, chain, c)
    && chain + FreeFrom(g, d, c) == FreeFrom(g, d, 2)
  }

  lemma ScanStart(g: Geometry, d: Disk)
    requires Layout(g, d)
    ensures Scanned(g, d, [], 2)
  {
  }

  lemma ScanStep(g: Geometry, d: Disk, chain: seq<nat>, c: nat)
    requires Layout(g, d) && c < g.clusters + 2 && Scanned(g, d, chain, c)
    ensures Scanned(g, d, if EntryOf(g, d, c) == 0 then chain + [c] else chain, c + 1)
  {
    FreeChainExtend(g, d, chain, c);
    hide FreeChain;
    assert (chain + [c]) + FreeFrom(g, d, c + 1) == chain + ([c] + FreeFrom(g, d, c + 1));
  }

  lemma ScanStop(g: Geometry, d: Disk, chain: seq<nat>, c: nat, count: nat)
    requires Layout(g, d) && Scanned(g, d, chain, c) && |chain| <= count && (|chain| == count || c == g.clusters + 2)
    ensures |FreeFrom(g, d, 2)| < count <==> |chain| < count
    ensures |chain| == count ==> FreeFrom(g, d, 2)[..count] == chain
    ensures FreeChain(g, d, chain, c)
  {
    hide FreeChain;
  }

  /** The first i clusters of the chain are linked; all other entries are as they were. */
  ghost predicate LinkedUpTo(g: Geometry, d: Disk, e: Disk, chain: seq<nat>, i: nat)
    requires Layout(g, d) && i <= |chain| && AllData(g, chain)
  {
    && Layout(g, e) && Mirrored(g, e) && SameOutsideFat(g, d, e)
    && (forall j :: 0 <= j < i ==> EntryOf(g, e, chain[j]) == Next(chain, j))
    && forall c: nat :: c < g.clusters + 2 && c !in chain[..i] ==> EntryOf(g, e, c) == EntryOf(g, d, c)
  }

  lemma LinkOne(g: Geometry, d: Disk, e: Disk, h: Disk, chain: seq<nat>, i: nat)
    requires Layout(g, d) && i < |chain| && AllData(g, chain) && Ascending(chain) && LinkedUpTo(g, d, e, chain, i)
    requires Layout(g, h) && SameOutsideFat(g, e, h) && FatUpdated(g, e, h, chain[i], Next(chain, i))
    ensures LinkedUpTo(g, d, h, chain, i + 1)
  {
    DataHasEntry(g, chain[i]);
    assert chain[..i + 1] == chain[..i] + [chain[i]];
    forall c: nat | c < g.clusters + 2
      ensures EntryOf(g, h, c) == if c == chain[i] then Next(chain, i) else EntryOf(g, e, c)
    {
      DataHasEntry(g, c);
    }
  }

  lemma LinkedAll(g: Geometry, d: Disk, e: Disk, chain: seq<nat>, below: nat)
    requires Layout(g, d) && chain != [] && FreeChain(g, d, chain, below) && LinkedUpTo(g, d, e, chain, |chain|)
    ensures Allocated(g, d, e, chain)
  {
    assert chain[..|chain|] == chain;
  }

  // ----- the bytes written -----

  /** The payload padded to whole clusters. */
  function PadToClusters(g: Geometry, payload: seq<byte>): (r: seq<byte>)
    requires g.clusterSectors >= 1
    ensures payload <= r
  {
    payload + Zeros(-|payload| % g.ClusterBytes())
  }

  lemma PaddedLength(g: Geometry, payload: seq<byte>)
    requires g.clusterSectors >= 1
    ensures |PadToClusters(g, payload)| == ClustersFor(g, |payload|) * g.ClusterBytes()
  {
    var n, b := |payload|, g.ClusterBytes();
    var q, r := n / b, n % b;
    assert n == q * b + r;
    if r == 0 {
      DivModUnique(n + b - 1, b, q, b - 1);
      DivModUnique(-n, b, -q, 0);
      NegMul(q, b);
    } else {
      AddOne(q, b);
      DivModUnique(n + b - 1, b, q + 1, r - 1);
      NegMul(q + 1, b);
      DivModUnique(-n, b, -(q + 1), b - r);
    }
  }

  lemma NegMul(q: int, b: int)
    ensures -q * b == -(q * b)
  {
  }

  lemma AddOne(q: int, b: int)
    ensures (q + 1) * b == q * b + b
  {
  }

  // ----- paths -----

  /** The first directory of that name in a listing. */
  function FindDirectory(listing: seq<(Name, Slot)>, part: Name, upper: Name -> Name): Option<nat>
    requires forall i :: 0 <= i < |listing| ==> |listing[i].1| == SLOT
  {
    if listing == [] then None
    else
      var (name, slot) := listing[0];
      if !IsVolumeId(slot) && upper(name) == upper(part) && IsDirectory(slot) then Some(First(slot))
      else FindDirectory(listing[1..], part, upper)
  }

  /** An entry of a listing that is a directory of this name, whatever the case of its letters. */
  predicate IsNamed(entry: (Name, Slot), part: Name, upper: Name -> Name)
    requires |entry.1| == SLOT
  {
    upper(entry.0) == upper(part) && entry.1[11] / 8 % 2 == 0 && entry.1[11] / 16 % 2 == 1
  }

  /** The search finds the first such entry and returns the cluster it refers to; it fails iff there is none. */
  lemma {:induction false} FoundFirst(listing: seq<(Name, Slot)>, part: Name, upper: Name -> Name)
    requires forall i :: 0 <= i < |listing| ==> |listing[i].1| == SLOT
    ensures match FindDirectory(listing, part, upper)
            case None => forall i :: 0 <= i < |listing| ==> !IsNamed(listing[i], part, upper)
            case Some(c) => exists i ::
              && 0 <= i < |listing| && IsNamed(listing[i], part, upper)
              && (forall j :: 0 <= j < i ==> !IsNamed(listing[j], part, upper)) && c == U16(listing[i].1, 26)
  {
    if listing != [] {
      var (name, slot) := listing[0];
      var rest := listing[1..];
      FoundFirst(rest, part, upper);
      assert forall i :: 1 <= i < |listing| ==> listing[i] == rest[i - 1];
      if IsNamed(listing[0], part, upper) {
        assert FindDirectory(listing, part, upper) == Some(First(slot));
      } else if FindDirectory(rest, part, upper).Some? {
        var i :| 0 <= i < |rest| && IsNamed(rest[i], part, upper)
          && (forall j :: 0 <= j < i ==> !IsNamed(rest[j], part, upper))
          && FindDirectory(rest, part, upper) == Some(U16(rest[i].1, 26));
        assert listing[i + 1] == rest[i];
      }
    }
  }

  lemma {:induction false} ListingMembers(p: Pending, slots: seq<Slot>)
    requires AreSlots(slots)
    ensures forall i :: 0 <= i < |Listing(p, slots)| ==>
      Listing(p, slots)[i].1 in slots && |Listing(p, slots)[i].1| == SLOT && IsEntry(Listing(p, slots)[i].1)
    decreases |slots|
  {
    hide Collect;
    hide NameOf;
    if slots != [] && slots[0][0] != 0 {
      ListingMembers(Collect(p, slots[0]), slots[1..]);
      var rest := Listing(Collect(p, slots[0]), slots[1..]);
      assert forall i :: 0 <= i < |rest| ==> rest[i].1 in slots[1..];
    }
  }

  /** The listing of a directory. */
  ghost function Names(fs: Fs, c: nat): (r: seq<(Name, Slot)>)
    requires SlotsOk(fs) && c in fs.live
    ensures forall i :: 0 <= i < |r| ==> r[i].1 in fs.live[c] && |r[i].1| == SLOT && IsEntry(r[i].1)
  {
    ListingMembers(NOTHING_PENDING, fs.live[c]);
    Listing(NOTHING_PENDING, fs.live[c])
  }

  /** The directory a path leads to from directory c. */
  ghost function Resolve(fs: Fs, c: nat, parts: seq<Name>, upper: Name -> Name): (r: Option<nat>)
    requires SlotsOk(fs)
    ensures r.Some? ==> r.value in fs.live
    decreases |parts|
  {
    if c !in fs.live then None
    else if parts == [] then Some(c)
    else
      match FindDirectory(Names(fs, c), parts[0], upper)
      case None => None
      case Some(next) => Resolve(fs, next, parts[1..], upper)
  }

  lemma {:induction false} FoundLeadsOn(listing: seq<(Name, Slot)>, part: Name, upper: Name -> Name)
    requires forall i :: 0 <= i < |listing| ==> |listing[i].1| == SLOT && IsEntry(listing[i].1)
    requires FindDirectory(listing, part, upper).Some?
    ensures exists i ::
      0 <= i < |listing| && LeadsOn(listing[i].1) && First(listing[i].1) == FindDirectory(listing, part, upper).value
  {
    var (name, slot) := listing[0];
    if !IsVolumeId(slot) && upper(name) == upper(part) && IsDirectory(slot) {
      assert LeadsOn(listing[0].1);
    } else {
      FoundLeadsOn(listing[1..], part, upper);
      var i :| 0 <= i < |listing[1..]| && LeadsOn(listing[1..][i].1)
        && First(listing[1..][i].1) == FindDirectory(listing, part, upper).value;
      assert listing[i + 1] == listing[1..][i];
    }
  }

  /** A path never leads to something that is not a directory of the volume. */
  lemma FoundIsLive(fs: Fs, c: nat, part: Name, upper: Name -> Name)
    requires RefsOk(fs) && c in fs.live && FindDirectory(Names(fs, c), part, upper).Some?
    ensures FindDirectory(Names(fs, c), part, upper).value in fs.live
  {
    FoundLeadsOn(Names(fs, c), part, upper);
    var i :| 0 <= i < |Names(fs, c)| && LeadsOn(Names(fs, c)[i].1)
      && First(Names(fs, c)[i].1) == FindDirectory(Names(fs, c), part, upper).value;
    var k :| 0 <= k < |fs.live[c]| && fs.live[c][k] == Names(fs, c)[i].1;
    assert LeadsOn(fs.live[c][k]);
  }

  // ----- reading a directory back -----

  lemma LiveSlots(d: Disk, lbas: seq<nat>, live: seq<Slot>)
    requires LiveIn(d, lbas, live)
    ensures Slots(d, lbas) == live + Slots(d, lbas)[|live|..]
    ensures var rest := Slots(d, lbas)[|live|..]; AreSlots(rest) && (rest == [] || rest[0][0] == 0)
  {
    forall k | 0 <= k < |live|
      ensures Slots(d, lbas)[k] == live[k]
    {
    }
  }

  /** The live slots after writing the first n of the new slots. */
  ghost predicate PartlyWritten(d: Disk, lbas: seq<nat>, before: seq<Slot>, start: nat, slots: seq<Slot>, n: nat)
    requires n <= |slots| && start + |slots| <= |before|
  {
    && LbasOk(d, lbas) && |lbas| * 16 == |before|
    && forall k :: 0 <= k < |before| ==>
         SlotAt(d, lbas, k) == if start <= k < start + n then slots[k - start] else before[k]
  }

  lemma PartlyNext(d: Disk, lbas: seq<nat>, before: seq<Slot>, start: nat, slots: seq<Slot>, n: nat)
    requires n < |slots| && start + |slots| <= |before| && AreSlots(slots)
    requires PartlyWritten(d, lbas, before, start, slots, n)
    ensures var e := WriteSlot(d, lbas, start + n, slots[n]);
      && |e| == |d| && PartlyWritten(e, lbas, before, start, slots, n + 1)
      && forall lba :: 0 <= lba < |d| && lba !in lbas ==> e[lba] == d[lba]
  {
    WriteSlotEffect(d, lbas, start + n, slots[n]);
    forall k | 0 <= k < |before| {
      WriteSlotAt(d, lbas, start + n, slots[n], k);
    }
  }

  lemma AppendedSlots(g: Geometry, e: Disk, lbas: seq<nat>, before: seq<Slot>, live: seq<Slot>, slots: seq<Slot>)
    requires |live| + |slots| <= |before| && Unterminated(live) && Unterminated(slots) && AreSlots(before)
    requires forall k :: 0 <= k < |before| ==> if k < |live| then before[k] == live[k] else before[k][0] == 0
    requires PartlyWritten(e, lbas, before, |live|, slots, |slots|)
    ensures LiveIn(e, lbas, live + slots)
  {
  }

  // ----- outcomes -----

  datatype Outcome = Done | NoName | NoSuchDirectory | OutOfSpace | NoShortName | NameTooLong | DirectoryFull

  /** The failures that strike only after clusters have been allocated. */
  predicate IsLate(o: Outcome) {
    o.NoShortName? || o.NameTooLong? || o.DirectoryFull?
  }

  /** How many slots a directory has: the root a region of its own, any other one cluster. */
  function Capacity(g: Geometry, c: nat): nat {
    16 * (if c == 0 then g.RootSectors() else g.clusterSectors)
  }

  lemma CapacityIs(g: Geometry, d: Disk, c: nat)
    requires Layout(g, d) && (c != 0 ==> g.IsData(c))
    ensures 16 * |DirLbas(g, c)| == Capacity(g, c)
  {
    if c != 0 {
      SingleChainLbas(g, c);
    }
  }

  /** Whether a name can be entered behind the live slots of a directory. */
  ghost function EntryOutcome(g: Geometry, parent: nat, live: seq<Slot>, name: Name, upper: Name -> Name): Outcome
    requires AreSlots(live)
  {
    if NoneFree(name, UsedShortNames(live), upper) then NoShortName
    else if ChunkCount(name) > 255 then NameTooLong
    else if |live| + ChunkCount(name) + 1 > Capacity(g, parent) then DirectoryFull
    else Done
  }

  datatype Operation = PutFile(path: seq<Name>, payload: seq<byte>) | MakeDirectory(path: seq<Name>)

  /** The operation has to allocate clusters. */
  predicate Allocates(o: Operation) {
    o.MakeDirectory? || o.payload != []
  }

  /** The chain is new and lost so far; nothing else has changed. */
  ghost predicate IsClaimed(g: Geometry, before: Fs, after: Fs, chain: seq<nat>) {
    && AllData(g, chain) && Ascending(chain)
    && chain != [] && chain[0] !in before.chains
    && after == Reserve(before, chain)
  }

  lemma ClaimedFacts(g: Geometry, before: Fs, after: Fs, chain: seq<nat>)
    requires g.Formatted() && IsClaimed(g, before, after, chain)
    ensures chain[0] in after.lost && chain[0] in after.chains && after.chains[chain[0]] == chain
    ensures after.live == before.live && chain[0] < 65536 && g.IsData(chain[0])
  {
  }

  function FirstIn(chain: seq<nat>): nat {
    if chain == [] then 0 else chain[0]
  }

  lemma {:induction false} AscendingLength(g: Geometry, chain: seq<nat>, i: nat)
    requires AllData(g, chain) && Ascending(chain) && i < |chain|
    ensures chain[i] >= 2 + i
  {
    if i > 0 {
      AscendingLength(g, chain, i - 1);
    }
  }

  /** A payload for which there are clusters is short enough for the size field. */
  lemma PayloadFits(g: Geometry, chain: seq<nat>, payload: seq<byte>)
    requires g.Formatted() && AllData(g, chain) && Ascending(chain) && |chain| == ClustersFor(g, |payload|)
    ensures |payload| < 0x1_0000_0000
  {
    if chain != [] {
      AscendingLength(g, chain, |chain| - 1);
    }
    PaddedLength(g, payload);
    assert |chain| <= 65524 && g.ClusterBytes() <= 65536;
    ProductBound(|chain|, g.ClusterBytes());
  }

  lemma ProductBound(a: nat, b: nat)
    requires a <= 65524 && b <= 65536
    ensures a * b < 0x1_0000_0000
  {
    assert a * b <= 65524 * b;
  }

  /** What the entry made by an operation refers to. */
  ghost function TargetOf(op: Operation, parent: nat, chain: seq<nat>): Target
    requires Allocates(op) ==> chain != [] && chain[0] < 65536
    requires parent < 65536
  {
    match op
    case PutFile(_, payload) => if payload == [] then EmptyFile else FileAt(chain[0], payload)
    case MakeDirectory(_) => FolderAt(chain[0], Dots(chain[0], parent))
  }

  ghost function ClaimedBy(op: Operation, fs: Fs, chain: seq<nat>): Fs
    requires Allocates(op) ==> chain != []
  {
    if Allocates(op) then Reserve(fs, chain) else fs
  }

  /** The clusters an operation needs. */
  function Needs(g: Geometry, op: Operation): nat
    requires g.clusterSectors >= 1
  {
    match op
    case PutFile(_, payload) => ClustersFor(g, |payload|)
    case MakeDirectory(_) => 1
  }

  /** The path of the directory an operation works in. */
  function FolderOf(op: Operation): seq<Name>
    requires op.path != []
  {
    op.path[..|op.path| - 1]
  }

  function NameIn(op: Operation): Name
    requires op.path != []
  {
    op.path[|op.path| - 1]
  }

  /** The outcome of an operation: decided by the path, the free clusters and the parent, in this order. */
  ghost function OutcomeOf(g: Geometry, d: Disk, fs: Fs, op: Operation, upper: Name -> Name): Outcome
    requires Layout(g, d) && SlotsOk(fs)
  {
    if op.path == [] then NoName
    else
      match Resolve(fs, 0, FolderOf(op), upper)
      case None => NoSuchDirectory
      case Some(parent) =>
        if Allocates(op) && |FreeFrom(g, d, 2)| < Needs(g, op) then OutOfSpace
        else EntryOutcome(g, parent, fs.live[parent], NameIn(op), upper)
  }

  /**
   When an operation fails and how: without a name; if its directory is not found; with too few free
   clusters; and else if none of the 99 aliases is free, the name is longer than 255 chunks, or the slots
   behind the live ones do not suffice.
   */
  lemma OutcomeIs(g: Geometry, d: Disk, fs: Fs, op: Operation, upper: Name -> Name)
    requires Layout(g, d) && SlotsOk(fs)
    ensures var r := OutcomeOf(g, d, fs, op, upper);
      && (r == NoName <==> op.path == [])
      && (op.path != [] ==>
            var parent := Resolve(fs, 0, FolderOf(op), upper);
            && (r == NoSuchDirectory <==> parent.None?)
            && (parent.Some? ==>
                  var live, name := fs.live[parent.value], NameIn(op);
                  var slots := 16 * if parent.value == 0 then g.RootSectors() else g.clusterSectors;
                  var enough := !Allocates(op) || Needs(g, op) <= |FreeFrom(g, d, 2)|;
                  var alias := !NoneFree(name, UsedShortNames(live), upper);
                  var fits := |live| + ChunkCount(name) + 1 <= slots;
                  && (r == OutOfSpace <==> !enough)
                  && (r == NoShortName <==> enough && !alias)
                  && (r == NameTooLong <==> enough && alias && |name| > 13 * 255)
                  && (r == DirectoryFull <==> enough && alias && |name| <= 13 * 255 && !fits)
                  && (r == Done <==> enough && alias && |name| <= 13 * 255 && fits)))
  {
    hide NoneFree;
    hide FreeFrom;
    hide UsedShortNames;
    hide Resolve;
    hide Layout;
  }

  /** The chain of an operation that allocates consists of the first free clusters. */
  ghost predicate FirstFit(g: Geometry, d: Disk, op: Operation, r: Outcome, chain: seq<nat>)
    requires Layout(g, d)
  {
    (r.Done? || IsLate(r)) && Allocates(op) ==>
      |FreeFrom(g, d, 2)| >= Needs(g, op) && chain == FreeFrom(g, d, 2)[..Needs(g, op)]
  }

  /** What a successful operation does: one chain and one entry at the end of the parent are added. */
  ghost predicate Performed(g: Geometry, before: Fs, after: Fs, op: Operation, upper: Name -> Name, short: seq<byte>,
                            chain: seq<nat>)
    requires g.Formatted() && SlotsOk(before)
  {
    && op.path != []
    && var parent, name := Resolve(before, 0, FolderOf(op), upper), NameIn(op);
       && parent.Some? && parent.value < 65536
       && NewAlias(before, parent.value, short) && ChunkCount(name) <= 255
       && IsFirstFree(name, UsedShortNames(before.live[parent.value]), upper, short)
       && (Allocates(op) ==> AllData(g, chain) && chain != [] && chain[0] !in before.chains && |chain| == Needs(g, op))
       && var t := TargetOf(op, parent.value, chain);
          && SizeOf(t) < 0x1_0000_0000
          && after == Link(ClaimedBy(op, before, chain), parent.value,
                           EntrySlots(name, short, AttributesOf(t), FirstOf(t), SizeOf(t)), t)
  }

  /** No entry of the directory has this short name. */
  ghost predicate NewAlias(fs: Fs, parent: nat, short: seq<byte>) {
    && IsAlias(short) && parent in fs.live && AreSlots(fs.live[parent])
    && forall i :: 0 <= i < |fs.live[parent]| && IsEntry(fs.live[parent][i]) ==> fs.live[parent][i][..11] != short
  }

  /** How the outcome of an operation relates the volume before and after it. */
  ghost predicate Follows(g: Geometry, d: Disk, before: Fs, e: Disk, after: Fs, op: Operation, upper: Name -> Name,
                          r: Outcome, short: seq<byte>, chain: seq<nat>)
    requires g.Formatted()
  {
    if r.Done? then SlotsOk(before) && Performed(g, before, after, op, upper, short, chain)
    else if IsLate(r) && Allocates(op) then IsClaimed(g, before, after, chain) && |chain| == Needs(g, op)
    else after == before && e == d
  }

  /** Files keep their contents and chains, and directories the slots they have, at the front. */
  ghost predicate Grows(before: Fs, after: Fs) {
    Keeps(before, after) && before.lost <= after.lost
  }

  lemma KeepsOn(a: Fs, b: Fs, c: Fs)
    requires Keeps(a, b) && Keeps(b, c)
    ensures Keeps(a, c)
  {
  }

  lemma GrowsOn(a: Fs, b: Fs, c: Fs)
    requires Grows(a, b) && Grows(b, c)
    ensures Grows(a, c) && a.lost <= b.lost <= c.lost
  {
  }

  /** One operation keeps what was stored; it loses a chain just when it fails late after allocating. */
  lemma FollowsGrows(g: Geometry, d: Disk, before: Fs, e: Disk, after: Fs, op: Operation, upper: Name -> Name,
                     r: Outcome, short: seq<byte>, chain: seq<nat>)
    requires g.Formatted() && KeysOk(before) && Follows(g, d, before, e, after, op, upper, r, short, chain)
    ensures Grows(before, after) && before.lost <= after.lost
    ensures after.lost == before.lost <==> !(IsLate(r) && Allocates(op))
  {
    hide Resolve;
    hide IsFirstFree;
    hide EntrySlots;
    hide UsedShortNames;
    if r.Done? {
      var parent := Resolve(before, 0, FolderOf(op), upper).value;
      var t := TargetOf(op, parent, chain);
      var claimed := ClaimedBy(op, before, chain);
      LinkGrows(claimed, parent, EntrySlots(NameIn(op), short, AttributesOf(t), FirstOf(t), SizeOf(t)), t);
      if Allocates(op) {
        ReserveGrows(before, chain);
        KeepsOn(before, claimed, after);
      }
    } else if IsLate(r) && Allocates(op) {
      ReserveGrows(before, chain);
    } else {
      assert after == before;
    }
  }

  /** Contents, chains and live slots are kept. */
  ghost predicate Keeps(before: Fs, after: Fs) {
    && (forall f :: f in before.contents && f in before.chains ==>
         f in after.contents && after.contents[f] == before.contents[f] && f in after.chains
           && after.chains[f] == before.chains[f])
    && forall c :: c in before.live ==> c in after.live && before.live[c] <= after.live[c]
  }

  lemma LinkGrows(fs: Fs, parent: nat, slots: seq<Slot>, t: Target)
    requires parent in fs.live && slots != []
    requires !t.EmptyFile? ==> t.first in fs.lost && t.first !in fs.contents && t.first !in fs.live
    ensures Keeps(fs, Link(fs, parent, slots, t))
  {
  }

  lemma ReserveGrows(fs: Fs, chain: seq<nat>)
    requires chain != [] && chain[0] !in fs.chains
    ensures Keeps(fs, Reserve(fs, chain))
  {
  }

  /** None of the operations run so far has failed after allocating clusters. */
  ghost predicate LosesNothing(ops: seq<Operation>, outcomes: seq<Outcome>)
    requires |outcomes| <= |ops|
  {
    forall k :: 0 <= k < |outcomes| ==> !(IsLate(outcomes[k]) && Allocates(ops[k]))
  }

  lemma LosesOneMore(ops: seq<Operation>, outcomes: seq<Outcome>, r: Outcome)
    requires |outcomes| < |ops|
    ensures LosesNothing(ops, outcomes + [r]) <==>
      LosesNothing(ops, outcomes) && !(IsLate(r) && Allocates(ops[|outcomes|]))
  {
    var more := outcomes + [r];
    assert forall k :: 0 <= k < |outcomes| ==> more[k] == outcomes[k];
    assert more[|outcomes|] == r;
  }

  lemma ClustersForOne(g: Geometry)
    requires g.clusterSectors >= 1
    ensures ClustersFor(g, g.ClusterBytes()) == 1
  {
    DivModUnique(2 * g.ClusterBytes() - 1, g.ClusterBytes(), 1, g.ClusterBytes() - 1);
  }

  /** The slots of a blank directory: the dot entries, then slots that start with 0. */
  lemma BlankSlots(dots: seq<Slot>, n: nat, k: nat)
    requires |dots| == 2 && AreSlots(dots) && k * SLOT + SLOT <= 2 * SLOT + n
    ensures var slot := (dots[0] + dots[1] + Zeros(n))[k * SLOT..k * SLOT + SLOT];
      |slot| == SLOT && if k < 2 then slot == dots[k] else slot[0] == 0
  {
  }

  lemma FolderSlot(g: Geometry, d: Disk, f: nat, blank: seq<byte>, k: nat)
    requires Layout(g, d) && g.IsData(f) && |blank| == g.ClusterBytes() && blank <= ClusterSpan(g, d, f)
    requires k < 16 * g.clusterSectors
    ensures LbasOk(d, DirLbas(g, f)) && |DirLbas(g, f)| == g.clusterSectors
    ensures SlotAt(d, DirLbas(g, f), k) == blank[k * SLOT..k * SLOT + SLOT]
  {
    SlotsOfCluster(g, d, f, k);
  }

  /** A cluster that starts with the two dot entries and is zero otherwise is a directory. */
  lemma FolderIsLive(g: Geometry, d: Disk, parent: nat, f: nat, blank: seq<byte>)
    requires Layout(g, d) && g.IsData(f) && f < 65536 && parent < 65536
    requires blank == Dots(f, parent)[0] + Dots(f, parent)[1] + Zeros(g.ClusterBytes() - 2 * SLOT)
    requires blank <= ClusterSpan(g, d, f)
    ensures LiveIn(d, DirLbas(g, f), Dots(f, parent))
  {
    FolderSlot(g, d, f, blank, 0);
    forall k | 0 <= k < 16 * g.clusterSectors
      ensures if k < 2 then SlotAt(d, DirLbas(g, f), k) == Dots(f, parent)[k] else SlotAt(d, DirLbas(g, f), k)[0] == 0
    {
      FolderSlot(g, d, f, blank, k);
      BlankSlots(Dots(f, parent), g.ClusterBytes() - 2 * SLOT, k);
    }
  }

  lemma FolderIsReady(g: Geometry, d: Disk, fs: Fs, parent: nat, f: nat, blank: seq<byte>)
    requires Layout(g, d) && g.IsData(f) && f in fs.lost && f in fs.chains && fs.chains[f] == [f] && parent < 65536
    requires blank == Dots(f, parent)[0] + Dots(f, parent)[1] + Zeros(g.ClusterBytes() - 2 * SLOT)
    requires ChainBytes(g, d, [f]) == PadToClusters(g, blank)
    ensures Ready(g, d, fs, parent, FolderAt(f, Dots(f, parent)))
  {
    hide LiveIn;
    assert [f][..0] == [];
    assert blank <= ClusterSpan(g, d, f);
    FolderIsLive(g, d, parent, f, blank);
  }

  class Volume {
    const g: Geometry
    const upper: Name -> Name
    var disk: Disk
    ghost var fs: Fs

    ghost predicate Valid()
      reads this
    {
      Layout(g, disk) && Inv(g, disk, fs)
    }

    /** A blank formatted volume; its root may hold entries that are neither files nor directories. */
    constructor (g: Geometry, upper: Name -> Name, disk: Disk, ghost mark: seq<Slot>)
      requires Layout(g, disk) && Mirrored(g, disk)
      requires forall c :: g.IsData(c) ==> EntryOf(g, disk, c) == 0
      requires LiveIn(disk, RootLbas(g), mark) && DistinctAliases(mark)
      requires forall i :: 0 <= i < |mark| ==> !IsReal(mark[i]) && !LeadsOn(mark[i])
      ensures Valid() && this.g == g && this.upper == upper && this.disk == disk
      ensures fs == Fs(map[], map[], map[0 := mark], {}, map[])
    {
      this.g, this.upper, this.disk := g, upper, disk;
      fs := Fs(map[], map[], map[0 := mark], {}, map[]);
    }

    // ----- allocation table -----

    method GetFat(cluster: nat) returns (v: nat)
      requires Layout(g, disk) && cluster < g.clusters + 2
      ensures v == EntryOf(g, disk, cluster)
    {
      DataHasEntry(g, cluster);
      FatInside(g, 0, cluster);
      FirstTable(g, cluster);
      var offset := cluster * 2;
      var sector := disk[g.FatStart() + offset / SECTOR];
      v := U16(sector, offset % SECTOR);
    }

    /** Writes the entry in every copy of the table. */
    method SetFat(cluster: nat, value: nat)
      requires Layout(g, disk) && g.HasEntry(cluster) && value < 65536
      modifies this`disk
      ensures Layout(g, disk) && SameOutsideFat(g, old(disk), disk)
      ensures FatUpdated(g, old(disk), disk, cluster, value)
    {
      for copy := 0 to g.fatCopies
        invariant Layout(g, disk) && SameOutsideFat(g, old(disk), disk)
        invariant forall i, b :: 0 <= i < g.fatCopies && 0 <= b && g.HasEntry(b) ==>
          FatEntry(g, disk, i, b) == if i < copy && b == cluster then value else FatEntry(g, old(disk), i, b)
      {
        PutFatHolds(g, disk, copy, cluster, value);
        forall i: nat, b: nat | i < g.fatCopies && g.HasEntry(b) {
          PutFatEntry(g, disk, copy, cluster, value, i, b);
        }
        disk := PutFat(g, disk, copy, cluster, value);
      }
    }

    /** First fit: the chain consists of the first free clusters. */
    method Allocate(count: nat) returns (r: Option<seq<nat>>)
      requires Layout(g, disk) && Mirrored(g, disk) && count >= 1
      modifies this`disk
      ensures r.None? <==> |FreeFrom(g, old(disk), 2)| < count
      ensures r.None? ==> disk == old(disk)
      ensures r.Some? ==> r.value == FreeFrom(g, old(disk), 2)[..count] && Allocated(g, old(disk), disk, r.value)
    {
      hide *;
      var chain: seq<nat> := [];
      var cluster: nat := 2;
      ScanStart(g, disk);
      while |chain| < count && cluster < g.clusters + 2
        invariant disk == old(disk) && |chain| <= count && Scanned(g, disk, chain, cluster)
        invariant cluster <= g.clusters + 2
      {
        ScanStep(g, disk, chain, cluster);
        var entry := GetFat(cluster);
        if entry == 0 {
          chain := chain + [cluster];
        }
        cluster := cluster + 1;
      }
      ScanStop(g, disk, chain, cluster, count);
      if |chain| < count {
        return None;
      }
      LinkChain(chain, cluster);
      return Some(chain);
    }

    /** Links free clusters into a chain. */
    method LinkChain(chain: seq<nat>, ghost below: nat)
      requires Layout(g, disk) && Mirrored(g, disk) && chain != [] && FreeChain(g, disk, chain, below)
      modifies this`disk
      ensures Allocated(g, old(disk), disk, chain)
    {
      for i := 0 to |chain|
        invariant LinkedUpTo(g, old(disk), disk, chain, i)
      {
        DataHasEntry(g, chain[i]);
        ghost var e := disk;
        SetFat(chain[i], if i + 1 < |chain| then chain[i + 1] else END_OF_CHAIN);
        LinkOne(g, old(disk), e, disk, chain, i);
      }
      LinkedAll(g, old(disk), disk, chain, below);
    }

    // ----- data -----

    /** Writes one cluster. */
    method WriteCluster(c: nat, block: seq<byte>)
      requires Layout(g, disk) && g.IsData(c) && |block| == g.ClusterBytes()
      modifies this`disk
      ensures Layout(g, disk) && ClusterSpan(g, disk, c) == block
      ensures SameSectors(old(disk), disk, 0, g.DataStart())
      ensures forall b :: g.IsData(b) && b != c ==> SameCluster(g, old(disk), disk, b)
    {
      LbaInside(g, c);
      var lba := g.Lba(c);
      for s := 0 to g.clusterSectors
        invariant Layout(g, disk) && |disk| == |old(disk)|
        invariant forall k :: 0 <= k < |disk| && !(lba <= k < lba + g.clusterSectors) ==> disk[k] == old(disk)[k]
        invariant Span(disk, lba, s) == block[..s * SECTOR]
      {
        ghost var before := disk;
        disk := disk[lba + s := block[s * SECTOR..(s + 1) * SECTOR]];
        SpanSame(before, disk, lba, s);
        assert block[..(s + 1) * SECTOR] == block[..s * SECTOR] + block[s * SECTOR..(s + 1) * SECTOR];
      }
      assert block[..g.ClusterBytes()] == block;
      forall b | g.IsData(b) && b != c
        ensures SameCluster(g, old(disk), disk, b)
      {
        ClustersApart(g, b, c);
      }
    }

    /** Writes the payload, padded with zeros, to the clusters of the chain. */
    method WriteChain(chain: seq<nat>, payload: seq<byte>)
      requires Layout(g, disk) && AllData(g, chain) && Distinct(chain) && |chain| == ClustersFor(g, |payload|)
      modifies this`disk
      ensures Layout(g, disk) && ChainBytes(g, disk, chain) == PadToClusters(g, payload)
      ensures SameSectors(old(disk), disk, 0, g.DataStart())
      ensures forall c :: g.IsData(c) && c !in chain ==> SameCluster(g, old(disk), disk, c)
    {
      var padded := PadToClusters(g, payload);
      PaddedLength(g, payload);
      var size := g.ClusterBytes();
      for i := 0 to |chain|
        invariant Layout(g, disk)
        invariant SameSectors(old(disk), disk, 0, g.DataStart())
        invariant forall c :: g.IsData(c) && c !in chain[..i] ==> SameCluster(g, old(disk), disk, c)
        invariant i * size <= |padded| && ChainBytes(g, disk, chain[..i]) == padded[..i * size]
      {
        MulMono(i, |chain|, size);
        AddOne(i, size);
        ghost var before := disk;
        WriteCluster(chain[i], padded[i * size..(i + 1) * size]);
        ChainBytesSame(g, before, disk, chain[..i]);
        assert chain[..i + 1][..i] == chain[..i];
        assert padded[..(i + 1) * size] == padded[..i * size] + padded[i * size..(i + 1) * size];
      }
      assert chain[..|chain|] == chain;
      assert padded[..|chain| * size] == padded;
    }

    // ----- directories -----

    /** What reading a directory relies on. */
    ghost predicate Readable(cluster: nat)
      reads this
    {
      && Layout(g, disk) && cluster in fs.live && DirOk(g, disk, fs, cluster)
      && (cluster != 0 ==> EntryOf(g, disk, cluster) == END_OF_CHAIN)
    }

    lemma DirectoryIsReadable(cluster: nat)
      requires Layout(g, disk) && ChainsOk(g, disk, fs) && DirsOk(g, disk, fs) && cluster in fs.live
      ensures Readable(cluster)
    {
      assert DirOk(g, disk, fs, cluster);
      if cluster != 0 {
        assert ChainOk(g, disk, cluster, fs.chains[cluster]);
        assert EntryOf(g, disk, fs.chains[cluster][0]) == Next(fs.chains[cluster], 0);
      }
    }

    /** The sectors of a directory: the root region, or the clusters found by following the table. */
    method DirSectors(cluster: nat) returns (lbas: seq<nat>)
      requires Readable(cluster)
      ensures lbas == DirLbas(g, cluster)
    {
      if cluster == 0 {
        return RootLbas(g);
      }
      lbas := [];
      var c := cluster;
      while 2 <= c < 0xFFF8
        invariant (c == cluster && lbas == []) || (c == END_OF_CHAIN && lbas == Lbas(g.Lba(cluster), g.clusterSectors))
        decreases if c == cluster then 1 else 0
      {
        lbas := lbas + Lbas(g.Lba(c), g.clusterSectors);
        c := GetFat(c);
      }
      SingleChainLbas(g, cluster);
    }

    /** All slots of a directory; slot k is number k % 16 of sector k / 16. */
    method ReadDir(cluster: nat) returns (lbas: seq<nat>, slots: seq<Slot>)
      requires Readable(cluster)
      ensures lbas == DirLbas(g, cluster) && LiveIn(disk, lbas, fs.live[cluster])
      ensures slots == Slots(disk, lbas)
    {
      lbas := DirSectors(cluster);
      slots := [];
      for s := 0 to |lbas|
        invariant |slots| == s * 16 && forall k :: 0 <= k < |slots| ==> slots[k] == SlotAt(disk, lbas, k)
      {
        var sector := disk[lbas[s]];
        for i := 0 to 16
          invariant |slots| == s * 16 + i && forall k :: 0 <= k < |slots| ==> slots[k] == SlotAt(disk, lbas, k)
        {
          slots := slots + [sector[i * SLOT..i * SLOT + SLOT]];
        }
      }
    }

    /** The names and entries of a directory, as a reader finds them on the image. */
    method ListDirectory(cluster: nat) returns (r: seq<(Name, Slot)>)
      requires Readable(cluster) && SlotsOk(fs)
      ensures r == Names(fs, cluster)
    {
      var lbas, slots := ReadDir(cluster);
      r := Entries(slots);
      LiveSlots(disk, lbas, fs.live[cluster]);
      ListingStops(NOTHING_PENDING, fs.live[cluster], slots[|fs.live[cluster]|..]);
    }

    /** The position of the first slot that starts with 0. */
    method FirstUnused(existing: seq<Slot>, ghost live: seq<Slot>) returns (start: nat)
      requires AreSlots(existing) && Unterminated(live) && live <= existing
      requires forall k :: |live| <= k < |existing| ==> existing[k][0] == 0
      ensures start == |live|
    {
      start := 0;
      while start < |existing| && existing[start][0] != 0
        invariant 0 <= start <= |live|
      {
        start := start + 1;
      }
    }

    /** Writes a run of slots at the first slot that starts with 0, if they fit. */
    method AppendSlots(cluster: nat, slots: seq<Slot>) returns (ok: bool)
      requires Readable(cluster) && slots != [] && Unterminated(slots)
      modifies this`disk
      ensures ok <==> |fs.live[cluster]| + |slots| <= 16 * |DirLbas(g, cluster)|
      ensures !ok ==> disk == old(disk)
      ensures ok ==> DirOk(g, old(disk), fs, cluster) && Appended(g, old(disk), disk, fs, cluster, slots)
    {
      var lbas, existing := ReadDir(cluster);
      ghost var live := fs.live[cluster];
      var start := FirstUnused(existing, live);
      if start == |existing| || start + |slots| > |existing| {
        return false;
      }
      WriteSlots(lbas, existing, start, slots);
      AppendedSlots(g, disk, lbas, existing, live, slots);
      return true;
    }

    /** Overwrites the slots from start on, one by one. */
    method WriteSlots(lbas: seq<nat>, existing: seq<Slot>, start: nat, slots: seq<Slot>)
      requires Layout(g, disk) && LbasOk(disk, lbas) && existing == Slots(disk, lbas)
      requires start + |slots| <= |existing| && AreSlots(slots)
      modifies this`disk
      ensures Layout(g, disk) && |disk| == |old(disk)|
      ensures PartlyWritten(disk, lbas, existing, start, slots, |slots|)
      ensures forall lba :: 0 <= lba < |disk| && lba !in lbas ==> disk[lba] == old(disk)[lba]
    {
      for n := 0 to |slots|
        invariant Layout(g, disk) && |disk| == |old(disk)|
        invariant PartlyWritten(disk, lbas, existing, start, slots, n)
        invariant forall lba :: 0 <= lba < |disk| && lba !in lbas ==> disk[lba] == old(disk)[lba]
      {
        PartlyNext(disk, lbas, existing, start, slots, n);
        disk := WriteSlot(disk, lbas, start + n, slots[n]);
      }
    }

    /** The directory a path leads to. */
    method ResolveDirectory(parts: seq<Name>) returns (r: Option<nat>)
      requires Valid()
      ensures r == Resolve(fs, 0, parts, upper)
      ensures r.Some? ==> r.value in fs.live
    {
      var cluster := 0;
      for k := 0 to |parts|
        invariant cluster in fs.live && Resolve(fs, cluster, parts[k..], upper) == Resolve(fs, 0, parts, upper)
      {
        DirectoryIsReadable(cluster);
        var entries := ListDirectory(cluster);
        var next := FindDirectory(entries, parts[k], upper);
        assert parts[k..][0] == parts[k] && parts[k..][1..] == parts[k + 1..];
        if next.None? {
          return None;
        }
        FoundIsLive(fs, cluster, parts[k], upper);
        cluster := next.value;
      }
      assert parts[|parts|..] == [];
      return Some(cluster);
    }

    // ----- the steps of an operation -----

    /** A chain of free clusters is allocated; it belongs to nothing yet. */
    method Claim(count: nat) returns (r: Option<seq<nat>>)
      requires Valid() && count >= 1
      modifies this
      ensures Valid()
      ensures r.None? <==> |FreeFrom(g, old(disk), 2)| < count
      ensures r.None? ==> disk == old(disk) && fs == old(fs)
      ensures r.Some? ==> r.value == FreeFrom(g, old(disk), 2)[..count]
      ensures r.Some? ==> IsClaimed(g, old(fs), fs, r.value) && |r.value| == count
    {
      r := Allocate(count);
      if r.Some? {
        ReservedSound(g, old(disk), disk, fs, r.value);
        ReservedOnDisk(g, old(disk), disk, fs, r.value);
        fs := Reserve(fs, r.value);
      }
    }

    /** Writes to a chain that belongs to nothing yet. */
    method WriteReserved(chain: seq<nat>, payload: seq<byte>)
      requires Valid() && chain != [] && chain[0] in fs.lost && fs.chains[chain[0]] == chain
      requires |chain| == ClustersFor(g, |payload|)
      modifies this`disk
      ensures Valid() && ChainBytes(g, disk, chain) == PadToClusters(g, payload)
    {
      assert ChainOk(g, disk, chain[0], chain);
      WriteChain(chain, payload);
      OnlyChainWritten(g, old(disk), disk, fs, chain[0]);
      LostWritten(g, old(disk), disk, fs, chain[0]);
    }

    /** An alias for the name that no entry of the directory has yet. */
    method ChooseAlias(parent: nat, name: Name) returns (alias: Option<seq<byte>>)
      requires Readable(parent)
      ensures alias.Some? ==> NewAlias(fs, parent, alias.value)
      ensures AreSlots(fs.live[parent])
      ensures alias.Some? ==> IsFirstFree(name, UsedShortNames(fs.live[parent]), upper, alias.value)
      ensures alias.None? <==> NoneFree(name, UsedShortNames(fs.live[parent]), upper)
    {
      hide IsFirstFree;
      hide NoneFree;
      var lbas, existing := ReadDir(parent);
      var taken := CollectShortNames(existing);
      alias := MakeShortName(name, taken, upper);
      ghost var live := fs.live[parent];
      LiveSlots(disk, lbas, live);
      UsedShortNamesAre(live, existing[|live|..]);
      UsedShortNamesAre(live, []);
      assert live + [] == live && UsedShortNames(live) == taken;
    }

    /** Appends finished entry slots and makes them refer to the target. */
    method EnterSlots(parent: nat, slots: seq<Slot>, ghost short: seq<byte>, ghost t: Target) returns (ok: bool)
      requires Valid() && NewAlias(fs, parent, short) && EntryShape(slots, short, t)
      requires Ready(g, disk, fs, parent, t)
      modifies this
      ensures Valid()
      ensures ok <==> |old(fs).live[parent]| + |slots| <= 16 * |DirLbas(g, parent)|
      ensures if ok then fs == Link(old(fs), parent, slots, t) else fs == old(fs) && disk == old(disk)
    {
      DirectoryIsReadable(parent);
      ok := AppendSlots(parent, slots);
      if ok {
        LinkedOnDisk(g, old(disk), disk, fs, parent, slots, t);
        LinkedSound(fs, parent, slots, short, t);
        fs := Link(fs, parent, slots, t);
      }
    }

    /** Enters a target that has been prepared into its parent; nothing changes if that fails. */
    method Enter(parent: nat, name: Name, attributes: byte, first: nat, size: nat, ghost t: Target)
      returns (r: Outcome, ghost short: seq<byte>)
      requires Valid() && parent in fs.live && Ready(g, disk, fs, parent, t)
      requires attributes == AttributesOf(t) && first == FirstOf(t) < 65536 && size == SizeOf(t) < 0x1_0000_0000
      modifies this
      ensures Valid()
      ensures AreSlots(old(fs).live[parent]) && r == EntryOutcome(g, parent, old(fs).live[parent], name, upper)
      ensures r.Done? || IsLate(r)
      ensures r.Done? ==> IsFirstFree(name, UsedShortNames(old(fs).live[parent]), upper, short)
      ensures !r.Done? ==> fs == old(fs) && disk == old(disk)
      ensures r.Done? ==> ChunkCount(name) <= 255 && NewAlias(old(fs), parent, short)
      ensures r.Done? ==> fs == Link(old(fs), parent, EntrySlots(name, short, attributes, first, size), t)
    {
      DirectoryIsReadable(parent);
      short := [];
      var alias := ChooseAlias(parent, name);
      if alias.None? {
        return NoShortName, short;
      }
      short := alias.value;
      var slots := MakeEntrySlots(name, alias.value, attributes, first, size);
      if slots.None? {
        return NameTooLong, short;
      }
      EntrySlotsShape(name, short, t);
      CapacityIs(g, disk, parent);
      var ok := EnterSlots(parent, slots.value, short, t);
      return if ok then Done else DirectoryFull, short;
    }

    // ----- the two operations -----

    /** Stores a payload that needs clusters and enters it into a directory. */
    method PutPayload(parent: nat, name: Name, payload: seq<byte>)
      returns (r: Outcome, ghost short: seq<byte>, ghost chain: seq<nat>)
      requires Valid() && parent in fs.live && payload != []
      modifies this
      ensures Valid()
      ensures AreSlots(old(fs).live[parent])
      ensures r == if |FreeFrom(g, old(disk), 2)| < ClustersFor(g, |payload|) then OutOfSpace
                   else EntryOutcome(g, parent, old(fs).live[parent], name, upper)
      ensures r in {Done, OutOfSpace} || IsLate(r)
      ensures r == OutOfSpace ==> disk == old(disk) && fs == old(fs)
      ensures r != OutOfSpace ==> |chain| == ClustersFor(g, |payload|)
      ensures r != OutOfSpace ==>
        |chain| <= |FreeFrom(g, old(disk), 2)| && chain == FreeFrom(g, old(disk), 2)[..|chain|]
      ensures IsLate(r) ==> IsClaimed(g, old(fs), fs, chain)
      ensures r == Done ==>
        |payload| < 0x1_0000_0000 && Linked(old(fs), parent, name, short, chain, FileAt(FirstIn(chain), payload))
    {
      hide Inv;
      hide EntryOutcome;
      hide IsFirstFree;
      hide FreeFrom;
      SlotsAreOk();
      short, chain := [], [];
      var stored := Claim(ClustersFor(g, |payload|));
      if stored.None? {
        return OutOfSpace, short, chain;
      }
      chain := stored.value;
      ClaimedFacts(g, old(fs), fs, chain);
      WriteReserved(stored.value, payload);
      PayloadFits(g, chain, payload);
      r, short := Enter(parent, name, 0x20, stored.value[0], |payload|, FileAt(chain[0], payload));
    }

    /** Claims a cluster for a directory and writes its two dot entries. */
    method PrepareFolder(parent: nat) returns (stored: Option<seq<nat>>)
      requires Valid() && parent in fs.live && parent < 65536
      modifies this
      ensures Valid()
      ensures stored.None? <==> |FreeFrom(g, old(disk), 2)| < 1
      ensures stored.None? ==> disk == old(disk) && fs == old(fs)
      ensures stored.Some? ==> |FreeFrom(g, old(disk), 2)| >= 1 && stored.value == FreeFrom(g, old(disk), 2)[..1]
      ensures stored.Some? ==> IsClaimed(g, old(fs), fs, stored.value) && |stored.value| == 1 && stored.value[0] < 65536
      ensures stored.Some? ==> Ready(g, disk, fs, parent, FolderAt(stored.value[0], Dots(stored.value[0], parent)))
    {
      hide Inv;
      stored := Claim(1);
      if stored.Some? {
        ClaimedFacts(g, old(fs), fs, stored.value);
        var cluster := stored.value[0];
        assert stored.value == [cluster];
        var dots := Dots(cluster, parent);
        var blank := dots[0] + dots[1] + Zeros(g.ClusterBytes() - 2 * SLOT);
        ClustersForOne(g);
        WriteReserved(stored.value, blank);
        FolderIsReady(g, disk, fs, parent, cluster, blank);
      }
    }

    /** Makes a directory and enters it into its parent. */
    method MakeFolder(parent: nat, name: Name)
      returns (r: Outcome, ghost short: seq<byte>, ghost chain: seq<nat>)
      requires Valid() && parent in fs.live && parent < 65536
      modifies this
      ensures Valid()
      ensures AreSlots(old(fs).live[parent])
      ensures r == if |FreeFrom(g, old(disk), 2)| < 1 then OutOfSpace
                   else EntryOutcome(g, parent, old(fs).live[parent], name, upper)
      ensures r in {Done, OutOfSpace} || IsLate(r)
      ensures r == OutOfSpace ==> disk == old(disk) && fs == old(fs)
      ensures r != OutOfSpace ==> |chain| == 1 && chain[0] < 65536
      ensures r != OutOfSpace ==> |FreeFrom(g, old(disk), 2)| >= 1 && chain == FreeFrom(g, old(disk), 2)[..1]
      ensures IsLate(r) ==> IsClaimed(g, old(fs), fs, chain)
      ensures r == Done ==> Linked(old(fs), parent, name, short, chain, FolderAt(chain[0], Dots(chain[0], parent)))
    {
      hide Inv;
      hide Ready;
      hide EntryOutcome;
      hide IsFirstFree;
      hide FreeFrom;
      SlotsAreOk();
      short, chain := [], [];
      var stored := PrepareFolder(parent);
      if stored.None? {
        return OutOfSpace, short, chain;
      }
      chain := stored.value;
      ghost var dots := Dots(stored.value[0], parent);
      r, short := Enter(parent, name, ATTR_DIRECTORY, stored.value[0], 0, FolderAt(stored.value[0], dots));
    }

    /** The chain has been claimed and the target in it has been entered under the name. */
    ghost predicate Linked(before: Fs, parent: nat, name: Name, short: seq<byte>, chain: seq<nat>, t: Target)
      reads this
    {
      && AllData(g, chain) && Ascending(chain) && chain != [] && chain[0] !in before.chains && chain[0] < 65536
      && NewAlias(before, parent, short) && ChunkCount(name) <= 255
      && IsFirstFree(name, UsedShortNames(before.live[parent]), upper, short)
      && FirstOf(t) < 65536 && SizeOf(t) < 0x1_0000_0000
      && fs == Link(Reserve(before, chain), parent, EntrySlots(name, short, AttributesOf(t), FirstOf(t), SizeOf(t)), t)
    }

    method Put(path: seq<Name>, payload: seq<byte>) returns (r: Outcome, ghost short: seq<byte>, ghost chain: seq<nat>)
      requires Valid()
      modifies this
      ensures Valid()
      ensures Follows(g, old(disk), old(fs), disk, fs, PutFile(path, payload), upper, r, short, chain)
      ensures SlotsOk(old(fs)) && r == OutcomeOf(g, old(disk), old(fs), PutFile(path, payload), upper)
      ensures FirstFit(g, old(disk), PutFile(path, payload), r, chain)
    {
      hide Inv;
      hide EntryOutcome;
      hide IsFirstFree;
      hide FreeFrom;
      SlotsAreOk();
      short, chain := [], [];
      if path == [] {
        return NoName, short, chain;
      }
      var parent := ResolveDirectory(path[..|path| - 1]);
      if parent.None? {
        return NoSuchDirectory, short, chain;
      }
      PlaceOfDirectory(parent.value);
      if payload == [] {
        r, short := Enter(parent.value, path[|path| - 1], 0x20, 0, 0, EmptyFile);
      } else {
        r, short, chain := PutPayload(parent.value, path[|path| - 1], payload);
      }
    }

    method Mkdir(path: seq<Name>) returns (r: Outcome, ghost short: seq<byte>, ghost chain: seq<nat>)
      requires Valid()
      modifies this
      ensures Valid()
      ensures Follows(g, old(disk), old(fs), disk, fs, MakeDirectory(path), upper, r, short, chain)
      ensures SlotsOk(old(fs)) && r == OutcomeOf(g, old(disk), old(fs), MakeDirectory(path), upper)
      ensures FirstFit(g, old(disk), MakeDirectory(path), r, chain)
    {
      hide Inv;
      hide EntryOutcome;
      hide IsFirstFree;
      hide FreeFrom;
      SlotsAreOk();
      short, chain := [], [];
      if path == [] {
        return NoName, short, chain;
      }
      var parent := ResolveDirectory(path[..|path| - 1]);
      if parent.None? {
        return NoSuchDirectory, short, chain;
      }
      PlaceOfDirectory(parent.value);
      r, short, chain := MakeFolder(parent.value, path[|path| - 1]);
    }

    lemma SlotsAreOk()
      requires Valid()
      ensures SlotsOk(fs)
    {
    }

    lemma PlaceOfDirectory(c: nat)
      requires Valid() && c in fs.live
      ensures c < 65536 && SlotsOk(fs)
    {
      assert DirOk(g, disk, fs, c);
    }

    // ----- runs -----

    lemma KeysAreOk()
      requires Valid()
      ensures g.Formatted() && KeysOk(fs)
    {
    }

    method Perform(op: Operation) returns (r: Outcome, ghost short: seq<byte>, ghost chain: seq<nat>)
      requires Valid()
      modifies this
      ensures Valid()
      ensures Follows(g, old(disk), old(fs), disk, fs, op, upper, r, short, chain)
      ensures SlotsOk(old(fs)) && r == OutcomeOf(g, old(disk), old(fs), op, upper)
      ensures FirstFit(g, old(disk), op, r, chain)
    {
      match op
      case PutFile(path, payload) => r, short, chain := Put(path, payload);
      case MakeDirectory(path) => r, short, chain := Mkdir(path);
    }

    /**
     Any run of operations goes step by step through volumes that keep the invariant and everything
     stored before; clusters are lost only by operations that fail after their allocation.
     */
    method Run(ops: seq<Operation>) returns (outcomes: seq<Outcome>, ghost trace: seq<Moment>)
      requires Valid()
      modifies this
      ensures Valid() && |outcomes| == |ops|
      ensures |trace| == |ops| + 1 && trace[0] == Moment(old(disk), old(fs)) && trace[|ops|] == Moment(disk, fs)
      ensures forall k :: 0 <= k < |ops| ==> Step(g, trace[k], ops[k], trace[k + 1], upper, outcomes[k])
      ensures forall k :: 0 <= k <= |ops| ==> Inv(g, trace[k].disk, trace[k].fs)
      ensures Grows(old(fs), fs)
      ensures fs.lost == old(fs).lost <==> LosesNothing(ops, outcomes)
    {
      hide *;
      outcomes, trace := [], [Moment(disk, fs)];
      NothingRun(ops, fs);
      ValidIsInv();
      for k := 0 to |ops|
        invariant Valid() && |outcomes| == k
        invariant |trace| == k + 1 && trace[0] == Moment(old(disk), old(fs)) && trace[k] == Moment(disk, fs)
        invariant forall i :: 0 <= i < k ==> Step(g, trace[i], ops[i], trace[i + 1], upper, outcomes[i])
        invariant forall i :: 0 <= i <= k ==> Inv(g, trace[i].disk, trace[i].fs)
        invariant Grows(old(fs), fs)
        invariant fs.lost == old(fs).lost <==> LosesNothing(ops, outcomes)
      {
        ghost var now := Moment(disk, fs);
        KeysAreOk();
        ValidIsInv();
        var r, short, chain := Perform(ops[k]);
        FollowsGrows(g, now.disk, now.fs, disk, fs, ops[k], upper, r, short, chain);
        GrowsOn(old(fs), now.fs, fs);
        LosesOneMore(ops, outcomes, r);
        ValidIsInv();
        IsStep(g, now, Moment(disk, fs), ops[k], upper, r, short, chain);
        outcomes, trace := outcomes + [r], trace + [Moment(disk, fs)];
      }
    }

    lemma ValidIsInv()
      requires Valid()
      ensures Layout(g, disk) && Inv(g, disk, fs)
    {
    }
  }

  // ----- moments of a run -----

  /** The image and what it stands for. */
  datatype Moment = Moment(disk: Disk, fs: Fs)

  /** One operation leads from one moment to the next, with the outcome it has to have. */
  ghost predicate Step(g: Geometry, now: Moment, op: Operation, next: Moment, upper: Name -> Name, r: Outcome) {
    && Layout(g, now.disk) && SlotsOk(now.fs) && r == OutcomeOf(g, now.disk, now.fs, op, upper)
    && exists short, chain ::
         Follows(g, now.disk, now.fs, next.disk, next.fs, op, upper, r, short, chain)
           && FirstFit(g, now.disk, op, r, chain)
  }

  lemma IsStep(g: Geometry, now: Moment, next: Moment, op: Operation, upper: Name -> Name, r: Outcome,
               short: seq<byte>, chain: seq<nat>)
    requires Layout(g, now.disk) && SlotsOk(now.fs) && r == OutcomeOf(g, now.disk, now.fs, op, upper)
    requires Follows(g, now.disk, now.fs, next.disk, next.fs, op, upper, r, short, chain)
      && FirstFit(g, now.disk, op, r, chain)
    ensures Step(g, now, op, next, upper, r)
  {
    hide Follows;
    hide FirstFit;
    hide OutcomeOf;
  }

  lemma NothingRun(ops: seq<Operation>, fs: Fs)
    ensures Grows(fs, fs) && LosesNothing(ops, [])
  {
  }
}
