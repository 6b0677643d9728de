/** What the invariant of a volume means for a reader that follows the tables from the entries. */
module FatReadBack {
  import opened Common
  import opened FatLayout
  import opened FatNames
  import opened FatDirs
  import opened FatState
  import opened FatLink
  import opened FatVolume

  // ----- following the table -----

  /** The clusters met by following the table from c. */
  function Walk(g: Geometry, d: Disk, c: nat, fuel: nat): (r: seq<nat>)
    requires Layout(g, d)
    ensures AllData(g, r)
    decreases fuel
  {
    if fuel == 0 || !g.IsData(c) then [] else [c] + Walk(g, d, EntryOf(g, d, c), fuel - 1)
  }

  lemma WalkStops(g: Geometry, d: Disk, fuel: nat)
    requires Layout(g, d)
    ensures Walk(g, d, END_OF_CHAIN, fuel) == [] && Walk(g, d, 0, fuel) == []
  {
  }

  /** From any cluster of a chain the table leads to the rest of the chain and stops there. */
  lemma {:induction false} WalkFollowsChain(g: Geometry, d: Disk, chain: seq<nat>, i: nat, fuel: nat)
    requires Layout(g, d) && AllData(g, chain) && Linked(g, d, chain) && i < |chain| && fuel >= |chain| - i
    ensures Walk(g, d, chain[i], fuel) == chain[i..]
    decreases fuel
  {
    var rest := Walk(g, d, EntryOf(g, d, chain[i]), fuel - 1);
    hide EntryOf;
    if i + 1 < |chain| {
      WalkFollowsChain(g, d, chain, i + 1, fuel - 1);
      assert rest == chain[i + 1..];
    } else {
      WalkStops(g, d, fuel - 1);
      assert rest == [];
    }
    hide Walk;
    assert chain[i..] == [chain[i]] + chain[i + 1..];
  }

  /** The bytes a reader finds for an entry: its chain, cut to the recorded size. */
  ghost function FileBytes(g: Geometry, d: Disk, slot: Slot): seq<byte>
    requires Layout(g, d) && |slot| == SLOT
  {
    var bytes := ChainBytes(g, d, Walk(g, d, First(slot), g.clusters));
    if Size(slot) <= |bytes| then bytes[..Size(slot)] else bytes
  }

  /** What has been stored under an entry. */
  ghost function Stored(fs: Fs, slot: Slot): seq<byte>
    requires |slot| == SLOT
  {
    if First(slot) in fs.contents then fs.contents[First(slot)] else []
  }

  lemma ChainReadsBack(g: Geometry, d: Disk, chain: seq<nat>, content: seq<byte>, slot: Slot)
    requires Layout(g, d) && |slot| == SLOT && ChainOk(g, d, First(slot), chain) && FileOk(g, d, chain, content)
    requires Size(slot) == |content|
    ensures FileBytes(g, d, slot) == content
  {
    AscendingLength(g, chain, |chain| - 1);
    WalkFollowsChain(g, d, chain, 0, g.clusters);
    assert chain[0..] == chain;
    hide Walk;
  }

  lemma EmptyReadsBack(g: Geometry, d: Disk, slot: Slot)
    requires Layout(g, d) && |slot| == SLOT && First(slot) == 0 && Size(slot) == 0
    ensures FileBytes(g, d, slot) == []
  {
    WalkStops(g, d, g.clusters);
  }

  /** Every file entry reads back as what was stored under it, byte for byte. */
  lemma FileReadsBack(g: Geometry, d: Disk, fs: Fs, c: nat, i: nat)
    requires Layout(g, d) && ChainsOk(g, d, fs) && FilesOk(g, d, fs) && KeysOk(fs) && RefsOk(fs)
    requires c in fs.live && i < |fs.live[c]| && IsReal(fs.live[c][i]) && !IsDirectory(fs.live[c][i])
    ensures FileBytes(g, d, fs.live[c][i]) == Stored(fs, fs.live[c][i])
    ensures Size(fs.live[c][i]) == |Stored(fs, fs.live[c][i])|
  {
    hide FileBytes;
    hide ChainOk;
    hide FileOk;
    var slot := fs.live[c][i];
    var f := First(slot);
    assert Refers(fs, c, i);
    if f in fs.owner && fs.owner[f] == (c, i) {
      assert Owned(fs, f) && f in fs.contents;
      ChainReadsBack(g, d, fs.chains[f], fs.contents[f], slot);
    } else {
      EmptyReadsBack(g, d, slot);
      assert f !in fs.contents;
    }
  }

  /** A file stored before a run reads back the same after it. */
  lemma EarlierFileUnchanged(g: Geometry, d: Disk, before: Fs, e: Disk, after: Fs, c: nat, i: nat)
    requires Inv(g, d, before) && Inv(g, e, after) && Keeps(before, after)
    requires c in before.live && i < |before.live[c]| && IsReal(before.live[c][i]) && !IsDirectory(before.live[c][i])
    ensures c in after.live && i < |after.live[c]| && after.live[c][i] == before.live[c][i]
    ensures FileBytes(g, e, after.live[c][i]) == FileBytes(g, d, before.live[c][i])
  {
    var slot := before.live[c][i];
    assert before.live[c] <= after.live[c];
    assert after.live[c][i] == slot;
    FileReadsBack(g, d, before, c, i);
    FileReadsBack(g, e, after, c, i);
    if First(slot) !in before.contents {
      assert Size(slot) == 0;
    }
  }

  // ----- no cluster is lost or shared -----

  /** The cluster is in the chain of f, and an entry refers to f. */
  ghost predicate UsedBy(fs: Fs, c: nat, f: nat) {
    f in fs.chains && c in fs.chains[f] && f in fs.owner
  }

  /**
   On a volume without lost chains every cluster in use belongs to exactly one file or directory,
   which exactly one entry refers to, and every other cluster is free.
   */
  lemma EveryClusterAccounted(g: Geometry, d: Disk, fs: Fs, c: nat)
    requires Layout(g, d) && ChainsOk(g, d, fs) && NoStray(g, d, fs) && KeysOk(fs) && Apart(fs) && RefsOk(fs)
    requires fs.lost == {} && g.IsData(c)
    ensures EntryOf(g, d, c) != 0 <==> exists f :: UsedBy(fs, c, f)
    ensures forall e, f :: UsedBy(fs, c, e) && UsedBy(fs, c, f) ==> e == f
  {
    if EntryOf(g, d, c) != 0 {
      var f :| f in fs.chains && c in fs.chains[f];
      assert UsedBy(fs, c, f);
    }
    if f :| UsedBy(fs, c, f) {
      var chain := fs.chains[f];
      assert ChainOk(g, d, f, chain);
      var i :| 0 <= i < |chain| && chain[i] == c;
      assert EntryOf(g, d, chain[i]) == Next(chain, i);
    }
    forall e, f | e in fs.chains && f in fs.chains && e != f
      ensures !(c in fs.chains[e] && c in fs.chains[f])
    {
      NotInBoth(fs.chains[e], fs.chains[f], c);
    }
  }

  lemma NotInBoth(a: seq<nat>, b: seq<nat>, c: nat)
    requires Disjoint(a, b)
    ensures !(c in a && c in b)
  {
  }

  /** Two real entries never refer to the same file or directory. */
  lemma EntriesDoNotShare(fs: Fs, b: nat, i: nat, c: nat, j: nat)
    requires RefsOk(fs) && KeysOk(fs)
    requires b in fs.live && i < |fs.live[b]| && IsReal(fs.live[b][i])
    requires c in fs.live && j < |fs.live[c]| && IsReal(fs.live[c][j])
    requires First(fs.live[b][i]) == First(fs.live[c][j]) != 0
    ensures b == c && i == j
  {
    assert Refers(fs, b, i) && Refers(fs, c, j);
  }

  // ----- names -----

  lemma {:induction false} FindFirst(listing: seq<(Name, Slot)>, more: seq<(Name, Slot)>, part: Name,
                                     upper: Name -> Name)
    requires forall i :: 0 <= i < |listing| ==> |listing[i].1| == SLOT
    requires forall i :: 0 <= i < |more| ==> |more[i].1| == SLOT
    ensures FindDirectory(listing + more, part, upper)
         == if FindDirectory(listing, part, upper).Some? then FindDirectory(listing, part, upper)
            else FindDirectory(more, part, upper)
  {
    if listing == [] {
      assert listing + more == more;
    } else {
      assert (listing + more)[0] == listing[0] && (listing + more)[1..] == listing[1..] + more;
      FindFirst(listing[1..], more, part, upper);
    }
  }

  /** What a directory lists stays at the front of its listing. */
  lemma NamesGrow(before: Fs, after: Fs, c: nat)
    requires SlotsOk(before) && SlotsOk(after) && Keeps(before, after)
    requires c in before.live && Unterminated(before.live[c])
    ensures c in after.live && Names(before, c) <= Names(after, c)
  {
    var a, b := before.live[c], after.live[c];
    assert b == a + b[|a|..];
    assert AreSlots(b[|a|..]);
    ListingConcat(NOTHING_PENDING, a, b[|a|..]);
  }

  /** A path that leads to a directory keeps leading there. */
  lemma {:induction false} PathsStay(before: Fs, after: Fs, c: nat, parts: seq<Name>, upper: Name -> Name)
    requires SlotsOk(before) && SlotsOk(after) && Keeps(before, after)
    requires forall x :: x in before.live ==> Unterminated(before.live[x])
    requires Resolve(before, c, parts, upper).Some?
    ensures Resolve(after, c, parts, upper) == Resolve(before, c, parts, upper)
    decreases |parts|
  {
    if parts != [] {
      var a, b := Names(before, c), Names(after, c);
      NamesGrow(before, after, c);
      assert b == a + b[|a|..];
      FindFirst(a, b[|a|..], parts[0], upper);
      PathsStay(before, after, FindDirectory(a, parts[0], upper).value, parts[1..], upper);
    }
  }

  lemma {:induction false} ResolveLast(fs: Fs, c: nat, parts: seq<Name>, name: Name, upper: Name -> Name)
    requires SlotsOk(fs) && Resolve(fs, c, parts, upper).Some?
    requires var found := FindDirectory(Names(fs, Resolve(fs, c, parts, upper).value), name, upper);
      found.Some? && found.value in fs.live
    ensures Resolve(fs, c, parts + [name], upper)
         == FindDirectory(Names(fs, Resolve(fs, c, parts, upper).value), name, upper)
    decreases |parts|
  {
    var all := parts + [name];
    if parts == [] {
      assert all[0] == name && all[1..] == [];
    } else {
      assert all[0] == parts[0] && all[1..] == parts[1..] + [name];
      ResolveLast(fs, FindDirectory(Names(fs, c), parts[0], upper).value, parts[1..], name, upper);
    }
  }

  // ----- after one operation -----

  /** The new entry is listed last under its exact name, after everything that was listed before. */
  lemma PerformedListing(g: Geometry, before: Fs, after: Fs, op: Operation, upper: Name -> Name, short: seq<byte>,
                         chain: seq<nat>)
    requires g.Formatted() && SlotsOk(before) && SlotsOk(after) && Performed(g, before, after, op, upper, short, chain)
    requires KeysOk(before) && Representable(NameIn(op))
    requires forall x :: x in before.live ==> Unterminated(before.live[x])
    ensures var parent := Resolve(before, 0, FolderOf(op), upper).value;
      var t := TargetOf(op, parent, chain);
      && Keeps(before, after)
      && Names(after, parent)
           == Names(before, parent) + [(NameIn(op), ShortEntry(short, AttributesOf(t), FirstOf(t), SizeOf(t)))]
  {
    var parent := Resolve(before, 0, FolderOf(op), upper).value;
    var t := TargetOf(op, parent, chain);
    AppendListing(NOTHING_PENDING, before.live[parent], NameIn(op), short, AttributesOf(t), FirstOf(t), SizeOf(t));
    FollowsGrows(g, [], before, [], after, op, upper, Done, short, chain);
    PerformedParent(g, before, after, op, upper, short, chain);
  }

  lemma PerformedParent(g: Geometry, before: Fs, after: Fs, op: Operation, upper: Name -> Name, short: seq<byte>,
                        chain: seq<nat>)
    requires g.Formatted() && SlotsOk(before) && KeysOk(before) && Performed(g, before, after, op, upper, short, chain)
    ensures var parent := Resolve(before, 0, FolderOf(op), upper).value;
      var t := TargetOf(op, parent, chain);
      parent in after.live && after.live[parent]
         == before.live[parent] + EntrySlots(NameIn(op), short, AttributesOf(t), FirstOf(t), SizeOf(t))
    ensures op.PutFile? && op.payload != [] ==> after.contents == before.contents[chain[0] := op.payload]
    ensures op.PutFile? && op.payload == [] ==> after.contents == before.contents
    ensures op.MakeDirectory? ==> chain[0] in after.live && chain[0] !in before.live && chain[0] != 0
  {
  }

  /** A file just put is found under its name and reads back as its payload. */
  lemma PutReadsBack(g: Geometry, e: Disk, before: Fs, after: Fs, op: Operation, upper: Name -> Name, short: seq<byte>,
                     chain: seq<nat>)
    requires op.PutFile? && g.Formatted() && Sound(before) && Performed(g, before, after, op, upper, short, chain)
    requires Inv(g, e, after)
    ensures var parent := Resolve(before, 0, FolderOf(op), upper).value;
      && parent in after.live && after.live[parent] != []
      && var entry := after.live[parent][|after.live[parent]| - 1];
         IsReal(entry) && !IsDirectory(entry) && FileBytes(g, e, entry) == op.payload && Size(entry) == |op.payload|
  {
    hide OnDisk;
    hide Resolve;
    hide FileBytes;
    hide Link;
    hide ClaimedBy;
    hide AliasesOk;
    hide Apart;
    hide OwnersOk;
    hide EntriesOk;
    hide PathsOk;
    var parent := Resolve(before, 0, FolderOf(op), upper).value;
    var t := TargetOf(op, parent, chain);
    PerformedParent(g, before, after, op, upper, short, chain);
    EntrySlotsShape(NameIn(op), short, t);
    var last := |after.live[parent]| - 1;
    LastFileReadsBack(g, e, after, parent, last);
  }

  lemma LastFileReadsBack(g: Geometry, e: Disk, fs: Fs, c: nat, i: nat)
    requires Inv(g, e, fs)
    requires c in fs.live && i < |fs.live[c]| && IsReal(fs.live[c][i]) && !IsDirectory(fs.live[c][i])
    ensures Layout(g, e) && FileBytes(g, e, fs.live[c][i]) == Stored(fs, fs.live[c][i])
  {
    FileReadsBack(g, e, fs, c, i);
  }

  /** A directory entry appended to a listing that had none of that name is what the path leads to. */
  lemma AppendedResolves(before: Fs, after: Fs, folder: seq<Name>, name: Name, entry: Slot, upper: Name -> Name)
    requires SlotsOk(before) && SlotsOk(after) && Keeps(before, after)
    requires forall x :: x in before.live ==> Unterminated(before.live[x])
    requires Resolve(before, 0, folder, upper).Some? && Resolve(before, 0, folder, upper).value in after.live
    requires |entry| == SLOT && IsDirectory(entry) && !IsVolumeId(entry) && First(entry) in after.live
    requires var parent := Resolve(before, 0, folder, upper).value;
      && FindDirectory(Names(before, parent), name, upper).None?
      && Names(after, parent) == Names(before, parent) + [(name, entry)]
    ensures Resolve(after, 0, folder + [name], upper) == Some(First(entry))
  {
    var parent := Resolve(before, 0, folder, upper).value;
    PathsStay(before, after, 0, folder, upper);
    FindFirst(Names(before, parent), [(name, entry)], name, upper);
    assert FindDirectory([(name, entry)], name, upper) == Some(First(entry));
    ResolveLast(after, 0, folder, name, upper);
  }

  lemma DirectoryListed(g: Geometry, before: Fs, after: Fs, op: Operation, upper: Name -> Name,
                        short: seq<byte>, chain: seq<nat>, parent: nat)
    requires op.MakeDirectory? && g.Formatted() && KeysOk(before) && SlotsOk(before) && SlotsOk(after)
    requires Performed(g, before, after, op, upper, short, chain) && Representable(NameIn(op))
    requires forall x :: x in before.live ==> Unterminated(before.live[x])
    requires Resolve(before, 0, FolderOf(op), upper) == Some(parent)
    ensures Keeps(before, after) && parent in after.live
    ensures op.path != [] && chain != [] && chain[0] < 65536 && chain[0] in after.live && |short| == 11
    ensures Names(after, parent) == Names(before, parent) + [(NameIn(op), DirectoryEntry(short, chain[0]))]
  {
    PerformedListing(g, before, after, op, upper, short, chain);
    PerformedParent(g, before, after, op, upper, short, chain);
  }

  lemma PathSplits(op: Operation)
    requires op.path != []
    ensures op.path == FolderOf(op) + [NameIn(op)]
  {
  }

  ghost function DirectoryEntry(short: seq<byte>, first: nat): (entry: Slot)
    requires |short| == 11 && first < 65536
    ensures |entry| == SLOT && IsDirectory(entry) && !IsVolumeId(entry) && First(entry) == first
  {
    ShortEntry(short, ATTR_DIRECTORY, first, 0)
  }

  /** A directory just made under a fresh name is found by its path. */
  lemma NewDirectoryResolves(g: Geometry, before: Fs, after: Fs, op: Operation, upper: Name -> Name,
                             short: seq<byte>, chain: seq<nat>, parent: nat)
    requires op.MakeDirectory? && g.Formatted() && KeysOk(before) && SlotsOk(before) && SlotsOk(after)
    requires Performed(g, before, after, op, upper, short, chain) && Representable(NameIn(op))
    requires forall x :: x in before.live ==> Unterminated(before.live[x])
    requires Resolve(before, 0, FolderOf(op), upper) == Some(parent)
    requires FindDirectory(Names(before, parent), NameIn(op), upper).None?
    ensures chain != [] && Resolve(after, 0, op.path, upper) == Some(chain[0])
  {
    hide *;
    DirectoryListed(g, before, after, op, upper, short, chain, parent);
    var entry := DirectoryEntry(short, chain[0]);
    PathSplits(op);
    AppendedResolves(before, after, FolderOf(op), NameIn(op), entry, upper);
  }

  // ----- over a run -----

  lemma AllUnterminated(g: Geometry, d: Disk, fs: Fs)
    requires Inv(g, d, fs)
    ensures KeysOk(fs) && SlotsOk(fs) && g.Formatted()
    ensures forall x :: x in fs.live ==> Unterminated(fs.live[x])
  {
    hide Sound;
    forall x | x in fs.live
      ensures Unterminated(fs.live[x])
    {
      assert DirOk(g, d, fs, x);
    }
    SoundFacts(fs);
  }

  lemma SoundFacts(fs: Fs)
    requires Sound(fs)
    ensures KeysOk(fs) && SlotsOk(fs)
  {
  }

  /** In a run every file put is listed last, under its exact name, and reads back as its payload. */
  lemma FilePut(g: Geometry, now: Moment, op: Operation, next: Moment, upper: Name -> Name)
    requires op.PutFile? && Inv(g, now.disk, now.fs) && Inv(g, next.disk, next.fs)
      && Step(g, now, op, next, upper, Done)
    ensures SlotsOk(now.fs) && SlotsOk(next.fs) && op.path != [] && Resolve(now.fs, 0, FolderOf(op), upper).Some?
    ensures var parent := Resolve(now.fs, 0, FolderOf(op), upper).value;
      && parent in next.fs.live && next.fs.live[parent] != []
      && var entry := next.fs.live[parent][|next.fs.live[parent]| - 1];
         && FileBytes(g, next.disk, entry) == op.payload && Size(entry) == |op.payload|
         && (Representable(NameIn(op)) ==> Names(next.fs, parent) == Names(now.fs, parent) + [(NameIn(op), entry)])
  {
    hide Inv;
    hide OutcomeOf;
    hide FirstFit;
    AllUnterminated(g, now.disk, now.fs);
    AllUnterminated(g, next.disk, next.fs);
    var short, chain :| Follows(g, now.disk, now.fs, next.disk, next.fs, op, upper, Done, short, chain);
    PutIsListed(g, now, op, next, upper, short, chain);
  }

  lemma PutIsListed(g: Geometry, now: Moment, op: Operation, next: Moment, upper: Name -> Name, short: seq<byte>,
                    chain: seq<nat>)
    requires op.PutFile? && Inv(g, now.disk, now.fs) && Inv(g, next.disk, next.fs)
    requires g.Formatted() && SlotsOk(now.fs) && SlotsOk(next.fs) && KeysOk(now.fs)
    requires forall x :: x in now.fs.live ==> Unterminated(now.fs.live[x])
    requires Performed(g, now.fs, next.fs, op, upper, short, chain)
    ensures var parent := Resolve(now.fs, 0, FolderOf(op), upper).value;
      && parent in next.fs.live && next.fs.live[parent] != []
      && var entry := next.fs.live[parent][|next.fs.live[parent]| - 1];
         && FileBytes(g, next.disk, entry) == op.payload && Size(entry) == |op.payload|
         && (Representable(NameIn(op)) ==> Names(next.fs, parent) == Names(now.fs, parent) + [(NameIn(op), entry)])
  {
    hide Resolve;
    hide FileBytes;
    hide Link;
    hide ClaimedBy;
    hide Inv;
    InvParts(g, now.disk, now.fs);
    PutReadsBack(g, next.disk, now.fs, next.fs, op, upper, short, chain);
    PerformedParent(g, now.fs, next.fs, op, upper, short, chain);
    var parent := Resolve(now.fs, 0, FolderOf(op), upper).value;
    var t := TargetOf(op, parent, chain);
    LastOfEntrySlots(now.fs.live[parent], NameIn(op), short, AttributesOf(t), FirstOf(t), SizeOf(t));
    if Representable(NameIn(op)) {
      PerformedListing(g, now.fs, next.fs, op, upper, short, chain);
    }
  }

  lemma InvParts(g: Geometry, d: Disk, fs: Fs)
    requires Inv(g, d, fs)
    ensures OnDisk(g, d, fs) && Sound(fs) && Layout(g, d)
  {
  }

  /** The last of the slots of an entry is its short entry. */
  lemma LastOfEntrySlots(live: seq<Slot>, name: Name, short: seq<byte>, attributes: byte, first: nat, size: nat)
    requires ChunkCount(name) <= 255 && |short| == 11 && first < 65536 && size < 0x1_0000_0000
    ensures var all := live + EntrySlots(name, short, attributes, first, size);
      all != [] && all[|all| - 1] == ShortEntry(short, attributes, first, size)
  {
  }

  /** In a run every directory made under a fresh name is a new one, and its path leads to it. */
  lemma DirectoryMade(g: Geometry, now: Moment, op: Operation, next: Moment, upper: Name -> Name)
    requires op.MakeDirectory? && Inv(g, now.disk, now.fs) && Inv(g, next.disk, next.fs)
      && Step(g, now, op, next, upper, Done)
    requires op.path != [] && Representable(NameIn(op)) && SlotsOk(now.fs)
    requires var parent := Resolve(now.fs, 0, FolderOf(op), upper);
      parent.Some? && FindDirectory(Names(now.fs, parent.value), NameIn(op), upper).None?
    ensures SlotsOk(next.fs)
    ensures var made := Resolve(next.fs, 0, op.path, upper);
      made.Some? && made.value !in now.fs.live && made.value in next.fs.live
  {
    hide Inv;
    hide OutcomeOf;
    hide FirstFit;
    AllUnterminated(g, now.disk, now.fs);
    AllUnterminated(g, next.disk, next.fs);
    var short, chain :| Follows(g, now.disk, now.fs, next.disk, next.fs, op, upper, Done, short, chain);
    var parent := Resolve(now.fs, 0, FolderOf(op), upper).value;
    NewDirectoryResolves(g, now.fs, next.fs, op, upper, short, chain, parent);
    PerformedParent(g, now.fs, next.fs, op, upper, short, chain);
  }

  /** The moments of a run, as a volume goes through them. */
  ghost predicate IsRun(g: Geometry, trace: seq<Moment>, ops: seq<Operation>, outcomes: seq<Outcome>,
                        upper: Name -> Name) {
    && |outcomes| == |ops| && |trace| == |ops| + 1
    && (forall k :: 0 <= k < |ops| ==> Step(g, trace[k], ops[k], trace[k + 1], upper, outcomes[k]))
    && forall k :: 0 <= k <= |ops| ==> Inv(g, trace[k].disk, trace[k].fs)
  }

  lemma {:induction false} KeptThroughRun(g: Geometry, trace: seq<Moment>, ops: seq<Operation>, outcomes: seq<Outcome>,
                                          upper: Name -> Name, i: nat, j: nat)
    requires IsRun(g, trace, ops, outcomes, upper) && i <= j <= |ops|
    ensures Grows(trace[i].fs, trace[j].fs)
    decreases j - i
  {
    hide Inv;
    hide Step;
    if i == j {
      NothingRun([], trace[i].fs);
    } else {
      KeptThroughRun(g, trace, ops, outcomes, upper, i, j - 1);
      AllUnterminated(g, trace[j - 1].disk, trace[j - 1].fs);
      StepGrows(g, trace[j - 1], ops[j - 1], trace[j], upper, outcomes[j - 1]);
      GrowsOn(trace[i].fs, trace[j - 1].fs, trace[j].fs);
    }
  }

  lemma StepGrows(g: Geometry, now: Moment, op: Operation, next: Moment, upper: Name -> Name, r: Outcome)
    requires Step(g, now, op, next, upper, r) && KeysOk(now.fs) && g.Formatted()
    ensures Grows(now.fs, next.fs)
  {
    hide Follows;
    hide OutcomeOf;
    hide FirstFit;
    var short, chain :| Follows(g, now.disk, now.fs, next.disk, next.fs, op, upper, r, short, chain);
    FollowsGrows(g, now.disk, now.fs, next.disk, next.fs, op, upper, r, short, chain);
  }

  /** At any later moment of a run an entry for a file is where it was and reads back the same. */
  lemma FileStaysThroughRun(g: Geometry, trace: seq<Moment>, ops: seq<Operation>, outcomes: seq<Outcome>,
                            upper: Name -> Name, i: nat, j: nat, c: nat, k: nat)
    requires IsRun(g, trace, ops, outcomes, upper) && i <= j <= |ops|
    requires SlotsOk(trace[i].fs) && c in trace[i].fs.live && k < |trace[i].fs.live[c]|
    requires IsReal(trace[i].fs.live[c][k]) && !IsDirectory(trace[i].fs.live[c][k])
    ensures Layout(g, trace[i].disk) && Layout(g, trace[j].disk) && SlotsOk(trace[j].fs)
    ensures c in trace[j].fs.live && k < |trace[j].fs.live[c]| && trace[j].fs.live[c][k] == trace[i].fs.live[c][k]
    ensures FileBytes(g, trace[j].disk, trace[j].fs.live[c][k]) == FileBytes(g, trace[i].disk, trace[i].fs.live[c][k])
  {
    hide Inv;
    hide Step;
    hide FileBytes;
    KeptThroughRun(g, trace, ops, outcomes, upper, i, j);
    InvParts(g, trace[i].disk, trace[i].fs);
    InvParts(g, trace[j].disk, trace[j].fs);
    AllUnterminated(g, trace[j].disk, trace[j].fs);
    EarlierFileUnchanged(g, trace[i].disk, trace[i].fs, trace[j].disk, trace[j].fs, c, k);
  }

  /** The operation succeeds in this directory. */
  ghost predicate EntersInto(fs: Fs, op: Operation, upper: Name -> Name, r: Outcome, c: nat) {
    r.Done? && op.path != [] && SlotsOk(fs) && Resolve(fs, 0, FolderOf(op), upper) == Some(c)
  }

  /** A successful operation leaves every directory but its parent exactly as it was. */
  lemma PerformedElsewhere(g: Geometry, before: Fs, after: Fs, op: Operation, upper: Name -> Name, short: seq<byte>,
                           chain: seq<nat>, c: nat)
    requires g.Formatted() && KeysOk(before) && SlotsOk(before) && Performed(g, before, after, op, upper, short, chain)
    requires c in before.live
    ensures c in after.live
    ensures after.live[c] == before.live[c] <==> Resolve(before, 0, FolderOf(op), upper) != Some(c)
  {
    PerformedParent(g, before, after, op, upper, short, chain);
    hide Resolve;
    hide NewAlias;
    var parent := Resolve(before, 0, FolderOf(op), upper).value;
    if c == parent {
      assert |after.live[c]| > |before.live[c]|;
    }
  }

  /** A directory has exactly the slots it had before an operation unless the operation entered something into it. */
  lemma OthersStay(g: Geometry, now: Moment, op: Operation, next: Moment, upper: Name -> Name, r: Outcome, c: nat)
    requires Step(g, now, op, next, upper, r) && KeysOk(now.fs) && g.Formatted() && c in now.fs.live
    ensures c in next.fs.live
    ensures next.fs.live[c] == now.fs.live[c] <==> !EntersInto(now.fs, op, upper, r, c)
  {
    hide OutcomeOf;
    hide FirstFit;
    hide Performed;
    var short, chain :| Follows(g, now.disk, now.fs, next.disk, next.fs, op, upper, r, short, chain);
    if r.Done? {
      PerformedElsewhere(g, now.fs, next.fs, op, upper, short, chain, c);
      PerformedHasPath(g, now.fs, next.fs, op, upper, short, chain);
    }
  }

  lemma PerformedHasPath(g: Geometry, before: Fs, after: Fs, op: Operation, upper: Name -> Name, short: seq<byte>,
                         chain: seq<nat>)
    requires g.Formatted() && SlotsOk(before) && Performed(g, before, after, op, upper, short, chain)
    ensures op.path != []
  {
  }

  /** Between two moments of a run a directory has the same slots just if nothing was entered into it. */
  lemma {:induction false} OthersStayThroughRun(g: Geometry, trace: seq<Moment>, ops: seq<Operation>,
                                                outcomes: seq<Outcome>,
                                                upper: Name -> Name, i: nat, j: nat, c: nat)
    requires IsRun(g, trace, ops, outcomes, upper) && i <= j <= |ops| && c in trace[i].fs.live
    ensures c in trace[j].fs.live && trace[i].fs.live[c] <= trace[j].fs.live[c]
    ensures trace[j].fs.live[c] == trace[i].fs.live[c]
       <==> forall k :: i <= k < j ==> !EntersInto(trace[k].fs, ops[k], upper, outcomes[k], c)
    decreases j - i
  {
    hide Inv;
    hide Step;
    hide EntersInto;
    KeptThroughRun(g, trace, ops, outcomes, upper, i, j);
    if i < j {
      var last := j - 1;
      OthersStayThroughRun(g, trace, ops, outcomes, upper, i, last, c);
      AllUnterminated(g, trace[last].disk, trace[last].fs);
      KeptThroughRun(g, trace, ops, outcomes, upper, last, j);
      OthersStay(g, trace[last], ops[last], trace[j], upper, outcomes[last], c);
    }
  }

  // ----- where a file is on the image -----

  lemma PerformedChain(g: Geometry, before: Fs, after: Fs, op: Operation, upper: Name -> Name, short: seq<byte>,
                       chain: seq<nat>)
    requires op.PutFile? && op.payload != [] && g.Formatted() && SlotsOk(before) && KeysOk(before)
    requires Performed(g, before, after, op, upper, short, chain)
    ensures AllData(g, chain) && chain != [] && chain[0] in after.chains && after.chains[chain[0]] == chain
    ensures chain[0] in after.contents && after.contents[chain[0]] == op.payload
    ensures |chain| == Needs(g, op)
    ensures var parent := Resolve(before, 0, FolderOf(op), upper).value;
      && parent in after.live && after.live[parent] != []
      && var entry := after.live[parent][|after.live[parent]| - 1];
         |entry| == SLOT && U16(entry, 26) == chain[0] && entry[11] == 0x20
  {
    PerformedParent(g, before, after, op, upper, short, chain);
    hide Resolve;
    hide NewAlias;
    var parent := Resolve(before, 0, FolderOf(op), upper).value;
    var t := TargetOf(op, parent, chain);
    LastOfEntrySlots(before.live[parent], NameIn(op), short, AttributesOf(t), FirstOf(t), SizeOf(t));
    hide EntrySlots;
  }

  /** Byte q of cluster k of the chain, by its sector of 512 bytes and the offset in it. */
  ghost predicate ByteIsAt(g: Geometry, d: Disk, chain: seq<nat>, k: nat, q: nat, value: byte) {
    && k < |chain| && g.IsData(chain[k])
    && var lba := g.Lba(chain[k]) + q / 512;
       lba < |d| && q % 512 < |d[lba]| && d[lba][q % 512] == value
  }

  /** The bytes of a file are in the clusters of its chain, in order. */
  ghost predicate BytesAreAt(g: Geometry, d: Disk, chain: seq<nat>, content: seq<byte>) {
    forall k: nat, q: nat :: q < g.ClusterBytes() && Place(g, k, q) < |content| ==>
      ByteIsAt(g, d, chain, k, q, content[Place(g, k, q)])
  }

  /** The number of byte q of cluster k. */
  function Place(g: Geometry, k: nat, q: nat): nat {
    k * g.ClusterBytes() + q
  }

  lemma StoredByte(g: Geometry, d: Disk, chain: seq<nat>, content: seq<byte>, k: nat, q: nat)
    requires Layout(g, d) && FileOk(g, d, chain, content) && q < g.ClusterBytes() && Place(g, k, q) < |content|
    ensures ByteIsAt(g, d, chain, k, q, content[Place(g, k, q)])
  {
    ChainLength(g, d, chain);
    IndexBelow(k, q, |chain|, g.ClusterBytes());
    hide ClusterSpan;
    hide ChainBytes;
    ChainByte(g, d, chain, k, q);
    ClusterByte(g, d, chain[k], q);
  }

  lemma IndexBelow(k: nat, q: nat, n: nat, b: nat)
    requires k * b + q < n * b
    ensures k < n
  {
    if k >= n {
      MulAtLeast(k, n, b);
    }
  }

  lemma MulAtLeast(k: nat, n: nat, b: nat)
    requires k >= n
    ensures k * b >= n * b
  {
    assert k * b == n * b + (k - n) * b;
  }

  /** The chain of a put file as the table has it: each entry leads to the next cluster, the last one ends it. */
  ghost predicate TableLeads(g: Geometry, d: Disk, chain: seq<nat>)
    requires Layout(g, d) && AllData(g, chain)
  {
    forall k :: 0 <= k < |chain| ==>
      EntryOf(g, d, chain[k]) == if k + 1 < |chain| then chain[k + 1] else 0xFFFF
  }

  /**
   A file just put, on the image itself: it has the first free clusters, chained in ascending order in the
   table, and its bytes are in them in order; its entry, the last one of its directory, has the first of
   them in bytes 26 and 27 and the attributes of a plain file.
   */
  ghost predicate IsOnDisk(g: Geometry, before: Disk, d: Disk, fs: Fs, parent: nat, op: Operation, chain: seq<nat>)
    requires op.PutFile?
  {
    && Layout(g, before) && Layout(g, d) && AllData(g, chain)
    && Needs(g, op) <= |FreeFrom(g, before, 2)| && chain == FreeFrom(g, before, 2)[..Needs(g, op)] != []
    && TableLeads(g, d, chain) && BytesAreAt(g, d, chain, op.payload)
    && parent in fs.live && fs.live[parent] != []
    && var entry := fs.live[parent][|fs.live[parent]| - 1];
       |entry| == SLOT && U16(entry, 26) == chain[0] && entry[11] == 0x20
  }

  lemma PutOnDisk(g: Geometry, now: Moment, op: Operation, next: Moment, upper: Name -> Name) returns (chain: seq<nat>)
    requires op.PutFile? && op.payload != [] && Inv(g, now.disk, now.fs) && Inv(g, next.disk, next.fs)
    requires Step(g, now, op, next, upper, Done)
    ensures SlotsOk(now.fs) && op.path != [] && Resolve(now.fs, 0, FolderOf(op), upper).Some?
    ensures IsOnDisk(g, now.disk, next.disk, next.fs, Resolve(now.fs, 0, FolderOf(op), upper).value, op, chain)
  {
    hide *;
    AllUnterminated(g, now.disk, now.fs);
    InvParts(g, next.disk, next.fs);
    InvParts(g, now.disk, now.fs);
    var short;
    short, chain := StepPerformed(g, now, op, next, upper);
    PerformedResolves(g, now.fs, next.fs, op, upper, short, chain);
    PerformedChain(g, now.fs, next.fs, op, upper, short, chain);
    ChainStored(g, next.disk, next.fs, chain[0]);
    AllOnDisk(g, now.disk, next.disk, next.fs, Resolve(now.fs, 0, FolderOf(op), upper).value, op, chain);
  }

  lemma StepPerformed(g: Geometry, now: Moment, op: Operation, next: Moment, upper: Name -> Name)
    returns (short: seq<byte>, chain: seq<nat>)
    requires op.PutFile? && op.payload != [] && g.Formatted() && Layout(g, now.disk) && SlotsOk(now.fs)
    requires Step(g, now, op, next, upper, Done)
    ensures Performed(g, now.fs, next.fs, op, upper, short, chain)
    ensures Needs(g, op) <= |FreeFrom(g, now.disk, 2)| && chain == FreeFrom(g, now.disk, 2)[..Needs(g, op)]
  {
    hide OutcomeOf;
    hide Performed;
    hide FreeFrom;
    hide Layout;
    short, chain :| Follows(g, now.disk, now.fs, next.disk, next.fs, op, upper, Done, short, chain)
      && FirstFit(g, now.disk, op, Done, chain);
  }

  lemma AllOnDisk(g: Geometry, before: Disk, d: Disk, fs: Fs, parent: nat, op: Operation, chain: seq<nat>)
    requires op.PutFile? && Layout(g, before) && Layout(g, d) && AllData(g, chain)
    requires Needs(g, op) <= |FreeFrom(g, before, 2)| && chain == FreeFrom(g, before, 2)[..Needs(g, op)] != []
    requires TableLeads(g, d, chain) && BytesAreAt(g, d, chain, op.payload)
    requires parent in fs.live && fs.live[parent] != []
    requires var entry := fs.live[parent][|fs.live[parent]| - 1];
      |entry| == SLOT && U16(entry, 26) == chain[0] && entry[11] == 0x20
    ensures IsOnDisk(g, before, d, fs, parent, op, chain)
  {
  }

  lemma PerformedResolves(g: Geometry, before: Fs, after: Fs, op: Operation, upper: Name -> Name, short: seq<byte>,
                          chain: seq<nat>)
    requires g.Formatted() && SlotsOk(before) && Performed(g, before, after, op, upper, short, chain)
    ensures op.path != [] && Resolve(before, 0, FolderOf(op), upper).Some?
  {
  }

  lemma ChainStored(g: Geometry, d: Disk, fs: Fs, f: nat)
    requires OnDisk(g, d, fs) && f in fs.contents && f in fs.chains
    ensures Layout(g, d) && AllData(g, fs.chains[f]) && TableLeads(g, d, fs.chains[f])
    ensures BytesAreAt(g, d, fs.chains[f], fs.contents[f])
  {
    var chain, content := fs.chains[f], fs.contents[f];
    assert ChainOk(g, d, f, chain);
    assert FileOk(g, d, chain, content);
    hide ByteIsAt;
    hide FileOk;
    forall k: nat, q: nat | q < g.ClusterBytes() && Place(g, k, q) < |content|
      ensures ByteIsAt(g, d, chain, k, q, content[Place(g, k, q)])
    {
      StoredByte(g, d, chain, content, k, q);
    }
  }
}
