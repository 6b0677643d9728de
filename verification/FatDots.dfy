/** The entries "." and ".." of a directory: where they lead when the directory has been made, and ever after. */
module FatDots {
  import opened Common
  import opened FatLayout
  import opened FatNames
  import opened FatState
  import opened FatLink
  import opened FatVolume
  import opened FatReadBack

  const DOT: Name := [46]
  const DOT_DOT: Name := [46, 46]

  // ----- short names -----

  /** The bytes, followed by as many blanks. */
  function Blanked(s: seq<byte>, n: nat): (r: seq<byte>)
    ensures |r| == |s| + n
  {
    s + seq(n, _ => 0x20)
  }

  lemma {:induction false} BlanksAreTrimmed(s: seq<byte>, n: nat)
    requires s == [] || !IsBlank(s[|s| - 1])
    ensures TrimRight(Blanked(s, n)) == s
  {
    var t := Blanked(s, n);
    if n == 0 {
      assert t == s;
    } else {
      assert t[..|t| - 1] == Blanked(s, n - 1);
      BlanksAreTrimmed(s, n - 1);
    }
  }

  /** An entry without a long name is listed as its stem and, behind a dot, its extension if it has one. */
  lemma ShortNameIs(slot: Slot, stem: seq<byte>, ext: seq<byte>)
    requires |slot| == SLOT && |stem| <= 8 && |ext| <= 3
    requires slot[..8] == Blanked(stem, 8 - |stem|) && slot[8..11] == Blanked(ext, 3 - |ext|)
    requires (stem == [] || !IsBlank(stem[|stem| - 1])) && (ext == [] || !IsBlank(ext[|ext| - 1]))
    ensures |ShortName(slot)| == |stem| + if ext == [] then 0 else 1 + |ext|
    ensures forall i :: 0 <= i < |stem| ==> ShortName(slot)[i] == stem[i]
    ensures ext != [] ==> ShortName(slot)[|stem|] == 46
    ensures forall i :: 0 <= i < |ext| ==> ShortName(slot)[|stem| + 1 + i] == ext[i]
  {
    BlanksAreTrimmed(stem, 8 - |stem|);
    BlanksAreTrimmed(ext, 3 - |ext|);
  }

  lemma DotSlotName(dots: seq<byte>, first: nat)
    requires dots in {[46], [46, 46]} && first < 65536
    ensures ShortName(DotSlot(dots, first)) == if dots == [46] then DOT else DOT_DOT
    ensures var slot := DotSlot(dots, first);
      && slot[0] == 46 && IsEntry(slot) && IsDirectory(slot) && !IsVolumeId(slot) && First(slot) == first
      && slot[11] == 0x10 && forall i :: 12 <= i < 26 || 28 <= i < 32 ==> slot[i] == 0
  {
    var slot := DotSlot(dots, first);
    assert slot[..11] == dots + seq(11 - |dots|, _ => 0x20);
    assert slot[..8] == slot[..11][..8] == Blanked(dots, 8 - |dots|);
    assert slot[8..11] == slot[..11][8..] == Blanked([], 3);
    ShortNameIs(slot, dots, []);
  }

  // ----- the listing of a new directory -----

  lemma DotsListing(f: nat, parent: nat)
    requires f < 65536 && parent < 65536
    ensures Unterminated(Dots(f, parent))
    ensures Listing(NOTHING_PENDING, Dots(f, parent)) == [(DOT, Dots(f, parent)[0]), (DOT_DOT, Dots(f, parent)[1])]
  {
    var dots := Dots(f, parent);
    DotSlotName([46], f);
    DotSlotName([46, 46], parent);
    hide DotSlot;
    hide ShortName;
    assert dots[1..] == [dots[1]];
    assert Collect(NOTHING_PENDING, dots[0]) == NOTHING_PENDING;
    ListingOne(NOTHING_PENDING, dots[1]);
  }

  /** The listing of a directory that starts with its dot entries. */
  lemma DotsFirst(fs: Fs, f: nat, parent: nat) returns (rest: seq<(Name, Slot)>)
    requires SlotsOk(fs) && f in fs.live && f < 65536 && parent < 65536 && Dots(f, parent) <= fs.live[f]
    ensures Names(fs, f) == [(DOT, Dots(f, parent)[0]), (DOT_DOT, Dots(f, parent)[1])] + rest
  {
    var dots := Dots(f, parent);
    var more := fs.live[f][2..];
    assert fs.live[f] == dots + more;
    DotsListing(f, parent);
    ListingConcat(NOTHING_PENDING, dots, more);
    rest := Listing(CollectAll(NOTHING_PENDING, dots), more);
  }

  lemma DotsAreFound(f: nat, parent: nat, listing: seq<(Name, Slot)>, rest: seq<(Name, Slot)>, upper: Name -> Name)
    requires f < 65536 && parent < 65536 && upper(DOT) != upper(DOT_DOT)
    requires forall i :: 0 <= i < |listing| ==> |listing[i].1| == SLOT
    requires listing == [(DOT, Dots(f, parent)[0]), (DOT_DOT, Dots(f, parent)[1])] + rest
    ensures FindDirectory(listing, DOT, upper) == Some(f)
    ensures FindDirectory(listing, DOT_DOT, upper) == Some(parent)
  {
    DotSlotName([46], f);
    DotSlotName([46, 46], parent);
    hide DotSlot;
    assert listing[0] == (DOT, Dots(f, parent)[0]);
    assert listing[1..][0] == listing[1] == (DOT_DOT, Dots(f, parent)[1]);
  }

  lemma OneStep(fs: Fs, c: nat, part: Name, next: nat, upper: Name -> Name)
    requires SlotsOk(fs) && c in fs.live && next in fs.live && FindDirectory(Names(fs, c), part, upper) == Some(next)
    ensures Resolve(fs, c, [part], upper) == Some(next)
  {
    assert [part][1..] == [];
  }

  /** From a directory that starts with its dot entries, "." leads to itself and ".." to its parent. */
  lemma DotsLead(fs: Fs, f: nat, parent: nat, upper: Name -> Name)
    requires SlotsOk(fs) && f in fs.live && parent in fs.live && f < 65536 && parent < 65536
    requires Dots(f, parent) <= fs.live[f] && upper(DOT) != upper(DOT_DOT)
    ensures Resolve(fs, f, [DOT], upper) == Some(f) && Resolve(fs, f, [DOT_DOT], upper) == Some(parent)
  {
    var rest := DotsFirst(fs, f, parent);
    DotsAreFound(f, parent, Names(fs, f), rest, upper);
    OneStep(fs, f, DOT, f, upper);
    OneStep(fs, f, DOT_DOT, parent, upper);
  }

  lemma {:induction false} ResolveOn(fs: Fs, c: nat, parts: seq<Name>, more: seq<Name>, upper: Name -> Name)
    requires SlotsOk(fs) && Resolve(fs, c, parts, upper).Some?
    ensures Resolve(fs, c, parts + more, upper) == Resolve(fs, Resolve(fs, c, parts, upper).value, more, upper)
    decreases |parts|
  {
    var all := parts + more;
    if parts == [] {
      assert all == more;
    } else {
      assert all[0] == parts[0] && all[1..] == parts[1..] + more;
      ResolveOn(fs, FindDirectory(Names(fs, c), parts[0], upper).value, parts[1..], more, upper);
    }
  }

  /** "." behind a path leads where the path leads, ".." to the given directory. */
  ghost predicate HasDots(fs: Fs, path: seq<Name>, f: nat, parent: nat, upper: Name -> Name) {
    && SlotsOk(fs)
    && Resolve(fs, 0, path, upper) == Some(f)
    && Resolve(fs, 0, path + [DOT], upper) == Some(f)
    && Resolve(fs, 0, path + [DOT_DOT], upper) == Some(parent)
  }

  lemma MadeSlots(g: Geometry, before: Fs, after: Fs, op: Operation, upper: Name -> Name, short: seq<byte>,
                  chain: seq<nat>)
    requires op.MakeDirectory? && g.Formatted() && SlotsOk(before) && KeysOk(before)
    requires Performed(g, before, after, op, upper, short, chain)
    ensures var parent := Resolve(before, 0, FolderOf(op), upper).value;
      && parent in after.live && parent < 65536 && chain != [] && chain[0] < 65536
      && after.live.Keys == before.live.Keys + {chain[0]} && chain[0] !in before.live
      && after.live[chain[0]] == Dots(chain[0], parent)
      && after.live[parent] != []
      && IsDirectoryEntry(after.live[parent][|after.live[parent]| - 1], chain[0])
  {
    hide Resolve;
    hide NewAlias;
    var parent := Resolve(before, 0, FolderOf(op), upper).value;
    var t := TargetOf(op, parent, chain);
    PerformedParent(g, before, after, op, upper, short, chain);
    LastOfEntrySlots(before.live[parent], NameIn(op), short, AttributesOf(t), FirstOf(t), SizeOf(t));
    hide EntrySlots;
  }

  /** The attributes of a directory, its cluster, and no size. */
  predicate IsDirectoryEntry(slot: Slot, cluster: nat) {
    |slot| == SLOT && slot[11] == 0x10 && U16(slot, 26) == cluster && U32(slot, 28) == 0
  }

  /**
   A directory just made is a new one and lists "." and ".." only; "." leads from it to itself and
   ".." to the directory its path was to be made in.
   */
  lemma MadeHasDots(g: Geometry, now: Moment, op: Operation, next: Moment, upper: Name -> Name) returns (f: nat)
    requires op.MakeDirectory? && Inv(g, now.disk, now.fs) && Inv(g, next.disk, next.fs)
    requires Step(g, now, op, next, upper, Done) && upper(DOT) != upper(DOT_DOT)
    ensures SlotsOk(now.fs) && SlotsOk(next.fs) && op.path != []
    ensures next.fs.live.Keys == now.fs.live.Keys + {f} && f !in now.fs.live
    ensures Resolve(next.fs, f, [DOT], upper) == Some(f)
    ensures Resolve(next.fs, f, [DOT_DOT], upper) == Resolve(now.fs, 0, FolderOf(op), upper)
    ensures var listing := Names(next.fs, f);
      |listing| == 2 && listing[0].0 == DOT && listing[1].0 == DOT_DOT
    ensures Resolve(now.fs, 0, FolderOf(op), upper).Some?
    ensures var entries := next.fs.live[Resolve(now.fs, 0, FolderOf(op), upper).value];
      entries != [] && IsDirectoryEntry(entries[|entries| - 1], f)
  {
    hide Inv;
    hide OutcomeOf;
    hide FirstFit;
    hide Performed;
    AllUnterminated(g, now.disk, now.fs);
    AllUnterminated(g, next.disk, next.fs);
    var short, chain :| Follows(g, now.disk, now.fs, next.disk, next.fs, op, upper, Done, short, chain);
    PerformedFacts(g, now.fs, next.fs, op, upper, short, chain);
    f := chain[0];
    DotsLead(next.fs, f, Resolve(now.fs, 0, FolderOf(op), upper).value, upper);
    DotsListing(f, Resolve(now.fs, 0, FolderOf(op), upper).value);
  }

  lemma PerformedFacts(g: Geometry, before: Fs, after: Fs, op: Operation, upper: Name -> Name, short: seq<byte>,
                       chain: seq<nat>)
    requires op.MakeDirectory? && g.Formatted() && SlotsOk(before) && KeysOk(before)
    requires Performed(g, before, after, op, upper, short, chain)
    ensures op.path != [] && Resolve(before, 0, FolderOf(op), upper).Some?
    ensures var parent := Resolve(before, 0, FolderOf(op), upper).value;
      && parent in after.live && parent < 65536 && chain != [] && chain[0] < 65536
      && after.live.Keys == before.live.Keys + {chain[0]} && chain[0] !in before.live
      && after.live[chain[0]] == Dots(chain[0], parent)
      && after.live[parent] != []
      && IsDirectoryEntry(after.live[parent][|after.live[parent]| - 1], chain[0])
  {
    MadeSlots(g, before, after, op, upper, short, chain);
  }

  /** With a fresh name the path of the new directory leads there, with "." and ".." behind it as well. */
  lemma MadePathHasDots(g: Geometry, now: Moment, op: Operation, next: Moment, upper: Name -> Name) returns (f: nat)
    requires op.MakeDirectory? && Inv(g, now.disk, now.fs) && Inv(g, next.disk, next.fs)
    requires Step(g, now, op, next, upper, Done) && upper(DOT) != upper(DOT_DOT)
    requires op.path != [] && Representable(NameIn(op)) && SlotsOk(now.fs)
    requires var parent := Resolve(now.fs, 0, FolderOf(op), upper);
      parent.Some? && FindDirectory(Names(now.fs, parent.value), NameIn(op), upper).None?
    ensures f !in now.fs.live
    ensures HasDots(next.fs, op.path, f, Resolve(now.fs, 0, FolderOf(op), upper).value, upper)
  {
    f := MadeHasDots(g, now, op, next, upper);
    DirectoryMade(g, now, op, next, upper);
    hide Inv;
    hide Step;
    ResolveOn(next.fs, 0, op.path, [DOT], upper);
    ResolveOn(next.fs, 0, op.path, [DOT_DOT], upper);
  }

  /** That stays so at every later moment of a run. */
  lemma DotsStay(g: Geometry, trace: seq<Moment>, ops: seq<Operation>, outcomes: seq<Outcome>, upper: Name -> Name,
                 i: nat, j: nat, path: seq<Name>, f: nat, parent: nat)
    requires IsRun(g, trace, ops, outcomes, upper) && i <= j <= |ops|
    requires HasDots(trace[i].fs, path, f, parent, upper)
    ensures HasDots(trace[j].fs, path, f, parent, upper)
  {
    hide Inv;
    hide Step;
    KeptThroughRun(g, trace, ops, outcomes, upper, i, j);
    AllUnterminated(g, trace[i].disk, trace[i].fs);
    AllUnterminated(g, trace[j].disk, trace[j].fs);
    hide Resolve;
    PathsStay(trace[i].fs, trace[j].fs, 0, path, upper);
    PathsStay(trace[i].fs, trace[j].fs, 0, path + [DOT], upper);
    PathsStay(trace[i].fs, trace[j].fs, 0, path + [DOT_DOT], upper);
  }
}
