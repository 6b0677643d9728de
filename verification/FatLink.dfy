/** Entering a file or directory into its parent: the step that makes an allocated chain reachable. */
module FatLink {
  import opened Common
  import opened FatLayout
  import opened FatNames
  import opened FatDirs
  import opened FatState

  /** What a new entry refers to. */
  datatype Target =
    | EmptyFile
    | FileAt(first: nat, content: seq<byte>)
    | FolderAt(first: nat, dots: seq<Slot>)

  function FirstOf(t: Target): nat {
    if t.EmptyFile? then 0 else t.first
  }

  function SizeOf(t: Target): nat {
    if t.FileAt? then |t.content| else 0
  }

  function AttributesOf(t: Target): byte {
    if t.FolderAt? then ATTR_DIRECTORY else 0x20
  }

  function DotSlot(dots: seq<byte>, first: nat): (r: Slot)
    requires 1 <= |dots| <= 2 && first < 65536
    ensures |r| == SLOT
  {
    ShortEntryUndated(dots + seq(11 - |dots|, _ => 0x20), ATTR_DIRECTORY, first)
  }

  /** A short entry without date, time and size. */
  function ShortEntryUndated(short: seq<byte>, attributes: byte, first: nat): (r: Slot)
    requires |short| == 11 && first < 65536
    ensures |r| == SLOT && r[..11] == short && r[0] == short[0] && r[11] == attributes && U16(r, 26) == first
  {
    short + [attributes, 0, 0, 0, 0, 0, 0, 0, 0, 0, 0, 0, 0, 0, 0, first % 256, first / 256, 0, 0, 0, 0]
  }

  /** The two entries a new directory starts with: itself and its parent. */
  function Dots(first: nat, parent: nat): (r: seq<Slot>)
    requires first < 65536 && parent < 65536
    ensures |r| == 2 && AreSlots(r)
  {
    [DotSlot([0x2E], first), DotSlot([0x2E, 0x2E], parent)]
  }

  /** The entry is appended to its parent and what it refers to ceases to be lost. */
  ghost function Link(fs: Fs, parent: nat, slots: seq<Slot>, t: Target): Fs
    requires parent in fs.live && slots != []
  {
    var at := (parent, |fs.live[parent]| + |slots| - 1);
    var live := fs.live[parent := fs.live[parent] + slots];
    match t
    case EmptyFile => fs.(live := live)
    case FileAt(f, content) =>
      fs.(live := live, contents := fs.contents[f := content], lost := fs.lost - {f}, owner := fs.owner[f := at])
    case FolderAt(f, dots) =>
      fs.(live := live[f := dots], lost := fs.lost - {f}, owner := fs.owner[f := at])
  }

  /** The target has been written, but nothing refers to it yet. */
  ghost predicate Ready(g: Geometry, d: Disk, fs: Fs, parent: nat, t: Target)
    requires Layout(g, d)
  {
    match t
    case EmptyFile => true
    case FileAt(f, content) => f in fs.lost && f in fs.chains && FileOk(g, d, fs.chains[f], content)
    case FolderAt(f, dots) =>
      && f in fs.lost && HasPlace(g, fs, f) && f != 0 && f < 65536 && parent < 65536
      && dots == Dots(f, parent) && LiveIn(d, DirLbas(g, f), dots)
  }

  /** The entry slots have been written behind the live slots of the parent, and nowhere else. */
  ghost predicate Appended(g: Geometry, d: Disk, e: Disk, fs: Fs, parent: nat, slots: seq<Slot>)
    requires Layout(g, d) && parent in fs.live && DirOk(g, d, fs, parent)
  {
    && Layout(g, e) && |e| == |d|
    && (forall lba :: 0 <= lba < |d| && lba !in DirLbas(g, parent) ==> e[lba] == d[lba])
    && LiveIn(e, DirLbas(g, parent), fs.live[parent] + slots)
  }

  // ----- the shape of the slots -----

  /** The slots end with one real entry; the slots before it are no entries. */
  ghost predicate EntryShape(slots: seq<Slot>, short: seq<byte>, t: Target) {
    && slots != [] && Unterminated(slots)
    && (forall i :: 0 <= i < |slots| - 1 ==> !IsEntry(slots[i]))
    && var entry := slots[|slots| - 1];
       && IsReal(entry) && entry[..11] == short
       && First(entry) == FirstOf(t) && Size(entry) == SizeOf(t) && (IsDirectory(entry) <==> t.FolderAt?)
  }

  lemma EntrySlotsShape(name: Name, short: seq<byte>, t: Target)
    requires ChunkCount(name) <= 255 && IsAlias(short) && FirstOf(t) < 65536 && SizeOf(t) < 0x1_0000_0000
    ensures EntryShape(EntrySlots(name, short, AttributesOf(t), FirstOf(t), SizeOf(t)), short, t)
  {
    LongSlotsUnterminated(name, ChecksumFrom(0, short), ChunkCount(name));
  }

  // ----- entries and what they refer to -----

  /** The entries of a directory that come before the appended slots keep their positions. */
  lemma LinkedSlots(fs: Fs, parent: nat, slots: seq<Slot>, t: Target, c: nat, i: nat)
    requires SlotsOk(fs) && parent in fs.live && slots != [] && AreSlots(slots)
    requires c in fs.live && i < |fs.live[c]| && (t.FolderAt? ==> t.first !in fs.live)
    ensures var after := Link(fs, parent, slots, t);
      c in after.live && i < |after.live[c]| && after.live[c][i] == fs.live[c][i]
  {
  }

  /** Nothing refers to the target yet. */
  ghost predicate Fresh(fs: Fs, t: Target) {
    !t.EmptyFile? ==> t.first != 0 && t.first !in fs.live && t.first !in fs.contents && t.first !in fs.owner
  }

  lemma LinkOwnerKeys(fs: Fs, parent: nat, slots: seq<Slot>, t: Target)
    requires OwnerKeysOk(fs) && parent in fs.live && slots != [] && Fresh(fs, t)
    ensures OwnerKeysOk(Link(fs, parent, slots, t))
  {
  }

  lemma LinkOwned(fs: Fs, parent: nat, slots: seq<Slot>, short: seq<byte>, t: Target)
    requires OwnersOk(fs) && parent in fs.live && EntryShape(slots, short, t) && Fresh(fs, t)
    requires t.FolderAt? ==> AreSlots(t.dots)
    ensures OwnersOk(Link(fs, parent, slots, t))
  {
    var after := Link(fs, parent, slots, t);
    forall f | f in after.owner
      ensures Owned(after, f)
    {
      if !t.EmptyFile? && f == t.first {
        assert after.live[parent][after.owner[f].1] == slots[|slots| - 1];
      } else {
        assert Owned(fs, f);
        LinkedSlots(fs, parent, slots, t, fs.owner[f].0, fs.owner[f].1);
      }
    }
  }

  /** Every slot afterwards is an old one, one of the appended ones, or a dot entry. */
  lemma SlotOrigin(fs: Fs, parent: nat, slots: seq<Slot>, t: Target, c: nat, i: nat)
    requires SlotsOk(fs) && parent in fs.live && slots != [] && AreSlots(slots) && Fresh(fs, t)
    requires c in Link(fs, parent, slots, t).live && i < |Link(fs, parent, slots, t).live[c]|
    ensures var slot := Link(fs, parent, slots, t).live[c][i];
      || (c in fs.live && i < |fs.live[c]| && slot == fs.live[c][i])
      || (c == parent && |fs.live[parent]| <= i && slot == slots[i - |fs.live[parent]|])
      || (t.FolderAt? && c == t.first && slot == t.dots[i])
  {
  }

  lemma LinkRefers(fs: Fs, parent: nat, slots: seq<Slot>, short: seq<byte>, t: Target, c: nat, i: nat)
    requires EntriesOk(fs) && parent in fs.live && EntryShape(slots, short, t) && Fresh(fs, t)
    requires t.FolderAt? ==> t.first < 65536 && parent < 65536 && t.dots == Dots(t.first, parent)
    requires var after := Link(fs, parent, slots, t);
      SlotsOk(after) && c in after.live && i < |after.live[c]| && IsReal(after.live[c][i])
    ensures Refers(Link(fs, parent, slots, t), c, i)
  {
    SlotOrigin(fs, parent, slots, t, c, i);
    if c in fs.live && i < |fs.live[c]| {
      LinkedSlots(fs, parent, slots, t, c, i);
      assert Refers(fs, c, i);
    }
  }

  lemma LinkEntries(fs: Fs, parent: nat, slots: seq<Slot>, short: seq<byte>, t: Target)
    requires EntriesOk(fs) && parent in fs.live && EntryShape(slots, short, t) && Fresh(fs, t)
    requires t.FolderAt? ==> t.first < 65536 && parent < 65536 && t.dots == Dots(t.first, parent)
    requires SlotsOk(Link(fs, parent, slots, t))
    ensures EntriesOk(Link(fs, parent, slots, t))
  {
    var after := Link(fs, parent, slots, t);
    forall c, i | c in after.live && 0 <= i < |after.live[c]| && IsReal(after.live[c][i])
      ensures Refers(after, c, i)
    {
      LinkRefers(fs, parent, slots, short, t, c, i);
    }
  }

  lemma LinkPaths(fs: Fs, parent: nat, slots: seq<Slot>, short: seq<byte>, t: Target)
    requires PathsOk(fs) && parent in fs.live && EntryShape(slots, short, t) && Fresh(fs, t)
    requires t.FolderAt? ==> t.first < 65536 && parent < 65536 && t.dots == Dots(t.first, parent)
    requires SlotsOk(Link(fs, parent, slots, t))
    ensures PathsOk(Link(fs, parent, slots, t))
  {
    var after := Link(fs, parent, slots, t);
    forall c, i | c in after.live && 0 <= i < |after.live[c]| && LeadsOn(after.live[c][i])
      ensures First(after.live[c][i]) in after.live
    {
      SlotOrigin(fs, parent, slots, t, c, i);
      if c in fs.live && i < |fs.live[c]| {
        LinkedSlots(fs, parent, slots, t, c, i);
      }
    }
  }

  lemma LinkRefs(fs: Fs, parent: nat, slots: seq<Slot>, short: seq<byte>, t: Target)
    requires RefsOk(fs) && parent in fs.live && EntryShape(slots, short, t) && Fresh(fs, t)
    requires t.FolderAt? ==> t.first < 65536 && parent < 65536 && t.dots == Dots(t.first, parent)
    ensures RefsOk(Link(fs, parent, slots, t))
  {
    LinkOwnerKeys(fs, parent, slots, t);
    LinkOwned(fs, parent, slots, short, t);
    LinkEntries(fs, parent, slots, short, t);
    LinkPaths(fs, parent, slots, short, t);
  }

  // ----- short names -----

  lemma LinkAliases(fs: Fs, parent: nat, slots: seq<Slot>, short: seq<byte>, t: Target)
    requires AliasesOk(fs) && parent in fs.live && EntryShape(slots, short, t) && Fresh(fs, t)
    requires t.FolderAt? ==> t.first < 65536 && parent < 65536 && t.dots == Dots(t.first, parent)
    requires forall i :: 0 <= i < |fs.live[parent]| && IsEntry(fs.live[parent][i]) ==> fs.live[parent][i][..11] != short
    ensures AliasesOk(Link(fs, parent, slots, t))
  {
    assert DistinctAliases(fs.live[parent] + slots);
    if t.FolderAt? {
      assert t.dots[0][..11][1] == 0x20 && t.dots[1][..11][1] == 0x2E;
      assert DistinctAliases(t.dots);
    }
  }

  // ----- the image -----

  lemma DirLbasMembers(g: Geometry, d: Disk, c: nat, lba: nat)
    requires Layout(g, d) && (c != 0 ==> g.IsData(c))
    ensures lba in DirLbas(g, c) <==>
      if c == 0 then g.RootStart() <= lba < g.DataStart() else g.Lba(c) <= lba < g.Lba(c) + g.clusterSectors
  {
    if c == 0 {
      RootLbasOk(g, d);
    } else {
      ChainLbasMembers(g, [c], lba);
      assert [c][0] == c;
    }
  }

  lemma AppendSparesRegions(g: Geometry, d: Disk, e: Disk, parent: nat)
    requires Layout(g, d) && |e| == |d| && (parent != 0 ==> g.IsData(parent))
    requires forall lba :: 0 <= lba < |d| && lba !in DirLbas(g, parent) ==> e[lba] == d[lba]
    ensures SameSectors(d, e, 0, g.RootStart())
    ensures parent != 0 ==> SameSectors(d, e, g.RootStart(), g.DataStart())
  {
    forall lba: nat {
      DirLbasMembers(g, d, parent, lba);
    }
    if parent != 0 {
      LbaInside(g, parent);
    }
  }

  /** The slots of a directory lie outside the tables and outside the clusters of all other chains. */
  lemma AppendSpares(g: Geometry, d: Disk, e: Disk, fs: Fs, parent: nat, slots: seq<Slot>)
    requires Layout(g, d) && ChainsOk(g, d, fs) && Apart(fs)
    requires parent in fs.live && DirOk(g, d, fs, parent) && Appended(g, d, e, fs, parent, slots)
    ensures Spares(g, d, e, fs, {parent})
  {
    AppendSparesRegions(g, d, e, parent);
    forall f | f in fs.chains && f != parent
      ensures SameChain(g, d, e, fs.chains[f])
    {
      assert ChainOk(g, d, f, fs.chains[f]);
      if parent != 0 {
        assert Disjoint(fs.chains[f], fs.chains[parent]) && fs.chains[parent][0] == parent;
      }
      AppendSparesChain(g, d, e, parent, fs.chains[f]);
    }
  }

  lemma AppendSparesChain(g: Geometry, d: Disk, e: Disk, parent: nat, chain: seq<nat>)
    requires Layout(g, d) && AllData(g, chain) && (parent != 0 ==> g.IsData(parent)) && |e| == |d|
    requires forall lba :: 0 <= lba < |d| && lba !in DirLbas(g, parent) ==> e[lba] == d[lba]
    requires forall i :: 0 <= i < |chain| ==> chain[i] != parent
    ensures SameChain(g, d, e, chain)
  {
    forall i | 0 <= i < |chain|
      ensures SameCluster(g, d, e, chain[i])
    {
      LbaInside(g, chain[i]);
      if parent != 0 {
        ClustersApart(g, chain[i], parent);
      }
      forall lba: nat {
        DirLbasMembers(g, d, parent, lba);
      }
    }
  }

  lemma LinkKeys(fs: Fs, parent: nat, slots: seq<Slot>, t: Target)
    requires KeysOk(fs) && parent in fs.live && slots != [] && (!t.EmptyFile? ==> t.first in fs.lost)
    ensures KeysOk(Link(fs, parent, slots, t))
  {
  }

  lemma LinkFiles(g: Geometry, e: Disk, fs: Fs, parent: nat, slots: seq<Slot>, t: Target)
    requires Layout(g, e) && FilesOk(g, e, fs) && parent in fs.live && slots != []
    requires t.FileAt? ==> t.first in fs.chains && FileOk(g, e, fs.chains[t.first], t.content)
    ensures FilesOk(g, e, Link(fs, parent, slots, t))
  {
    var after := Link(fs, parent, slots, t);
    forall f | f in after.contents
      ensures f in after.chains && FileOk(g, e, after.chains[f], after.contents[f])
    {
      if f in fs.contents && after.contents[f] == fs.contents[f] {
        assert FileOk(g, e, fs.chains[f], fs.contents[f]);
      }
    }
  }

  lemma LinkDirs(g: Geometry, e: Disk, fs: Fs, parent: nat, slots: seq<Slot>, t: Target)
    requires Layout(g, e) && parent in fs.live && slots != [] && (t.FolderAt? ==> t.first !in fs.live)
    requires forall c :: c in fs.live && c != parent ==> DirOk(g, e, fs, c)
    requires HasPlace(g, fs, parent) && LiveIn(e, DirLbas(g, parent), fs.live[parent] + slots)
    requires t.FolderAt? ==> HasPlace(g, fs, t.first) && LiveIn(e, DirLbas(g, t.first), t.dots)
    ensures DirsOk(g, e, Link(fs, parent, slots, t))
  {
    var after := Link(fs, parent, slots, t);
    forall c | c in after.live
      ensures DirOk(g, e, after, c)
    {
      assert HasPlace(g, fs, c) ==> HasPlace(g, after, c);
      if c in fs.live && c != parent {
        assert DirOk(g, e, fs, c) && after.live[c] == fs.live[c];
      }
    }
  }

  /** Writing to the parent does not disturb a target that is not linked yet. */
  lemma TargetSpared(g: Geometry, d: Disk, e: Disk, fs: Fs, parent: nat, t: Target)
    requires Layout(g, d) && ChainsOk(g, d, fs) && KeysOk(fs) && parent in fs.live
    requires Ready(g, d, fs, parent, t) && Spares(g, d, e, fs, {parent})
    ensures t.FileAt? ==> FileOk(g, e, fs.chains[t.first], t.content)
    ensures t.FolderAt? ==> LiveIn(e, DirLbas(g, t.first), t.dots)
  {
    if t.FileAt? {
      FileSame(g, d, e, fs.chains[t.first], t.content);
    } else if t.FolderAt? {
      var one := fs.(live := map[t.first := t.dots]);
      assert DirOk(g, d, one, t.first);
      assert SameChain(g, d, e, fs.chains[t.first]) && fs.chains[t.first][0] == t.first;
      DirSame(g, d, e, one, t.first);
    }
  }

  lemma LinkData(g: Geometry, d: Disk, e: Disk, fs: Fs, parent: nat, slots: seq<Slot>, t: Target)
    requires Layout(g, d) && ChainsOk(g, d, fs) && KeysOk(fs) && FilesOk(g, d, fs) && DirsOk(g, d, fs)
    requires parent in fs.live && DirOk(g, d, fs, parent) && slots != []
    requires Ready(g, d, fs, parent, t) && Appended(g, d, e, fs, parent, slots) && Spares(g, d, e, fs, {parent})
    ensures FilesOk(g, e, Link(fs, parent, slots, t)) && DirsOk(g, e, Link(fs, parent, slots, t))
  {
    hide LiveIn;
    hide FileOk;
    hide ChainsOk;
    hide Spares;
    hide SameChain;
    TargetSpared(g, d, e, fs, parent, t);
    SparedFiles(g, d, e, fs, {parent});
    SparedDirs(g, d, e, fs, {parent});
    LinkFiles(g, e, fs, parent, slots, t);
    LinkDirs(g, e, fs, parent, slots, t);
  }

  lemma SameChains(g: Geometry, e: Disk, fs: Fs, after: Fs)
    requires Layout(g, e) && after.chains == fs.chains && ChainsOk(g, e, fs) && NoStray(g, e, fs)
    ensures ChainsOk(g, e, after) && NoStray(g, e, after)
  {
  }

  /** Entering a finished target into its parent keeps the invariant. */
  lemma LinkedOnDisk(g: Geometry, d: Disk, e: Disk, fs: Fs, parent: nat, slots: seq<Slot>, t: Target)
    requires OnDisk(g, d, fs) && KeysOk(fs) && Apart(fs) && parent in fs.live && DirOk(g, d, fs, parent)
    requires Ready(g, d, fs, parent, t) && slots != [] && Appended(g, d, e, fs, parent, slots)
    ensures OnDisk(g, e, Link(fs, parent, slots, t))
  {
    hide Mirrored;
    hide ChainsOk;
    hide NoStray;
    hide FilesOk;
    hide DirsOk;
    hide Spares;
    hide Ready;
    AppendSpares(g, d, e, fs, parent, slots);
    LinkData(g, d, e, fs, parent, slots, t);
    SparedTables(g, d, e, fs, {parent});
    SameChains(g, e, fs, Link(fs, parent, slots, t));
  }

  lemma LinkedSound(fs: Fs, parent: nat, slots: seq<Slot>, short: seq<byte>, t: Target)
    requires Sound(fs) && parent in fs.live && EntryShape(slots, short, t)
    requires !t.EmptyFile? ==> t.first in fs.lost && t.first != 0
    requires t.FolderAt? ==> t.first < 65536 && parent < 65536 && t.dots == Dots(t.first, parent)
    requires forall i :: 0 <= i < |fs.live[parent]| && IsEntry(fs.live[parent][i]) ==> fs.live[parent][i][..11] != short
    ensures Sound(Link(fs, parent, slots, t))
  {
    LinkKeys(fs, parent, slots, t);
    LinkRefs(fs, parent, slots, short, t);
    LinkAliases(fs, parent, slots, short, t);
  }
}
