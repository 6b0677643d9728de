/**
 What a FAT volume stands for - its chains, the contents of files, the live slots of directories -
 and the invariant that ties this to the bytes of the image.
 */
module FatState {
  import opened Common
  import opened FatLayout
  import opened FatNames
  import opened FatDirs

  /**
   chains:   every allocated chain, under its first cluster;
   contents: the bytes of each non-empty file, under its first cluster;
   live:     the live slots of each directory, under its first cluster or under 0 for the root;
   lost:     the chains allocated by an operation that failed afterwards;
   owner:    the directory and the position of the one entry that refers to a file or directory.
   */
  datatype Fs = Fs(
    chains: map<nat, seq<nat>>,
    contents: map<nat, seq<byte>>,
    live: map<nat, seq<Slot>>,
    lost: set<nat>,
    owner: map<nat, (nat, nat)>)

  ghost predicate Layout(g: Geometry, d: Disk) {
    g.Formatted() && Holds(g, d)
  }

  /** The table entry of a cluster. */
  function EntryOf(g: Geometry, d: Disk, c: nat): nat
    requires Layout(g, d) && c < g.clusters + 2
  {
    DataHasEntry(g, c);
    FatEntry(g, d, 0, c)
  }

  // ----- chains -----

  function Next(chain: seq<nat>, i: nat): nat
    requires i < |chain|
  {
    if i + 1 < |chain| then chain[i + 1] else END_OF_CHAIN
  }

  ghost predicate Ascending(chain: seq<nat>) {
    forall i, j :: 0 <= i < j < |chain| ==> chain[i] < chain[j]
  }

  ghost predicate Linked(g: Geometry, d: Disk, chain: seq<nat>)
    requires Layout(g, d) && AllData(g, chain)
  {
    forall i :: 0 <= i < |chain| ==> EntryOf(g, d, chain[i]) == Next(chain, i)
  }

  ghost predicate ChainOk(g: Geometry, d: Disk, f: nat, chain: seq<nat>)
    requires Layout(g, d)
  {
    chain != [] && chain[0] == f && Ascending(chain) && AllData(g, chain) && Linked(g, d, chain)
  }

  ghost predicate ChainsOk(g: Geometry, d: Disk, fs: Fs)
    requires Layout(g, d)
  {
    forall f :: f in fs.chains ==> ChainOk(g, d, f, fs.chains[f])
  }

  /** No cluster belongs to two chains. */
  ghost predicate Apart(fs: Fs) {
    forall e, f :: e in fs.chains && f in fs.chains && e != f ==> Disjoint(fs.chains[e], fs.chains[f])
  }

  ghost predicate Disjoint(a: seq<nat>, b: seq<nat>) {
    forall i, j :: 0 <= i < |a| && 0 <= j < |b| ==> a[i] != b[j]
  }

  /** Every cluster in use belongs to a chain. */
  ghost predicate NoStray(g: Geometry, d: Disk, fs: Fs)
    requires Layout(g, d)
  {
    forall c :: g.IsData(c) && EntryOf(g, d, c) != 0 ==> exists f :: f in fs.chains && c in fs.chains[f]
  }

  /** The chains are those of files, of directories and the lost ones. */
  ghost predicate KeysOk(fs: Fs) {
    && 0 in fs.live && 0 !in fs.chains
    && fs.chains.Keys == fs.contents.Keys + (fs.live.Keys - {0}) + fs.lost
    && fs.contents.Keys !! fs.live.Keys !! fs.lost
  }

  // ----- files -----

  function ClustersFor(g: Geometry, size: nat): nat
    requires g.clusterSectors >= 1
  {
    (size + g.ClusterBytes() - 1) / g.ClusterBytes()
  }

  /** The chain has exactly the clusters the contents need, and starts with its bytes. */
  ghost predicate FileOk(g: Geometry, d: Disk, chain: seq<nat>, content: seq<byte>)
    requires Layout(g, d)
  {
    && AllData(g, chain) && content != []
    && |chain| == ClustersFor(g, |content|)
    && content <= ChainBytes(g, d, chain)
  }

  ghost predicate FilesOk(g: Geometry, d: Disk, fs: Fs)
    requires Layout(g, d)
  {
    forall f :: f in fs.contents ==> f in fs.chains && FileOk(g, d, fs.chains[f], fs.contents[f])
  }

  // ----- directories -----

  /** The root has a region of its own, any other directory one cluster. */
  ghost predicate HasPlace(g: Geometry, fs: Fs, c: nat) {
    c != 0 ==> c in fs.chains && fs.chains[c] == [c] && g.IsData(c)
  }

  ghost function DirLbas(g: Geometry, c: nat): seq<nat>
    requires c != 0 ==> g.IsData(c)
  {
    if c == 0 then RootLbas(g) else ChainLbas(g, [c])
  }

  /** The directory starts with these slots, and all slots after them start with 0. */
  ghost predicate LiveIn(d: Disk, lbas: seq<nat>, live: seq<Slot>) {
    && LbasOk(d, lbas)
    && Unterminated(live)
    && |live| <= 16 * |lbas|
    && (forall k :: 0 <= k < |live| ==> SlotAt(d, lbas, k) == live[k])
    && forall k :: |live| <= k < 16 * |lbas| ==> SlotAt(d, lbas, k)[0] == 0
  }

  ghost predicate DirOk(g: Geometry, d: Disk, fs: Fs, c: nat)
    requires Layout(g, d) && c in fs.live
  {
    HasPlace(g, fs, c) && LiveIn(d, DirLbas(g, c), fs.live[c])
  }

  ghost predicate DirsOk(g: Geometry, d: Disk, fs: Fs)
    requires Layout(g, d)
  {
    forall c :: c in fs.live ==> DirOk(g, d, fs, c)
  }

  // ----- entries -----

  function First(slot: Slot): nat
    requires |slot| == SLOT
  {
    U16(slot, 26)
  }

  function Size(slot: Slot): nat
    requires |slot| == SLOT
  {
    U32(slot, 28)
  }

  predicate IsDirectory(slot: Slot)
    requires |slot| == SLOT
  {
    slot[11] / 16 % 2 == 1
  }

  predicate IsVolumeId(slot: Slot)
    requires |slot| == SLOT
  {
    slot[11] / 8 % 2 == 1
  }

  /** An entry for a file or a directory, other than the two dot entries. */
  predicate IsReal(slot: Slot)
    requires |slot| == SLOT
  {
    IsEntry(slot) && slot[0] != 0x2E && !IsVolumeId(slot)
  }

  ghost predicate SlotsOk(fs: Fs) {
    forall c :: c in fs.live ==> AreSlots(fs.live[c])
  }

  /** The owner of f is an entry for f, with the kind and the size of what f holds. */
  ghost predicate Owned(fs: Fs, f: nat)
    requires SlotsOk(fs) && f in fs.owner
  {
    var (c, i) := fs.owner[f];
    && c in fs.live && i < |fs.live[c]|
    && IsReal(fs.live[c][i])
    && First(fs.live[c][i]) == f
    && (IsDirectory(fs.live[c][i]) <==> f in fs.live)
    && (f in fs.contents ==> Size(fs.live[c][i]) == |fs.contents[f]|)
  }

  /** The entry refers to nothing, being that of an empty file, or it is the owner of what it refers to. */
  ghost predicate Refers(fs: Fs, c: nat, i: nat)
    requires SlotsOk(fs) && c in fs.live && i < |fs.live[c]|
  {
    var slot := fs.live[c][i];
    || (First(slot) == 0 && Size(slot) == 0 && !IsDirectory(slot))
    || (First(slot) in fs.owner && fs.owner[First(slot)] == (c, i))
  }

  /** Files and directories on the one hand and real entries on the other correspond one to one. */
  ghost predicate RefsOk(fs: Fs) {
    SlotsOk(fs) && OwnerKeysOk(fs) && OwnersOk(fs) && EntriesOk(fs) && PathsOk(fs)
  }

  ghost predicate OwnerKeysOk(fs: Fs) {
    fs.owner.Keys == fs.contents.Keys + (fs.live.Keys - {0})
  }

  ghost predicate OwnersOk(fs: Fs) {
    SlotsOk(fs) && forall f :: f in fs.owner ==> Owned(fs, f)
  }

  ghost predicate EntriesOk(fs: Fs) {
    SlotsOk(fs) && forall c, i :: c in fs.live && 0 <= i < |fs.live[c]| && IsReal(fs.live[c][i]) ==> Refers(fs, c, i)
  }

  ghost predicate PathsOk(fs: Fs) {
    SlotsOk(fs) && forall c, i :: c in fs.live && 0 <= i < |fs.live[c]| && LeadsOn(fs.live[c][i]) ==>
      First(fs.live[c][i]) in fs.live
  }

  /** An entry that a path may continue through, dot entries included. */
  predicate LeadsOn(slot: Slot)
    requires |slot| == SLOT
  {
    IsEntry(slot) && !IsVolumeId(slot) && IsDirectory(slot)
  }

  /** No two entries of a directory have the same short name. */
  ghost predicate AliasesOk(fs: Fs) {
    SlotsOk(fs) && forall c :: c in fs.live ==> DistinctAliases(fs.live[c])
  }

  ghost predicate DistinctAliases(slots: seq<Slot>)
    requires AreSlots(slots)
  {
    forall i, j :: 0 <= i < j < |slots| && IsEntry(slots[i]) && IsEntry(slots[j]) ==> slots[i][..11] != slots[j][..11]
  }

  // ----- the invariant -----

  /** The image stores the state. */
  ghost predicate OnDisk(g: Geometry, d: Disk, fs: Fs) {
    && Layout(g, d) && Mirrored(g, d)
    && ChainsOk(g, d, fs) && NoStray(g, d, fs)
    && FilesOk(g, d, fs) && DirsOk(g, d, fs)
  }

  /** The state is consistent in itself. */
  ghost predicate Sound(fs: Fs) {
    KeysOk(fs) && Apart(fs) && RefsOk(fs) && AliasesOk(fs)
  }

  ghost predicate Inv(g: Geometry, d: Disk, fs: Fs) {
    OnDisk(g, d, fs) && Sound(fs)
  }

  // ----- what writing data sectors leaves alone -----

  lemma FatEntrySame(g: Geometry, d: Disk, e: Disk, copy: nat, c: nat)
    requires Layout(g, d) && Layout(g, e) && SameSectors(d, e, 0, g.RootStart())
    requires copy < g.fatCopies && g.HasEntry(c)
    ensures FatEntry(g, e, copy, c) == FatEntry(g, d, copy, c)
  {
    FatInside(g, copy, c);
    assert d[g.FatLba(copy, c)] == e[g.FatLba(copy, c)];
  }

  lemma FatSame(g: Geometry, d: Disk, e: Disk)
    requires Layout(g, d) && Layout(g, e) && SameSectors(d, e, 0, g.RootStart()) && Mirrored(g, d)
    ensures Mirrored(g, e)
    ensures forall c: nat :: c < g.clusters + 2 ==> EntryOf(g, e, c) == EntryOf(g, d, c)
  {
    hide FatEntry;
    forall copy: nat, c: nat | copy < g.fatCopies && g.HasEntry(c) {
      FatEntrySame(g, d, e, copy, c);
    }
    forall c: nat | c < g.clusters + 2 {
      DataHasEntry(g, c);
    }
  }

  /** All clusters of the chain are the same in both images. */
  ghost predicate SameChain(g: Geometry, d: Disk, e: Disk, chain: seq<nat>)
    requires AllData(g, chain)
  {
    forall i :: 0 <= i < |chain| ==> SameCluster(g, d, e, chain[i])
  }

  lemma FileSame(g: Geometry, d: Disk, e: Disk, chain: seq<nat>, content: seq<byte>)
    requires Layout(g, d) && Layout(g, e) && FileOk(g, d, chain, content) && SameChain(g, d, e, chain)
    ensures FileOk(g, e, chain, content)
  {
    ChainBytesSame(g, d, e, chain);
  }

  lemma DirSame(g: Geometry, d: Disk, e: Disk, fs: Fs, c: nat)
    requires Layout(g, d) && Layout(g, e) && c in fs.live && DirOk(g, d, fs, c)
    requires if c == 0 then SameSectors(d, e, g.RootStart(), g.DataStart()) else SameCluster(g, d, e, c)
    ensures DirOk(g, e, fs, c)
  {
    var lbas := DirLbas(g, c);
    if c == 0 {
      RootLbasOk(g, e);
    } else {
      ChainLbasOk(g, e, [c]);
    }
    forall k | 0 <= k < |lbas|
      ensures d[lbas[k]] == e[lbas[k]]
    {
      assert lbas[k] in lbas;
      if c != 0 {
        ChainLbasMembers(g, [c], lbas[k]);
      }
    }
    SlotsSame(d, e, lbas);
    assert forall k :: 0 <= k < 16 * |lbas| ==>
      SlotAt(e, lbas, k) == Slots(e, lbas)[k] == Slots(d, lbas)[k] == SlotAt(d, lbas, k);
  }

  /** A write to data sectors that spares the chains outside x, and the root unless 0 is in x. */
  ghost predicate Spares(g: Geometry, d: Disk, e: Disk, fs: Fs, x: set<nat>)
    requires Layout(g, d) && ChainsOk(g, d, fs)
  {
    && Layout(g, e)
    && SameSectors(d, e, 0, g.RootStart())
    && (0 !in x ==> SameSectors(d, e, g.RootStart(), g.DataStart()))
    && forall f :: f in fs.chains && f !in x ==> SameChain(g, d, e, fs.chains[f])
  }

  lemma SparedTables(g: Geometry, d: Disk, e: Disk, fs: Fs, x: set<nat>)
    requires Layout(g, d) && Mirrored(g, d) && ChainsOk(g, d, fs) && NoStray(g, d, fs) && Spares(g, d, e, fs, x)
    ensures Mirrored(g, e) && ChainsOk(g, e, fs) && NoStray(g, e, fs)
  {
    FatSame(g, d, e);
    forall f | f in fs.chains
      ensures ChainOk(g, e, f, fs.chains[f])
    {
      assert ChainOk(g, d, f, fs.chains[f]);
    }
  }

  lemma SparedFiles(g: Geometry, d: Disk, e: Disk, fs: Fs, x: set<nat>)
    requires Layout(g, d) && ChainsOk(g, d, fs) && FilesOk(g, d, fs) && Spares(g, d, e, fs, x) && x !! fs.contents.Keys
    ensures FilesOk(g, e, fs)
  {
    forall f | f in fs.contents
      ensures f in fs.chains && FileOk(g, e, fs.chains[f], fs.contents[f])
    {
      FileSame(g, d, e, fs.chains[f], fs.contents[f]);
    }
  }

  lemma SparedDirs(g: Geometry, d: Disk, e: Disk, fs: Fs, x: set<nat>)
    requires Layout(g, d) && ChainsOk(g, d, fs) && DirsOk(g, d, fs) && Spares(g, d, e, fs, x)
    ensures forall c :: c in fs.live && c !in x ==> DirOk(g, e, fs, c)
  {
    forall c | c in fs.live && c !in x
      ensures DirOk(g, e, fs, c)
    {
      assert DirOk(g, d, fs, c);
      if c != 0 {
        assert SameChain(g, d, e, fs.chains[c]) && fs.chains[c][0] == c;
      }
      DirSame(g, d, e, fs, c);
    }
  }

  /** Writing to the clusters of a lost chain only keeps the invariant. */
  lemma LostWritten(g: Geometry, d: Disk, e: Disk, fs: Fs, f: nat)
    requires OnDisk(g, d, fs) && f !in fs.contents && f !in fs.live && Spares(g, d, e, fs, {f})
    ensures OnDisk(g, e, fs)
  {
    SparedTables(g, d, e, fs, {f});
    SparedFiles(g, d, e, fs, {f});
    SparedDirs(g, d, e, fs, {f});
  }

  /** If everything but the clusters of one chain is the same, then all other chains are spared. */
  lemma OnlyChainWritten(g: Geometry, d: Disk, e: Disk, fs: Fs, f: nat)
    requires Layout(g, d) && ChainsOk(g, d, fs) && Apart(fs) && f in fs.chains && Layout(g, e)
    requires SameSectors(d, e, 0, g.DataStart())
    requires forall c :: g.IsData(c) && c !in fs.chains[f] ==> SameCluster(g, d, e, c)
    ensures Spares(g, d, e, fs, {f})
  {
    forall h | h in fs.chains && h != f
      ensures SameChain(g, d, e, fs.chains[h])
    {
      assert Disjoint(fs.chains[h], fs.chains[f]);
    }
  }

  // ----- allocation -----

  /** The chain has been linked in free clusters and nothing else has changed. */
  ghost predicate Allocated(g: Geometry, d: Disk, e: Disk, chain: seq<nat>)
    requires Layout(g, d)
  {
    && Layout(g, e) && Mirrored(g, e) && SameOutsideFat(g, d, e)
    && chain != [] && Ascending(chain) && AllData(g, chain)
    && (forall i :: 0 <= i < |chain| ==> EntryOf(g, d, chain[i]) == 0)
    && Linked(g, e, chain)
    && forall c: nat :: c < g.clusters + 2 && c !in chain ==> EntryOf(g, e, c) == EntryOf(g, d, c)
  }

  /** The chain is allocated, and belongs to nothing yet. */
  ghost function Reserve(fs: Fs, chain: seq<nat>): Fs
    requires chain != []
  {
    fs.(chains := fs.chains[chain[0] := chain], lost := fs.lost + {chain[0]})
  }

  /** Free clusters belong to no chain. */
  lemma FreeIsApart(g: Geometry, d: Disk, e: Disk, fs: Fs, chain: seq<nat>, f: nat)
    requires Layout(g, d) && ChainsOk(g, d, fs) && Allocated(g, d, e, chain) && f in fs.chains
    ensures Disjoint(fs.chains[f], chain) && f != chain[0]
  {
    var other := fs.chains[f];
    assert ChainOk(g, d, f, other);
    forall i, j | 0 <= i < |other| && 0 <= j < |chain|
      ensures other[i] != chain[j]
    {
      assert EntryOf(g, d, other[i]) == Next(other, i) != 0;
    }
  }

  lemma ReserveChains(g: Geometry, d: Disk, e: Disk, fs: Fs, chain: seq<nat>)
    requires Layout(g, d) && ChainsOk(g, d, fs) && Allocated(g, d, e, chain)
    ensures ChainsOk(g, e, Reserve(fs, chain))
  {
    forall f | f in fs.chains
      ensures ChainOk(g, e, f, fs.chains[f])
    {
      FreeIsApart(g, d, e, fs, chain, f);
      ChainSame(g, d, e, chain, f, fs.chains[f]);
    }
  }

  lemma ReserveApart(g: Geometry, d: Disk, e: Disk, fs: Fs, chain: seq<nat>)
    requires Layout(g, d) && ChainsOk(g, d, fs) && Apart(fs) && Allocated(g, d, e, chain)
    ensures Apart(Reserve(fs, chain))
    ensures chain[0] !in fs.chains
  {
    forall f | f in fs.chains
      ensures Disjoint(fs.chains[f], chain) && Disjoint(chain, fs.chains[f]) && f != chain[0]
    {
      FreeIsApart(g, d, e, fs, chain, f);
    }
  }

  lemma ReserveKeys(fs: Fs, chain: seq<nat>)
    requires KeysOk(fs) && chain != [] && chain[0] != 0 && chain[0] !in fs.chains
    ensures KeysOk(Reserve(fs, chain))
  {
  }

  /** What concerns entries only does not depend on the chains. */
  lemma EntriesSame(fs: Fs, after: Fs)
    requires after.live == fs.live && after.contents == fs.contents && after.owner == fs.owner
    requires RefsOk(fs) && AliasesOk(fs)
    ensures RefsOk(after) && AliasesOk(after)
  {
    assert forall f :: f in fs.owner ==> Owned(fs, f) && Owned(after, f);
    assert forall c, i :: c in fs.live && 0 <= i < |fs.live[c]| && IsReal(fs.live[c][i]) ==>
      Refers(fs, c, i) && Refers(after, c, i);
  }

  lemma ChainSame(g: Geometry, d: Disk, e: Disk, chain: seq<nat>, f: nat, other: seq<nat>)
    requires Layout(g, d) && Allocated(g, d, e, chain) && ChainOk(g, d, f, other) && Disjoint(other, chain)
    ensures ChainOk(g, e, f, other)
  {
    forall i | 0 <= i < |other|
      ensures EntryOf(g, e, other[i]) == Next(other, i)
    {
      assert other[i] !in chain;
    }
  }

  lemma ReserveStray(g: Geometry, d: Disk, e: Disk, fs: Fs, chain: seq<nat>)
    requires Layout(g, d) && NoStray(g, d, fs) && Allocated(g, d, e, chain) && chain[0] !in fs.chains
    ensures NoStray(g, e, Reserve(fs, chain))
  {
    var after := Reserve(fs, chain);
    forall c | g.IsData(c) && EntryOf(g, e, c) != 0
      ensures exists f :: f in after.chains && c in after.chains[f]
    {
      if c in chain {
        assert after.chains[chain[0]] == chain;
      } else {
        assert EntryOf(g, d, c) != 0;
        var f :| f in fs.chains && c in fs.chains[f];
        assert after.chains[f] == fs.chains[f];
      }
    }
  }

  /** The root directory and all clusters are the same in both images. */
  ghost predicate SameData(g: Geometry, d: Disk, e: Disk) {
    SameSectors(d, e, g.RootStart(), g.DataStart()) && forall c :: g.IsData(c) ==> SameCluster(g, d, e, c)
  }

  lemma TablesAreNotData(g: Geometry, d: Disk, e: Disk)
    requires Layout(g, d) && Layout(g, e) && SameOutsideFat(g, d, e)
    ensures SameData(g, d, e)
  {
    forall c | g.IsData(c)
      ensures SameCluster(g, d, e, c)
    {
      LbaInside(g, c);
      LaterSectors(d, e, g.RootStart(), g.Lba(c), g.Lba(c) + g.clusterSectors);
    }
  }

  lemma LaterSectors(d: Disk, e: Disk, start: nat, from: nat, to: nat)
    requires SameSectors(d, e, start, |d|) && start <= from
    ensures SameSectors(d, e, from, to)
  {
  }

  lemma ReserveFiles(g: Geometry, d: Disk, e: Disk, fs: Fs, chain: seq<nat>)
    requires Layout(g, d) && Layout(g, e) && SameData(g, d, e) && FilesOk(g, d, fs)
    requires chain != [] && chain[0] !in fs.chains
    ensures FilesOk(g, e, Reserve(fs, chain))
  {
    forall f | f in fs.contents
      ensures FileOk(g, e, fs.chains[f], fs.contents[f])
    {
      FileSame(g, d, e, fs.chains[f], fs.contents[f]);
    }
  }

  lemma ReserveDir(g: Geometry, d: Disk, e: Disk, fs: Fs, chain: seq<nat>, c: nat)
    requires Layout(g, d) && Layout(g, e) && SameData(g, d, e) && c in fs.live && DirOk(g, d, fs, c)
    requires chain != [] && chain[0] !in fs.chains
    ensures DirOk(g, e, Reserve(fs, chain), c)
  {
    DirSame(g, d, e, fs, c);
    assert HasPlace(g, Reserve(fs, chain), c);
  }

  lemma ReserveDirs(g: Geometry, d: Disk, e: Disk, fs: Fs, chain: seq<nat>)
    requires Layout(g, d) && Layout(g, e) && SameData(g, d, e) && DirsOk(g, d, fs)
    requires chain != [] && chain[0] !in fs.chains
    ensures DirsOk(g, e, Reserve(fs, chain))
  {
    forall c | c in fs.live
      ensures DirOk(g, e, Reserve(fs, chain), c)
    {
      assert DirOk(g, d, fs, c);
      ReserveDir(g, d, e, fs, chain, c);
    }
  }

  /** Allocation keeps the invariant; the new chain is not yet part of anything. */
  lemma ReservedOnDisk(g: Geometry, d: Disk, e: Disk, fs: Fs, chain: seq<nat>)
    requires OnDisk(g, d, fs) && Allocated(g, d, e, chain) && chain[0] !in fs.chains
    ensures OnDisk(g, e, Reserve(fs, chain))
  {
    ReserveChains(g, d, e, fs, chain);
    ReserveStray(g, d, e, fs, chain);
    TablesAreNotData(g, d, e);
    ReserveFiles(g, d, e, fs, chain);
    ReserveDirs(g, d, e, fs, chain);
  }

  lemma ReservedSound(g: Geometry, d: Disk, e: Disk, fs: Fs, chain: seq<nat>)
    requires Layout(g, d) && ChainsOk(g, d, fs) && Sound(fs) && Allocated(g, d, e, chain)
    ensures Sound(Reserve(fs, chain)) && chain[0] !in fs.chains
  {
    ReserveApart(g, d, e, fs, chain);
    ReserveKeys(fs, chain);
    EntriesSame(fs, Reserve(fs, chain));
  }
}
