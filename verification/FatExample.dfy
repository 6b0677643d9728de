/** A small blank volume on which a file does not fit the root directory: the failure leaves a lost chain. */
module FatExample {
  import opened Common
  import opened FatLayout
  import opened FatNames
  import opened FatAliases
  import opened FatDirs
  import opened FatState
  import opened FatVolume

  /** One reserved sector, two tables of 16 sectors, a root of 16 entries and 4085 clusters of one sector. */
  predicate IsSmall(g: Geometry) {
    && g.partitionStart == 0 && g.reserved == 1 && g.fatCopies == 2 && g.fatSectors == 16
    && g.rootEntries == 16 && g.clusterSectors == 1 && g.clusters == 4085
  }

  const SMALL_SECTORS: nat := 4119

  function BootByte(i: nat): byte {
    match i
    case 12 => 2
    case 13 => 1
    case 14 => 1
    case 16 => 2
    case 17 => 16
    case 19 => 0x17
    case 20 => 0x10
    case 22 => 16
    case 510 => 0x55
    case 511 => 0xAA
    case _ => 0
  }

  function Boot(): (r: seq<byte>)
    ensures |r| == SECTOR && forall i :: 0 <= i < SECTOR ==> r[i] == BootByte(i)
  {
    seq(SECTOR, i requires 0 <= i => BootByte(i))
  }

  function Blank(): (d: Disk)
    ensures |d| == SMALL_SECTORS && d[0] == Boot() && forall lba :: 1 <= lba < |d| ==> d[lba] == Zeros(SECTOR)
  {
    [Boot()] + seq(SMALL_SECTORS - 1, _ => Zeros(SECTOR))
  }

  lemma SmallIsParsed()
    ensures IsBootSector(Boot()) && Parse(Boot(), 0).Some? && IsSmall(Parse(Boot(), 0).value)
  {
  }

  lemma SmallProducts(g: Geometry)
    requires IsSmall(g)
    ensures g.fatCopies * g.fatSectors == 32 && g.clusters * g.clusterSectors == g.clusters
  {
  }

  lemma SmallRegions(g: Geometry)
    requires IsSmall(g)
    ensures g.FatStart() == 1 && g.RootStart() == 33 && g.RootSectors() == 1 && g.DataStart() == 34 && g.Formatted()
    ensures SMALL_SECTORS - 1 < g.DataStart() + Times(g.clusters, g.clusterSectors) < SMALL_SECTORS + 1
  {
    hide Times;
    hide IsSmall;
    SmallNumbers(g);
    SmallProducts(g);
    TimesIsProduct(g.fatCopies, g.fatSectors);
    TimesIsProduct(g.clusters, g.clusterSectors);
  }

  lemma SmallNumbers(g: Geometry)
    requires IsSmall(g)
    ensures g.partitionStart == 0 && g.reserved == 1 && 1 < g.fatCopies < 3 && 15 < g.fatSectors < 17
    ensures 15 < g.rootEntries < 17 && g.clusterSectors == 1 && 4084 < g.clusters < 4086
  {
  }

  lemma BlankHolds(g: Geometry)
    requires IsSmall(g)
    ensures Layout(g, Blank())
  {
    hide Times;
    hide IsSmall;
    hide Blank;
    hide Boot;
    hide BootByte;
    SmallRegions(g);
  }

  lemma EntryIsZero(g: Geometry, copy: nat, c: nat)
    requires IsSmall(g) && Layout(g, Blank()) && copy < g.fatCopies && g.HasEntry(c)
    ensures FatEntry(g, Blank(), copy, c) == 0
  {
    hide Times;
    hide IsSmall;
    hide Blank;
    hide Boot;
    hide BootByte;
    SmallRegions(g);
    FatInside(g, copy, c);
  }

  lemma BlankTables(g: Geometry)
    requires IsSmall(g)
    ensures Layout(g, Blank()) && Mirrored(g, Blank())
    ensures forall c :: g.IsData(c) ==> EntryOf(g, Blank(), c) == 0
  {
    BlankHolds(g);
    forall copy: nat, c: nat | copy < g.fatCopies && g.HasEntry(c)
      ensures FatEntry(g, Blank(), copy, c) == 0
    {
      EntryIsZero(g, copy, c);
    }
    hide FatEntry;
    hide Blank;
    hide IsSmall;
    forall c | g.IsData(c)
      ensures EntryOf(g, Blank(), c) == 0
    {
      DataHasEntry(g, c);
    }
  }

  lemma BlankRoot(g: Geometry)
    requires IsSmall(g)
    ensures LiveIn(Blank(), RootLbas(g), [])
  {
    hide Times;
    hide IsSmall;
    hide Blank;
    hide Boot;
    hide BootByte;
    SmallRegions(g);
    BlankHolds(g);
    RootLbasOk(g, Blank());
  }

  /** A name of 200 characters needs 16 slots besides its entry. */
  function LongName(): (r: Name)
    ensures |r| == 200
  {
    seq(200, _ => 65)
  }

  ghost predicate IsEmpty(fs: Fs) {
    fs == Fs(map[], map[], map[0 := []], {}, map[])
  }

  lemma AliasIsFree(name: Name, upper: Name -> Name)
    ensures !NoneFree(name, {}, upper)
  {
    hide Candidate;
    hide Clean;
    CandidateIsFree(Clean(Stem(name), upper), Clean(Extension(name), upper), {});
  }

  /** There is room for the payload but not for the entry. */
  lemma EntryDoesNotFit(g: Geometry, fs: Fs, upper: Name -> Name)
    requires IsSmall(g) && IsEmpty(fs)
    ensures Layout(g, Blank()) && SlotsOk(fs)
    ensures var op := PutFile([LongName()], [0]);
      && OutcomeOf(g, Blank(), fs, op, upper) == DirectoryFull
      && |FreeFrom(g, Blank(), 2)| >= Needs(g, op)
  {
    hide Times;
    hide IsSmall;
    hide Blank;
    hide EntryOf;
    hide Candidate;
    hide Clean;
    hide LongName;
    BlankTables(g);
    SmallRegions(g);
    assert EntryOf(g, Blank(), 2) == 0;
    var op := PutFile([LongName()], [0]);
    assert FolderOf(op) == [] && NameIn(op) == LongName();
    AliasIsFree(LongName(), upper);
    assert Capacity(g, 0) == 16;
  }

  lemma StartsEmpty(fs: Fs, mark: seq<Slot>)
    requires mark == [] && fs == Fs(map[], map[], map[0 := mark], {}, map[])
    ensures IsEmpty(fs)
  {
  }

  lemma LateLoses(g: Geometry, d: Disk, before: Fs, e: Disk, after: Fs, op: Operation, upper: Name -> Name,
                  r: Outcome, short: seq<byte>, chain: seq<nat>)
    requires g.Formatted() && Follows(g, d, before, e, after, op, upper, r, short, chain)
    requires r == DirectoryFull && Allocates(op)
    ensures after.lost != {}
  {
    assert chain[0] in after.lost;
  }

  lemma OneByteAllocates(name: Name)
    ensures Allocates(PutFile([name], [0]))
  {
  }

  /** The clusters of the file have been allocated when its entry turns out not to fit. */
  method FailLate(upper: Name -> Name) returns (volume: Volume, r: Outcome)
    ensures IsBootSector(Boot()) && Parse(Boot(), 0) == Some(volume.g)
    ensures volume.Valid() && r == DirectoryFull && volume.fs.lost != {}
  {
    hide *;
    SmallIsParsed();
    var g := Parse(Boot(), 0).value;
    BlankTables(g);
    BlankRoot(g);
    SmallRegions(g);
    volume := new Volume(g, upper, Blank(), []);
    ghost var d, fs := volume.disk, volume.fs;
    StartsEmpty(fs, []);
    EntryDoesNotFit(g, fs, upper);
    var outcome, short, chain := volume.Put([LongName()], [0]);
    r := outcome;
    OneByteAllocates(LongName());
    LateLoses(g, d, fs, volume.disk, volume.fs, PutFile([LongName()], [0]), upper, r, short, chain);
  }
}
