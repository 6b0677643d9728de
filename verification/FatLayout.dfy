/**
 The layout of a FAT16 volume on 512-byte sectors: geometry read from the boot sector, the mirrored
 allocation tables, the sectors of clusters, and the bytes of a chain.
 */
module FatLayout {
  import opened Common
  import opened Bits

  const SECTOR := 512
  const END_OF_CHAIN := 0xFFFF

  /** A disk image, sector by sector. */
  type Disk = seq<seq<byte>>

  // ----- little-endian fields -----

  function U16(b: seq<byte>, at: nat): (r: nat)
    requires at + 2 <= |b|
    ensures r == b[at] as nat + 256 * b[at + 1] as nat
  {
    LittleTwo(b, at);
    Little(b, at, 2)
  }

  function U32(b: seq<byte>, at: nat): (r: nat)
    requires at + 4 <= |b|
    ensures r == b[at] as nat + 256 * b[at + 1] as nat + 65536 * b[at + 2] as nat + 16777216 * b[at + 3] as nat
  {
    LittleFour(b, at);
    Little(b, at, 4)
  }

  function PutU16(b: seq<byte>, at: nat, v: nat): (r: seq<byte>)
    requires at + 2 <= |b| && v < 65536
    ensures |r| == |b| && U16(r, at) == v
    ensures forall i :: 0 <= i < |b| && i != at && i != at + 1 ==> r[i] == b[i]
  {
    b[at := v % 256][at + 1 := v / 256]
  }

  // ----- geometry -----

  /** a * b as repeated addition: sector addresses are compared far more often than computed. */
  function Times(a: nat, b: nat): nat {
    if a == 0 then 0 else Times(a - 1, b) + b
  }

  lemma {:induction false} TimesIsProduct(a: nat, b: nat)
    ensures Times(a, b) == a * b
  {
    if a > 0 {
      TimesIsProduct(a - 1, b);
    }
  }

  lemma {:induction false} TimesGrows(a: nat, b: nat, n: nat)
    requires a < b
    ensures Times(a, n) + n <= Times(b, n)
  {
    if a + 1 < b {
      TimesGrows(a, b - 1, n);
    }
  }

  datatype Geometry = Geometry(
    partitionStart: nat, reserved: nat, fatCopies: nat, fatSectors: nat,
    rootEntries: nat, clusterSectors: nat, clusters: nat)
  {
    function FatStart(): nat { partitionStart + reserved }
    function RootStart(): nat { FatStart() + Times(fatCopies, fatSectors) }
    function RootSectors(): nat { (rootEntries * 32 + SECTOR - 1) / SECTOR }
    function DataStart(): nat { RootStart() + RootSectors() }
    function ClusterBytes(): nat { clusterSectors * SECTOR }

    function Lba(cluster: nat): nat
      requires cluster >= 2
    {
      DataStart() + Times(cluster - 2, clusterSectors)
    }

    function FatLba(copy: nat, cluster: nat): nat {
      FatStart() + Times(copy, fatSectors) + cluster * 2 / SECTOR
    }

    /** The cluster numbers of the data area. */
    predicate IsData(cluster: nat) {
      2 <= cluster < clusters + 2
    }

    /** The cluster numbers for which an allocation table has an entry. */
    predicate HasEntry(cluster: nat) {
      cluster * 2 / SECTOR < fatSectors
    }

    /** What a formatted volume guarantees beyond what the boot sector parser checks. */
    ghost predicate Formatted() {
      && fatCopies >= 1 && 1 <= clusterSectors <= 128 && rootEntries >= 1
      && 4085 <= clusters <= 65524
      && (clusters + 2) * 2 <= fatSectors * SECTOR
    }
  }

  predicate IsBootSector(boot: seq<byte>)
    requires |boot| == SECTOR
  {
    && boot[510] == 0x55 && boot[511] == 0xAA
    && U16(boot, 11) == SECTOR
    && boot[13] in {1, 2, 4, 8, 16, 32, 64, 128}
    && U16(boot, 22) != 0
    && U16(boot, 17) != 0
  }

  /** The geometry in a boot sector, unless its cluster count is not that of a FAT16 volume. */
  function Parse(boot: seq<byte>, partitionStart: nat): Option<Geometry>
    requires |boot| == SECTOR && IsBootSector(boot)
  {
    var perCluster, reserved, copies, rootEntries, fatSectors :=
      boot[13], U16(boot, 14), boot[16], U16(boot, 17), U16(boot, 22);
    var total := if U16(boot, 19) != 0 then U16(boot, 19) else U32(boot, 32);
    var rootSectors := (rootEntries * 32 + SECTOR - 1) / SECTOR;
    var clusters := (total - (reserved + copies * fatSectors + rootSectors)) / perCluster;
    if 4085 <= clusters <= 65524 then
      Some(Geometry(partitionStart, reserved, copies, fatSectors, rootEntries, perCluster, clusters))
    else None
  }

  /** The number of sectors the boot sector declares. */
  function TotalSectors(boot: seq<byte>): nat
    requires |boot| == SECTOR
  {
    if U16(boot, 19) != 0 then U16(boot, 19) else U32(boot, 32)
  }

  /**
   An accepted boot sector describes a data area inside the declared volume, behind the tables and
   the root directory, and no cluster number reaches the range of end marks.
   */
  lemma ParsedGeometry(boot: seq<byte>, partitionStart: nat)
    requires |boot| == SECTOR && IsBootSector(boot) && Parse(boot, partitionStart).Some?
    ensures var g := Parse(boot, partitionStart).value;
      && g.DataStart() + g.clusters * g.clusterSectors <= partitionStart + TotalSectors(boot)
      && 1 <= g.clusterSectors <= 128 && g.rootEntries >= 1
      && forall c :: g.IsData(c) ==> c < 0xFFF8
  {
    var g := Parse(boot, partitionStart).value;
    var free := TotalSectors(boot) - (g.reserved + g.fatCopies * g.fatSectors + g.RootSectors());
    QuotientFits(free, g.clusterSectors);
    TimesIsProduct(g.fatCopies, g.fatSectors);
  }

  lemma QuotientFits(n: int, d: int)
    requires d > 0
    ensures n / d * d <= n
  {
  }

  /** Where the specification puts the fields of a boot sector, and how many clusters follow from them. */
  lemma ParsedFields(boot: seq<byte>, partitionStart: nat)
    requires |boot| == SECTOR && IsBootSector(boot) && Parse(boot, partitionStart).Some?
    ensures var g := Parse(boot, partitionStart).value;
      && g.partitionStart == partitionStart && g.clusterSectors == boot[13] as int
      && g.reserved == boot[14] as int + 256 * boot[15] as int && g.fatCopies == boot[16] as int
      && g.rootEntries == boot[17] as int + 256 * boot[18] as int
      && g.fatSectors == boot[22] as int + 256 * boot[23] as int
      && 4085 <= g.clusters <= 65524
      && var short := boot[19] as int + 256 * boot[20] as int;
         var long := boot[32] as int + 256 * boot[33] as int + 65536 * boot[34] as int + 16777216 * boot[35] as int;
         var free := (if short != 0 then short else long) - (g.DataStart() - partitionStart);
         g.clusters * g.clusterSectors <= free < (g.clusters + 1) * g.clusterSectors
  {
    var g := Parse(boot, partitionStart).value;
    TimesIsProduct(g.fatCopies, g.fatSectors);
    var free := TotalSectors(boot) - (g.reserved + g.fatCopies * g.fatSectors + g.RootSectors());
    QuotientIs(free, g.clusterSectors);
  }

  lemma QuotientIs(n: int, d: int)
    requires d > 0
    ensures n / d * d <= n < (n / d + 1) * d
  {
  }

  /** Where the regions are, in sectors: reserved sectors, tables, root directory, clusters. */
  lemma RegionsAre(g: Geometry, copy: nat, c: nat)
    requires c >= 2
    ensures g.FatLba(copy, c) == g.partitionStart + g.reserved + copy * g.fatSectors + c / 256
    ensures g.RootStart() == g.partitionStart + g.reserved + g.fatCopies * g.fatSectors
    ensures 512 * g.RootSectors() - 512 < 32 * g.rootEntries <= 512 * g.RootSectors()
    ensures g.Lba(c) == g.RootStart() + g.RootSectors() + (c - 2) * g.clusterSectors
    ensures g.ClusterBytes() == 512 * g.clusterSectors
  {
    TimesIsProduct(copy, g.fatSectors);
    TimesIsProduct(g.fatCopies, g.fatSectors);
    TimesIsProduct(c - 2, g.clusterSectors);
  }

  // ----- no two regions overlap -----

  lemma MulMono(a: nat, b: nat, n: nat)
    requires a < b
    ensures a * n + n <= b * n
  {
    assert b * n == (a + 1) * n + (b - a - 1) * n;
  }

  lemma LbaInside(g: Geometry, c: nat)
    requires g.IsData(c)
    ensures g.DataStart() <= g.Lba(c)
      && g.Lba(c) + g.clusterSectors <= g.DataStart() + Times(g.clusters, g.clusterSectors)
  {
    TimesGrows(c - 2, g.clusters, g.clusterSectors);
  }

  lemma LbaApart(g: Geometry, b: nat, c: nat)
    requires 2 <= b < c
    ensures g.Lba(b) + g.clusterSectors <= g.Lba(c)
  {
    TimesGrows(b - 2, c - 2, g.clusterSectors);
  }

  lemma FatInside(g: Geometry, copy: nat, c: nat)
    requires copy < g.fatCopies && g.HasEntry(c)
    ensures g.FatStart() <= g.FatLba(copy, c) < g.RootStart()
  {
    TimesGrows(copy, g.fatCopies, g.fatSectors);
  }

  lemma FirstTable(g: Geometry, c: nat)
    ensures g.FatLba(0, c) == g.FatStart() + c * 2 / SECTOR
  {
  }

  lemma FatApart(g: Geometry, i: nat, b: nat, j: nat, c: nat)
    requires i < j && g.HasEntry(b) && g.HasEntry(c)
    ensures g.FatLba(i, b) < g.FatLba(j, c)
  {
    TimesGrows(i, j, g.fatSectors);
  }

  lemma DataHasEntry(g: Geometry, c: nat)
    requires g.Formatted() && c < g.clusters + 2
    ensures g.HasEntry(c)
  {
  }

  // ----- sectors -----

  ghost predicate Whole(d: Disk) {
    forall lba :: 0 <= lba < |d| ==> |d[lba]| == SECTOR
  }

  /** The image holds the whole volume. */
  ghost predicate Holds(g: Geometry, d: Disk) {
    g.DataStart() + Times(g.clusters, g.clusterSectors) <= |d| && Whole(d)
  }

  /** The two images agree on a range of sectors. */
  ghost predicate SameSectors(d: Disk, e: Disk, from: nat, to: nat) {
    |d| == |e| && forall lba :: from <= lba < to && lba < |d| ==> d[lba] == e[lba]
  }

  ghost predicate SameCluster(g: Geometry, d: Disk, e: Disk, c: nat)
    requires c >= 2
  {
    SameSectors(d, e, g.Lba(c), g.Lba(c) + g.clusterSectors)
  }

  // ----- finding the volume -----

  datatype OpenError = ShortRead | NotBootable | NoPartition | NotFatPartition | NotFat16

  predicate IsSigned(sector: seq<byte>)
    requires |sector| == SECTOR
  {
    sector[510] == 0x55 && sector[511] == 0xAA
  }

  /** Entry k of the partition table is one of a FAT16 volume. */
  predicate IsFat16Entry(table: seq<byte>, k: nat)
    requires |table| == SECTOR && k < 4
  {
    table[446 + 16 * k + 4] in {0x04, 0x06, 0x0E} && U32(table, 446 + 16 * k + 8) != 0
  }

  /** Entry k is the first one of a FAT16 volume, which starts there. */
  ghost predicate IsFirstPartition(table: seq<byte>, k: nat, start: nat)
    requires |table| == SECTOR
  {
    && k < 4 && IsFat16Entry(table, k) && start == U32(table, 446 + 16 * k + 8)
    && forall j :: 0 <= j < k ==> !IsFat16Entry(table, j)
  }

  /** What makes a boot sector: the mark at its end, 512-byte sectors, a power of two of them in a cluster. */
  lemma BootSectorIs(boot: seq<byte>)
    requires |boot| == SECTOR
    ensures IsBootSector(boot) <==>
      && boot[510] == 0x55 && boot[511] == 0xAA && boot[11] == 0 && boot[12] == 2
      && (exists n: nat :: n < 8 && boot[13] as int == Pow2(n))
      && (boot[17] != 0 || boot[18] != 0) && (boot[22] != 0 || boot[23] != 0)
  {
    PowersOfTwo(boot[13]);
  }

  lemma PowersOfTwo(b: byte)
    ensures b in {1, 2, 4, 8, 16, 32, 64, 128} <==> exists n: nat :: n < 8 && b as int == Pow2(n)
  {
    assert Pow2(0) == 1 && Pow2(1) == 2 && Pow2(2) == 4 && Pow2(3) == 8;
    assert Pow2(4) == 16 && Pow2(5) == 32 && Pow2(6) == 64 && Pow2(7) == 128;
  }

  /**
   The four entries of a partition table are 16 bytes each, from byte 446 on: the kind is in the fifth
   byte, the start in the last but one of the four words.
   */
  lemma PartitionEntryIs(table: seq<byte>, k: nat)
    requires |table| == SECTOR && k < 4
    ensures IsSigned(table) <==> table[510] == 0x55 && table[511] == 0xAA
    ensures var entry := table[446 + 16 * k..462 + 16 * k];
      var start := entry[8] as int + 256 * entry[9] as int + 65536 * entry[10] as int + 16777216 * entry[11] as int;
      && (IsFat16Entry(table, k) <==> entry[4] in {0x04, 0x06, 0x0E} && start != 0)
      && (IsFirstPartition(table, k, start) <==>
            IsFat16Entry(table, k) && forall j :: 0 <= j < k ==> !IsFat16Entry(table, j))
  {
  }

  method FindPartition(table: seq<byte>) returns (start: Option<nat>)
    requires |table| == SECTOR
    ensures match start
            case None => forall k :: 0 <= k < 4 ==> !IsFat16Entry(table, k)
            case Some(at) => exists k :: IsFirstPartition(table, k, at)
  {
    for k := 0 to 4
      invariant forall j :: 0 <= j < k ==> !IsFat16Entry(table, j)
    {
      if IsFat16Entry(table, k) {
        assert IsFirstPartition(table, k, U32(table, 446 + 16 * k + 8));
        return Some(U32(table, 446 + 16 * k + 8));
      }
    }
    return None;
  }

  /** Where the volume starts: at sector 0 if that is its boot sector, else where the partition table says. */
  ghost predicate StartsAt(d: Disk, start: nat)
    requires Whole(d)
  {
    && d != []
    && if IsBootSector(d[0]) then start == 0
       else IsSigned(d[0]) && exists k :: IsFirstPartition(d[0], k, start)
  }

  /** There is a boot sector, but its count of clusters is not that of a FAT16 volume. */
  ghost predicate HasOtherCount(d: Disk, start: nat)
    requires Whole(d)
  {
    start < |d| && IsBootSector(d[start]) && Parse(d[start], start) == None
  }

  /** A volume is opened exactly if it starts somewhere inside the image with an acceptable boot sector. */
  method Open(d: Disk) returns (r: Result<Geometry, OpenError>)
    requires Whole(d)
    ensures match r
            case Success(g) =>
              && StartsAt(d, g.partitionStart) && g.partitionStart < |d|
              && IsBootSector(d[g.partitionStart]) && Parse(d[g.partitionStart], g.partitionStart) == Some(g)
            case Failure(NotBootable) => d != [] && !IsSigned(d[0])
            case Failure(NoPartition) =>
              d != [] && !IsBootSector(d[0]) && forall k :: 0 <= k < 4 ==> !IsFat16Entry(d[0], k)
            case Failure(ShortRead) => d == [] || exists start: nat :: StartsAt(d, start) && start >= |d|
            case Failure(NotFatPartition) =>
              exists start: nat :: StartsAt(d, start) && start < |d| && !IsBootSector(d[start])
            case Failure(NotFat16) => exists start: nat :: StartsAt(d, start) && HasOtherCount(d, start)
  {
    if d == [] {
      return Failure(ShortRead);
    }
    var start := 0;
    if !IsBootSector(d[0]) {
      if !IsSigned(d[0]) {
        return Failure(NotBootable);
      }
      var found := FindPartition(d[0]);
      if found.None? {
        return Failure(NoPartition);
      }
      start := found.value;
    }
    assert StartsAt(d, start);
    if start >= |d| {
      return Failure(ShortRead);
    } else if !IsBootSector(d[start]) {
      return Failure(NotFatPartition);
    }
    var g := Parse(d[start], start);
    return if g.None? then Failure(NotFat16) else Success(g.value);
  }

  /** A volume starts at one place at most, so each outcome excludes the others. */
  lemma OneStart(d: Disk, a: nat, b: nat)
    requires Whole(d) && StartsAt(d, a) && StartsAt(d, b)
    ensures a == b
  {
    if !IsBootSector(d[0]) {
      var i :| IsFirstPartition(d[0], i, a);
      var j :| IsFirstPartition(d[0], j, b);
    }
  }

  // ----- the allocation tables -----

  /** A table entry never crosses the end of a sector. */
  lemma EntryInSector(c: nat)
    ensures c * 2 % SECTOR + 2 <= SECTOR
  {
  }

  function FatEntry(g: Geometry, d: Disk, copy: nat, c: nat): nat
    requires Holds(g, d) && copy < g.fatCopies && g.HasEntry(c)
  {
    FatInside(g, copy, c);
    EntryInSector(c);
    U16(d[g.FatLba(copy, c)], c * 2 % SECTOR)
  }

  /** An entry has two bytes, low byte first, and there are 256 of them in a sector. */
  lemma FatEntryBytes(g: Geometry, d: Disk, copy: nat, c: nat)
    requires Holds(g, d) && copy < g.fatCopies && g.HasEntry(c)
    ensures g.FatLba(copy, c) < |d| && |d[g.FatLba(copy, c)]| == 512
    ensures var sector, at := d[g.FatLba(copy, c)], 2 * (c % 256);
      FatEntry(g, d, copy, c) == sector[at] as int + 256 * sector[at + 1] as int
  {
    FatInside(g, copy, c);
    EntryInSector(c);
    EntryPlace(c);
    assert |d[g.FatLba(copy, c)]| == SECTOR;
    hide Geometry.FatLba;
    hide Holds;
  }

  lemma EntryPlace(c: nat)
    ensures c * 2 % SECTOR == 2 * (c % 256)
  {
  }

  /** All copies of the table are the same. */
  ghost predicate Mirrored(g: Geometry, d: Disk)
    requires Holds(g, d) && g.fatCopies >= 1
  {
    forall copy, c :: 0 <= copy < g.fatCopies && 0 <= c && g.HasEntry(c) ==>
      FatEntry(g, d, copy, c) == FatEntry(g, d, 0, c)
  }

  /** Entry c of every copy is v and all other entries are as they were. */
  ghost predicate FatUpdated(g: Geometry, d: Disk, e: Disk, c: nat, v: nat)
    requires Holds(g, d) && Holds(g, e)
  {
    forall copy, b :: 0 <= copy < g.fatCopies && 0 <= b && g.HasEntry(b) ==>
      FatEntry(g, e, copy, b) == if b == c then v else FatEntry(g, d, copy, b)
  }

  /** Everything but the tables is the same. */
  ghost predicate SameOutsideFat(g: Geometry, d: Disk, e: Disk) {
    SameSectors(d, e, 0, g.FatStart()) && SameSectors(d, e, g.RootStart(), |d|)
  }

  // ----- the bytes of a chain -----

  /** The bytes of n consecutive sectors. */
  function Span(d: Disk, lba: nat, n: nat): seq<byte>
    requires lba + n <= |d|
  {
    if n == 0 then [] else Span(d, lba, n - 1) + d[lba + n - 1]
  }

  lemma {:induction false} SpanLength(d: Disk, lba: nat, n: nat)
    requires lba + n <= |d| && Whole(d)
    ensures |Span(d, lba, n)| == n * SECTOR
  {
    if n > 0 {
      SpanLength(d, lba, n - 1);
    }
  }

  lemma {:induction false} SpanAt(d: Disk, lba: nat, n: nat, s: nat)
    requires lba + n <= |d| && Whole(d) && s < n
    ensures |Span(d, lba, n)| == n * SECTOR
    ensures Span(d, lba, n)[s * SECTOR..(s + 1) * SECTOR] == d[lba + s]
  {
    SpanLength(d, lba, n);
    SpanLength(d, lba, n - 1);
    if s < n - 1 {
      SpanAt(d, lba, n - 1, s);
    }
  }

  lemma {:induction false} SpanSame(d: Disk, e: Disk, lba: nat, n: nat)
    requires lba + n <= |d| && SameSectors(d, e, lba, lba + n)
    ensures Span(d, lba, n) == Span(e, lba, n)
  {
    if n > 0 {
      SpanSame(d, e, lba, n - 1);
    }
  }

  function ClusterSpan(g: Geometry, d: Disk, c: nat): seq<byte>
    requires Holds(g, d) && g.IsData(c)
  {
    LbaInside(g, c);
    Span(d, g.Lba(c), g.clusterSectors)
  }

  /** Byte p of a cluster is byte p mod 512 of its sector p / 512. */
  lemma ClusterByte(g: Geometry, d: Disk, c: nat, p: nat)
    requires Holds(g, d) && g.IsData(c) && p < 512 * g.clusterSectors
    ensures |ClusterSpan(g, d, c)| == 512 * g.clusterSectors && g.Lba(c) + p / 512 < |d|
    ensures ClusterSpan(g, d, c)[p] == d[g.Lba(c) + p / 512][p % 512]
  {
    var lba, s := g.Lba(c), p / 512;
    LbaInside(g, c);
    SpanAt(d, lba, g.clusterSectors, s);
    var span := Span(d, lba, g.clusterSectors);
    assert span[s * SECTOR..(s + 1) * SECTOR][p % 512] == span[p];
  }

  ghost predicate AllData(g: Geometry, chain: seq<nat>) {
    forall i :: 0 <= i < |chain| ==> g.IsData(chain[i])
  }

  /** The bytes of the clusters of a chain, in order. */
  function ChainBytes(g: Geometry, d: Disk, chain: seq<nat>): seq<byte>
    requires Holds(g, d) && AllData(g, chain)
  {
    if chain == [] then []
    else ChainBytes(g, d, chain[..|chain| - 1]) + ClusterSpan(g, d, chain[|chain| - 1])
  }

  lemma {:induction false} ChainBytesSame(g: Geometry, d: Disk, e: Disk, chain: seq<nat>)
    requires Holds(g, d) && Holds(g, e) && AllData(g, chain)
    requires forall i :: 0 <= i < |chain| ==> SameCluster(g, d, e, chain[i])
    ensures ChainBytes(g, d, chain) == ChainBytes(g, e, chain)
  {
    if chain != [] {
      var last := chain[|chain| - 1];
      ChainBytesSame(g, d, e, chain[..|chain| - 1]);
      LbaInside(g, last);
      SpanSame(d, e, g.Lba(last), g.clusterSectors);
    }
  }

  lemma {:induction false} ChainLength(g: Geometry, d: Disk, chain: seq<nat>)
    requires Holds(g, d) && AllData(g, chain)
    ensures |ChainBytes(g, d, chain)| == |chain| * g.ClusterBytes()
    decreases |chain|
  {
    if chain != [] {
      var last := chain[|chain| - 1];
      ChainLength(g, d, chain[..|chain| - 1]);
      LbaInside(g, last);
      SpanLength(d, g.Lba(last), g.clusterSectors);
      OneMoreTimes(|chain| - 1, g.ClusterBytes());
    }
  }

  lemma OneMoreTimes(n: nat, b: nat)
    ensures (n + 1) * b == n * b + b
  {
  }

  /** The clusters of a chain follow one another: byte k * b + p of b-byte clusters is byte p of cluster k. */
  lemma {:induction false} ChainByte(g: Geometry, d: Disk, chain: seq<nat>, k: nat, p: nat)
    requires Holds(g, d) && AllData(g, chain) && k < |chain| && p < g.ClusterBytes()
    ensures k * g.ClusterBytes() + p < |ChainBytes(g, d, chain)|
    ensures |ClusterSpan(g, d, chain[k])| == g.ClusterBytes()
    ensures ChainBytes(g, d, chain)[k * g.ClusterBytes() + p] == ClusterSpan(g, d, chain[k])[p]
    decreases |chain|
  {
    hide ClusterSpan;
    var before, last := chain[..|chain| - 1], chain[|chain| - 1];
    ChainLength(g, d, before);
    ClusterByte(g, d, chain[k], p);
    ClusterByte(g, d, last, p);
    if k < |before| {
      ChainByte(g, d, before, k, p);
    }
  }
}
