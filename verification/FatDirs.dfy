/** The sectors and slots of a directory, and the effect of the elementary writes on an image. */
module FatDirs {
  import opened Common
  import opened FatLayout
  import opened FatNames

  // ----- one entry of one allocation table -----

  function PutFat(g: Geometry, d: Disk, copy: nat, c: nat, v: nat): Disk
    requires Holds(g, d) && copy < g.fatCopies && g.HasEntry(c) && v < 65536
  {
    FatInside(g, copy, c);
    EntryInSector(c);
    var lba := g.FatLba(copy, c);
    d[lba := PutU16(d[lba], c * 2 % SECTOR, v)]
  }

  lemma PutFatHolds(g: Geometry, d: Disk, copy: nat, c: nat, v: nat)
    requires Holds(g, d) && copy < g.fatCopies && g.HasEntry(c) && v < 65536
    ensures Holds(g, PutFat(g, d, copy, c, v)) && SameOutsideFat(g, d, PutFat(g, d, copy, c, v))
  {
    FatInside(g, copy, c);
  }

  lemma PutFatEntry(g: Geometry, d: Disk, copy: nat, c: nat, v: nat, i: nat, b: nat)
    requires Holds(g, d) && copy < g.fatCopies && g.HasEntry(c) && v < 65536
    requires i < g.fatCopies && g.HasEntry(b)
    ensures Holds(g, PutFat(g, d, copy, c, v))
    ensures FatEntry(g, PutFat(g, d, copy, c, v), i, b) == if i == copy && b == c then v else FatEntry(g, d, i, b)
  {
    PutFatHolds(g, d, copy, c, v);
    FatInside(g, copy, c);
    FatInside(g, i, b);
    if i < copy {
      FatApart(g, i, b, copy, c);
    } else if copy < i {
      FatApart(g, copy, c, i, b);
    }
  }

  // ----- the sectors of a directory -----

  function Lbas(first: nat, n: nat): (r: seq<nat>)
    ensures |r| == n && forall k :: 0 <= k < n ==> r[k] == first + k
  {
    if n == 0 then [] else Lbas(first, n - 1) + [first + n - 1]
  }

  lemma LbasMembers(first: nat, n: nat, lba: nat)
    ensures lba in Lbas(first, n) <==> first <= lba < first + n
  {
    if first <= lba < first + n {
      assert Lbas(first, n)[lba - first] == lba;
    }
  }

  function RootLbas(g: Geometry): seq<nat> {
    Lbas(g.RootStart(), g.RootSectors())
  }

  function ChainLbas(g: Geometry, chain: seq<nat>): seq<nat>
    requires AllData(g, chain)
  {
    if chain == [] then []
    else ChainLbas(g, chain[..|chain| - 1]) + Lbas(g.Lba(chain[|chain| - 1]), g.clusterSectors)
  }

  /** The sector belongs to some cluster of the chain. */
  ghost predicate InChain(g: Geometry, chain: seq<nat>, lba: nat)
    requires AllData(g, chain)
  {
    exists i :: 0 <= i < |chain| && g.Lba(chain[i]) <= lba < g.Lba(chain[i]) + g.clusterSectors
  }

  /** The sectors are different and all lie inside the image. */
  ghost predicate LbasOk(d: Disk, lbas: seq<nat>) {
    Distinct(lbas) && Whole(d) && forall k :: 0 <= k < |lbas| ==> lbas[k] < |d|
  }

  // ----- the slots of a directory -----

  function SlotAt(d: Disk, lbas: seq<nat>, k: nat): (r: Slot)
    requires LbasOk(d, lbas) && k < |lbas| * 16
    ensures |r| == SLOT
  {
    d[lbas[k / 16]][k % 16 * SLOT..k % 16 * SLOT + SLOT]
  }

  function Slots(d: Disk, lbas: seq<nat>): (r: seq<Slot>)
    requires LbasOk(d, lbas)
    ensures |r| == |lbas| * 16 && AreSlots(r)
    ensures forall k :: 0 <= k < |r| ==> r[k] == SlotAt(d, lbas, k)
  {
    seq(|lbas| * 16, k requires 0 <= k < |lbas| * 16 => SlotAt(d, lbas, k))
  }

  lemma SlotsSame(d: Disk, e: Disk, lbas: seq<nat>)
    requires LbasOk(d, lbas) && LbasOk(e, lbas)
    requires forall k :: 0 <= k < |lbas| ==> d[lbas[k]] == e[lbas[k]]
    ensures Slots(d, lbas) == Slots(e, lbas)
  {
    forall k | 0 <= k < |lbas| * 16
      ensures SlotAt(d, lbas, k) == SlotAt(e, lbas, k)
    {
      assert d[lbas[k / 16]] == e[lbas[k / 16]];
    }
  }

  function PutSlot(sector: seq<byte>, i: nat, slot: Slot): (r: seq<byte>)
    requires |sector| == SECTOR && i < 16 && |slot| == SLOT
    ensures |r| == SECTOR
    ensures forall j :: 0 <= j < 16 ==>
      r[j * SLOT..j * SLOT + SLOT] == if j == i then slot else sector[j * SLOT..j * SLOT + SLOT]
  {
    var r := sector[..i * SLOT] + slot + sector[i * SLOT + SLOT..];
    assert forall j :: 0 <= j < i ==> r[j * SLOT..j * SLOT + SLOT] == sector[j * SLOT..j * SLOT + SLOT];
    assert forall j :: i < j < 16 ==> r[j * SLOT..j * SLOT + SLOT] == sector[j * SLOT..j * SLOT + SLOT];
    r
  }

  function WriteSlot(d: Disk, lbas: seq<nat>, k: nat, slot: Slot): Disk
    requires LbasOk(d, lbas) && k < |lbas| * 16 && |slot| == SLOT
  {
    d[lbas[k / 16] := PutSlot(d[lbas[k / 16]], k % 16, slot)]
  }

  /** Writing one slot changes that slot of the directory and no sector outside it. */
  lemma WriteSlotEffect(d: Disk, lbas: seq<nat>, k: nat, slot: Slot)
    requires LbasOk(d, lbas) && k < |lbas| * 16 && |slot| == SLOT
    ensures var e := WriteSlot(d, lbas, k, slot);
      && |e| == |d| && LbasOk(e, lbas)
      && Slots(e, lbas) == Slots(d, lbas)[k := slot]
      && forall lba :: 0 <= lba < |d| && lba !in lbas ==> e[lba] == d[lba]
  {
    var e := WriteSlot(d, lbas, k, slot);
    forall j | 0 <= j < |lbas| * 16
      ensures SlotAt(e, lbas, j) == if j == k then slot else SlotAt(d, lbas, j)
    {
      WriteSlotAt(d, lbas, k, slot, j);
    }
  }

  lemma WriteSlotAt(d: Disk, lbas: seq<nat>, k: nat, slot: Slot, j: nat)
    requires LbasOk(d, lbas) && k < |lbas| * 16 && |slot| == SLOT && j < |lbas| * 16
    ensures LbasOk(WriteSlot(d, lbas, k, slot), lbas)
    ensures SlotAt(WriteSlot(d, lbas, k, slot), lbas, j) == if j == k then slot else SlotAt(d, lbas, j)
  {
    if j / 16 != k / 16 {
      assert lbas[j / 16] != lbas[k / 16];
    }
  }

  // ----- directories do not overlap anything else -----

  lemma {:induction false} ChainLbasMembers(g: Geometry, chain: seq<nat>, lba: nat)
    requires AllData(g, chain)
    ensures lba in ChainLbas(g, chain) <==> InChain(g, chain, lba)
  {
    if chain != [] {
      var init, last := chain[..|chain| - 1], chain[|chain| - 1];
      ChainLbasMembers(g, init, lba);
      LbasMembers(g.Lba(last), g.clusterSectors, lba);
      if InChain(g, init, lba) {
        var i :| 0 <= i < |init| && g.Lba(init[i]) <= lba < g.Lba(init[i]) + g.clusterSectors;
        assert chain[i] == init[i];
      }
      if i :| 0 <= i < |chain| - 1 && g.Lba(chain[i]) <= lba < g.Lba(chain[i]) + g.clusterSectors {
        assert init[i] == chain[i];
      }
    }
  }

  lemma {:induction false} ChainLbasOk(g: Geometry, d: Disk, chain: seq<nat>)
    requires Holds(g, d) && Distinct(chain) && AllData(g, chain)
    ensures LbasOk(d, ChainLbas(g, chain))
  {
    if chain != [] {
      var init, last := chain[..|chain| - 1], chain[|chain| - 1];
      ChainLbasOk(g, d, init);
      LbaInside(g, last);
      var a, b := ChainLbas(g, init), Lbas(g.Lba(last), g.clusterSectors);
      forall k | 0 <= k < |a|
        ensures !(g.Lba(last) <= a[k] < g.Lba(last) + g.clusterSectors)
      {
        ChainLbasMembers(g, init, a[k]);
        var i :| 0 <= i < |init| && g.Lba(init[i]) <= a[k] < g.Lba(init[i]) + g.clusterSectors;
        ClustersApart(g, init[i], last);
      }
    }
  }

  lemma ClustersApart(g: Geometry, b: nat, c: nat)
    requires 2 <= b && 2 <= c && b != c
    ensures g.Lba(b) + g.clusterSectors <= g.Lba(c) || g.Lba(c) + g.clusterSectors <= g.Lba(b)
  {
    if b < c { LbaApart(g, b, c); } else { LbaApart(g, c, b); }
  }

  lemma RootLbasOk(g: Geometry, d: Disk)
    requires Holds(g, d)
    ensures LbasOk(d, RootLbas(g))
    ensures forall lba: nat :: lba in RootLbas(g) <==> g.RootStart() <= lba < g.DataStart()
  {
    forall lba: nat {
      LbasMembers(g.RootStart(), g.RootSectors(), lba);
    }
  }

  lemma SingleChainLbas(g: Geometry, c: nat)
    requires g.IsData(c)
    ensures ChainLbas(g, [c]) == Lbas(g.Lba(c), g.clusterSectors)
  {
    assert [c][..0] == [];
  }

  lemma PieceOfPiece(bytes: seq<byte>, from: nat, to: nat, i: nat, j: nat)
    requires from <= to <= |bytes| && i <= j <= to - from
    ensures bytes[from..to][i..j] == bytes[from + i..from + j]
  {
    var a, b := bytes[from..to][i..j], bytes[from + i..from + j];
    assert |a| == |b| && forall k :: 0 <= k < |a| ==> a[k] == b[k];
  }

  lemma SlotOfSpan(d: Disk, lba: nat, n: nat, k: nat)
    requires lba + n <= |d| && Whole(d) && k < n * 16
    ensures |Span(d, lba, n)| == n * SECTOR
    ensures Span(d, lba, n)[k * SLOT..k * SLOT + SLOT] == d[lba + k / 16][k % 16 * SLOT..k % 16 * SLOT + SLOT]
  {
    var s, i := k / 16, k % 16;
    SpanAt(d, lba, n, s);
    hide Span;
    PieceOfPiece(Span(d, lba, n), s * SECTOR, (s + 1) * SECTOR, i * SLOT, i * SLOT + SLOT);
  }

  /** The slots of a one-cluster directory are consecutive pieces of the bytes of its cluster. */
  lemma SlotsOfCluster(g: Geometry, d: Disk, c: nat, k: nat)
    requires Holds(g, d) && g.IsData(c) && k < g.clusterSectors * 16
    ensures LbasOk(d, ChainLbas(g, [c])) && |ChainLbas(g, [c])| == g.clusterSectors
    ensures |ClusterSpan(g, d, c)| == g.ClusterBytes()
    ensures SlotAt(d, ChainLbas(g, [c]), k) == ClusterSpan(g, d, c)[k * SLOT..k * SLOT + SLOT]
  {
    ChainLbasOk(g, d, [c]);
    LbaInside(g, c);
    SingleChainLbas(g, c);
    SlotOfSpan(d, g.Lba(c), g.clusterSectors, k);
  }
}
