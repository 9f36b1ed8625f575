// What the bytes of a formatted volume mean: a table with one value per slot
// and an array of 512-byte clusters. Cluster number n uses slot n - 2 of both.
module Disks {
  import opened Bytes
  import Geometry

  const END: nat := 0xFFFF

  datatype Disk = Disk(fat: seq<nat>, data: seq<seq<Byte>>)

  ghost predicate WfDisk(d: Disk) {
    && |d.data| + 3 < |d.fat| && |d.fat| % 256 == 0 && |d.fat| + 2 < END
    && (forall s :: 0 <= s < |d.fat| ==> d.fat[s] <= END)
    && (forall k :: 0 <= k < |d.data| ==> |d.data[k]| == 512)
  }

  predicate InTable(d: Disk, x: nat) {
    2 <= x < |d.fat| + 2
  }

  predicate InVolume(d: Disk, x: nat) {
    2 <= x < |d.data| + 2
  }

  function Next(d: Disk, x: nat): nat
    requires InTable(d, x)
  {
    d.fat[x - 2]
  }

  function Cluster(d: Disk, x: nat): seq<Byte>
    requires InVolume(d, x)
  {
    d.data[x - 2]
  }

  lemma ClusterSize(d: Disk, x: nat)
    requires WfDisk(d) && InVolume(d, x)
    ensures |Cluster(d, x)| == 512
  {
  }

  function SetNext(d: Disk, x: nat, value: nat): Disk
    requires InTable(d, x)
  {
    d.(fat := d.fat[x - 2 := value])
  }

  ghost predicate Patchable(d: Disk, x: nat, at: nat, bs: seq<Byte>) {
    WfDisk(d) && InVolume(d, x) && at + |bs| <= 512
  }

  function Patch(d: Disk, x: nat, at: nat, bs: seq<Byte>): Disk
    requires Patchable(d, x, at, bs)
  {
    d.(data := d.data[x - 2 := Splice(d.data[x - 2], at, bs)])
  }

  /** Append the free cluster k after the cluster last. */
  function Grow(d: Disk, last: nat, k: nat): Disk
    requires InTable(d, last) && InTable(d, k)
  {
    SetNext(SetNext(d, last, k), k, END)
  }

  /** What chain[i] must hold in the table. */
  function NextIn(chain: seq<nat>, i: nat): nat
    requires i < |chain|
  {
    if i + 1 < |chain| then chain[i + 1] else END
  }

  /** chain is the cluster chain that starts at its first element. */
  ghost predicate Linked(d: Disk, chain: seq<nat>) {
    && |chain| >= 1 && |d.data| <= |d.fat|
    && (forall i :: 0 <= i < |chain| ==> InVolume(d, chain[i]))
    && (forall i {:trigger Next(d, chain[i])} :: 0 <= i < |chain| ==> Next(d, chain[i]) == NextIn(chain, i))
  }

  lemma LinkedIsNonZero(d: Disk, chain: seq<nat>, i: nat)
    requires Linked(d, chain) && i < |chain|
    ensures Next(d, chain[i]) != 0
  {
    assert Next(d, chain[i]) == NextIn(chain, i);
    assert i + 1 < |chain| ==> InVolume(d, chain[i + 1]);
  }

  // ----- the byte layer

  predicate GoodCount(c: nat) {
    256 <= c < 32768
  }

  function Slots(c: nat): nat {
    512 * (c / 256)
  }

  function DataStart(c: nat): nat {
    512 + 1024 * (c / 256)
  }

  function DataCount(c: nat): nat
    requires GoodCount(c)
    ensures DataCount(c) + 3 < Slots(c)
    ensures DataStart(c) + 512 * DataCount(c) == 512 * c
  {
    c - 1 - 2 * (c / 256)
  }

  /** The byte view agrees with the header's macros. */
  lemma AgreesWithHeader(c: nat, wide: nat, n: nat)
    requires GoodCount(c) && n >= 2
    ensures DataCount(c) == Geometry.DataClusters(c, wide)
    ensures DataStart(c) + 512 * (n - 2) == Geometry.ClusterAddress(c, wide, n)
    ensures 512 + 2 * (n - 2) == Geometry.EntryAddress(c, wide, n)
  {
    Geometry.ClosedForm(c, wide);
  }

  function FatValue(bytes: seq<Byte>, s: nat): nat
    requires 512 + 2 * s + 2 <= |bytes|
  {
    FromLe(bytes[512 + 2 * s..514 + 2 * s])
  }

  function ClusterBytes(bytes: seq<Byte>, c: nat, k: nat): seq<Byte>
    requires DataStart(c) + 512 * k + 512 <= |bytes|
  {
    bytes[DataStart(c) + 512 * k..DataStart(c) + 512 * k + 512]
  }

  function DiskOf(bytes: seq<Byte>, c: nat): (d: Disk)
    requires GoodCount(c) && 512 * c <= |bytes|
    ensures |d.fat| == Slots(c) && |d.data| == DataCount(c)
  {
    Disk(seq(Slots(c), s requires 0 <= s < Slots(c) => FatValue(bytes, s)),
         seq(DataCount(c), k requires 0 <= k < DataCount(c) => ClusterBytes(bytes, c, k)))
  }

  lemma DiskOfWf(bytes: seq<Byte>, c: nat)
    requires GoodCount(c) && 512 * c <= |bytes|
    ensures WfDisk(DiskOf(bytes, c))
  {
    forall s | 0 <= s < Slots(c) ensures FatValue(bytes, s) <= END {
      LeOfFromLe(bytes[512 + 2 * s..514 + 2 * s]);
      Pow256Values();
    }
  }

  /** Writing the two bytes of one entry changes that entry and nothing else. */
  lemma SpliceEntry(bytes: seq<Byte>, c: nat, x: nat, value: nat)
    requires GoodCount(c) && 512 * c <= |bytes| && value <= END
    requires InTable(DiskOf(bytes, c), x)
    ensures DiskOf(Splice(bytes, 512 + 2 * (x - 2), Le(value, 2)), c) == SetNext(DiskOf(bytes, c), x, value)
    ensures Splice(bytes, 512 + 2 * (x - 2), Le(value, 2))[..512] == bytes[..512]
  {
    var d, bytes' := DiskOf(bytes, c), Splice(bytes, 512 + 2 * (x - 2), Le(value, 2));
    var d' := DiskOf(bytes', c);
    forall s | 0 <= s < Slots(c) ensures d'.fat[s] == SetNext(d, x, value).fat[s] {
      if s == x - 2 {
        assert bytes'[512 + 2 * s..514 + 2 * s] == Le(value, 2);
        Pow256Values();
        FromLeOfLe(value, 2);
      } else {
        assert bytes'[512 + 2 * s..514 + 2 * s] == bytes[512 + 2 * s..514 + 2 * s];
      }
    }
    assert d'.fat == SetNext(d, x, value).fat;
    forall k | 0 <= k < DataCount(c) ensures d'.data[k] == d.data[k] {
      assert ClusterBytes(bytes', c, k) == ClusterBytes(bytes, c, k);
    }
    assert d'.data == d.data;
  }

  /** Writing inside one cluster changes no table entry and no other cluster. */
  lemma SpliceCluster(bytes: seq<Byte>, c: nat, x: nat, at: nat, bs: seq<Byte>)
    requires GoodCount(c) && 512 * c <= |bytes|
    requires InVolume(DiskOf(bytes, c), x) && at + |bs| <= 512
    ensures WfDisk(DiskOf(bytes, c))
    ensures DataStart(c) + 512 * (x - 2) + 512 <= |bytes|
    ensures DiskOf(Splice(bytes, DataStart(c) + 512 * (x - 2) + at, bs), c) == Patch(DiskOf(bytes, c), x, at, bs)
    ensures Splice(bytes, DataStart(c) + 512 * (x - 2) + at, bs)[..512] == bytes[..512]
  {
    DiskOfWf(bytes, c);
    var d, bytes' := DiskOf(bytes, c), Splice(bytes, DataStart(c) + 512 * (x - 2) + at, bs);
    var d' := DiskOf(bytes', c);
    forall s | 0 <= s < Slots(c) ensures d'.fat[s] == d.fat[s] {
      assert bytes'[512 + 2 * s..514 + 2 * s] == bytes[512 + 2 * s..514 + 2 * s];
    }
    assert d'.fat == d.fat;
    forall k | 0 <= k < DataCount(c) ensures d'.data[k] == Patch(d, x, at, bs).data[k] {
      if k != x - 2 {
        assert ClusterBytes(bytes', c, k) == ClusterBytes(bytes, c, k);
      }
    }
  }
}
