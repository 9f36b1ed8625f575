// The arithmetic of progs/mkfs.h: how a volume of c sectors is cut into the
// superblock, the allocation table and the data clusters. A sector and a
// cluster are both 512 bytes.
module Geometry {
  /** Bytes per allocation-table entry. From 65536 clusters on the constants of
      the source no longer fit in an int; `wide` stands for whatever width the
      compiler then selects (0, 4, 8 or 16). */
  function FatIndexSize(c: nat, wide: nat): nat {
    if c < 256 then 1 else if c < 65536 then 2 else wide
  }

  /** The 16-bit cast applies to the product, before the division. */
  function SectorsOfFat(c: nat, wide: nat): nat {
    c * FatIndexSize(c, wide) % 0x1_0000 / 512
  }

  /** First sector of the data clusters: one superblock sector, two tables. */
  function DataSector(c: nat, wide: nat): nat {
    1 + 2 * SectorsOfFat(c, wide)
  }

  /** Data clusters that fit between DataSector and the end of the volume. */
  function DataClusters(c: nat, wide: nat): int {
    c - DataSector(c, wide)
  }

  /** Clusters of cluster number n start at this byte. */
  function ClusterAddress(c: nat, wide: nat, n: nat): int {
    DataSector(c, wide) * 512 + (n - 2) * 512
  }

  /** Table entry of cluster number n, two bytes long as every write makes it. */
  function EntryAddress(c: nat, wide: nat, n: nat): int {
    512 + FatIndexSize(c, wide) * (n - 2)
  }

  predicate DataCluster(c: nat, wide: nat, n: int) {
    2 <= n < DataClusters(c, wide) + 2
  }

  /** The two bytes written for cluster n lie inside the table region. */
  predicate EntryInTable(c: nat, wide: nat, n: nat) {
    512 <= EntryAddress(c, wide, n) && EntryAddress(c, wide, n) + 2 <= DataSector(c, wide) * 512
  }

  /** Writing the entry of one cluster touches no byte of the entry of another. */
  predicate EntriesApart(c: nat, wide: nat, m: nat, n: nat) {
    EntryAddress(c, wide, m) + 2 <= EntryAddress(c, wide, n) || EntryAddress(c, wide, n) + 2 <= EntryAddress(c, wide, m)
  }

  /** The volume has data clusters, each with its own entry inside the table. */
  ghost predicate Sound(c: nat, wide: nat) {
    && DataClusters(c, wide) >= 2
    && (forall n :: DataCluster(c, wide, n) ==> EntryInTable(c, wide, n))
    && (forall m, n :: DataCluster(c, wide, m) && DataCluster(c, wide, n) && m != n ==> EntriesApart(c, wide, m, n))
  }

  lemma CastWraps(c: nat, w: nat)
    ensures c * w % 0x1_0000 / 512 <= 127
  {
  }

  lemma ClosedForm(c: nat, wide: nat)
    requires 256 <= c < 32768
    ensures FatIndexSize(c, wide) == 2 && SectorsOfFat(c, wide) == c / 256
    ensures 1 <= c / 256 <= 127
    ensures 253 <= DataClusters(c, wide) < 512 * (c / 256) - 3
  {
    assert c * 2 < 0x1_0000;
    assert c * 2 % 0x1_0000 == c * 2;
  }

  /** The layout works exactly for 256 to 32767 clusters: below, the table is
      empty; above, the 16-bit cast shrinks it under the number of data clusters. */
  lemma SoundIff(c: nat, wide: nat)
    requires wide == 0 || wide == 4 || wide == 8 || wide == 16
    ensures Sound(c, wide) <==> 256 <= c < 32768
  {
    var n := DataClusters(c, wide) + 1;
    CastWraps(c, FatIndexSize(c, wide));
    if 256 <= c < 32768 {
      ClosedForm(c, wide);
    } else if c < 256 {
      assert SectorsOfFat(c, wide) == 0;
      if n >= 3 {
        assert DataCluster(c, wide, n) && !EntryInTable(c, wide, n);
      }
    } else if c < 65536 {
      assert c * 2 % 0x1_0000 == c * 2 - 0x1_0000;
      assert DataCluster(c, wide, n);
      assert !EntryInTable(c, wide, n);
    } else {
      assert DataCluster(c, wide, n) && DataCluster(c, wide, 2) && DataCluster(c, wide, 3);
      if wide == 0 {
        assert !EntriesApart(c, wide, 2, 3);
      } else {
        assert EntryAddress(c, wide, n) >= 512 + 4 * (n - 2);
        assert !EntryInTable(c, wide, n);
      }
    }
  }
}
