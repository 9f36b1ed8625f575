// progs/mkfs.c: laying out a fresh volume.
module Mkfs {
  import opened Bytes
  import opened Disks
  import opened Allocation
  import opened Views
  import opened Volumes
  import Geometry

  /** volume_size / cluster_size blocks of zeros. */
  method MakeDataCluster(volume: Volume, volumeSize: nat, clusterSize: nat)
    requires volume.bytes == [] && volume.pos == 0 && clusterSize > 0 && volumeSize % clusterSize == 0
    modifies volume`pos, volume`bytes
    ensures volume.bytes == Zeros(volumeSize)
  {
    var i := 1;
    while i <= volumeSize / clusterSize
      invariant 1 <= i <= volumeSize / clusterSize + 1
      invariant volume.pos == |volume.bytes| == (i - 1) * clusterSize
      invariant forall k :: 0 <= k < |volume.bytes| ==> volume.bytes[k] == 0
    {
      volume.Write(Zeros(clusterSize));
      i := i + 1;
    }
    assert volume.bytes == Zeros(volumeSize);
  }

  /** Stores k little-endian bytes of n at a field's offset. */
  function Put(s: seq<Byte>, at: nat, n: nat, k: nat): (r: seq<Byte>)
    requires at + k <= |s|
    ensures |r| == |s|
  {
    Splice(s, at, Le(n, k))
  }

  /** A stored field reads back, and the bytes before and after it stay. */
  lemma PutIs(s: seq<Byte>, at: nat, n: nat, k: nat)
    requires at + k <= |s| && n < Pow256(k)
    ensures var t := Put(s, at, n, k);
            FromLe(t[at..at + k]) == n && t[at..at + k] == Le(n, k) && t[..at] == s[..at] && t[at + k..] == s[at + k..]
  {
    hide Le, FromLe;
    FromLeOfLe(n, k);
    assert Put(s, at, n, k)[at..at + k] == Le(n, k);
  }

  lemma KeepsBelow(s: seq<Byte>, t: seq<Byte>, n: nat, at: nat, k: nat)
    requires n <= |s| && n <= |t| && s[..n] == t[..n] && at + k <= n
    ensures t[at..at + k] == s[at..at + k]
  {
    assert s[..n][at..at + k] == s[at..at + k] && t[..n][at..at + k] == t[at..at + k];
  }

  lemma KeepsAbove(s: seq<Byte>, t: seq<Byte>, n: nat, m: nat)
    requires |s| == |t| && n <= m <= |s| && s[n..] == t[n..]
    ensures t[m..] == s[m..]
  {
    assert s[m..] == s[n..][m - n..] && t[m..] == t[n..][m - n..];
  }

  lemma KeepsFront(s: seq<Byte>, t: seq<Byte>, n: nat, m: nat)
    requires m <= n <= |s| && n <= |t| && s[..n] == t[..n]
    ensures t[..m] == s[..m]
  {
    assert s[..m] == s[..n][..m] && t[..m] == t[..n][..m];
  }

  /** The bytes of a superblock: label and serial number, sector size 512, one sector a cluster, two tables
      of c / 256 sectors, version 1.0.16, the table from sector 1 on and the data after both tables, two
      bytes an entry, c sectors and c clusters in all, zeros for the rest. */
  ghost predicate SuperblockOf(sb: seq<Byte>, identity: seq<Byte>, c: nat) {
    |sb| == 512 && SizesOf(sb, identity, c / 256) && LayoutOf(sb, c / 256) && TotalsOf(sb, c)
  }

  ghost predicate SizesOf(sb: seq<Byte>, identity: seq<Byte>, f: nat)
    requires |sb| == 512
  {
    && sb[..19] == identity && FromLe(sb[20..22]) == 512 && FromLe(sb[22..23]) == 1 && FromLe(sb[23..24]) == 2
    && FromLe(sb[24..26]) == f
  }

  ghost predicate LayoutOf(sb: seq<Byte>, f: nat)
    requires |sb| == 512
  {
    && FromLe(sb[28..32]) == 0 && FromLe(sb[32..33]) == 1 && FromLe(sb[33..34]) == 0 && FromLe(sb[34..36]) == 16
    && FromLe(sb[36..40]) == 1 && FromLe(sb[40..44]) == 1 + 2 * f && FromLe(sb[44..46]) == 2
  }

  ghost predicate TotalsOf(sb: seq<Byte>, c: nat)
    requires |sb| == 512
  {
    && FromLe(sb[48..56]) == 0 && FromLe(sb[56..64]) == c && FromLe(sb[64..65]) == 0
    && FromLe(sb[72..80]) == 0 && FromLe(sb[80..88]) == c && FromLe(sb[88..89]) == 0 && sb[89..] == Zeros(423)
  }

  lemma SizesKept(s: seq<Byte>, t: seq<Byte>, identity: seq<Byte>, f: nat)
    requires |s| == |t| == 512 && s[..28] == t[..28] && SizesOf(s, identity, f)
    ensures SizesOf(t, identity, f)
  {
    hide FromLe;
    KeepsFront(s, t, 28, 19);
    KeepsBelow(s, t, 28, 20, 2);
    KeepsBelow(s, t, 28, 22, 1);
    KeepsBelow(s, t, 28, 23, 1);
    KeepsBelow(s, t, 28, 24, 2);
  }

  lemma LayoutKept(s: seq<Byte>, t: seq<Byte>, f: nat)
    requires |s| == |t| == 512 && s[..48] == t[..48] && LayoutOf(s, f)
    ensures LayoutOf(t, f)
  {
    hide FromLe;
    KeepsBelow(s, t, 48, 28, 4);
    KeepsBelow(s, t, 48, 32, 1);
    KeepsBelow(s, t, 48, 33, 1);
    KeepsBelow(s, t, 48, 34, 2);
    KeepsBelow(s, t, 48, 36, 4);
    KeepsBelow(s, t, 48, 40, 4);
    KeepsBelow(s, t, 48, 44, 2);
  }

  /** The superblock for c clusters, field by field; identity is the 11-byte
      volume label with the 8-byte serial number after it. */
  method InitializeSb(identity: seq<Byte>, c: nat) returns (sb: seq<Byte>)
    requires |identity| == 19 && GoodCount(c)
    ensures |sb| == 512 && SbOf(sb) == SbFor(c) && SuperblockOf(sb, identity, c)
  {
    hide FromLe, SizesOf, LayoutOf, TotalsOf;
    Geometry.ClosedForm(c, 0);
    var f := Geometry.SectorsOfFat(c, 0);
    var s0 := PutSizes(identity, f);
    var s1 := PutLayout(s0, f, Geometry.FatIndexSize(c, 0));
    KeepsFront(s0, s1, 28, 19);
    SizesKept(s0, s1, identity, f);
    sb := PutTotals(s1, c);
    KeepsFront(s1, sb, 48, 28);
    SizesKept(s1, sb, identity, f);
    LayoutKept(s1, sb, f);
    FieldsRead(sb, identity, f, c);
  }

  lemma FieldsRead(sb: seq<Byte>, identity: seq<Byte>, f: nat, c: nat)
    requires |sb| == 512 && f == c / 256 && SizesOf(sb, identity, f) && LayoutOf(sb, f)
    ensures SbOf(sb) == SbFor(c)
  {
    hide FromLe;
  }

  /** Label, serial number, sector and cluster sizes, table size. */
  method PutSizes(identity: seq<Byte>, f: nat) returns (sb: seq<Byte>)
    requires |identity| == 19 && f < 0x1_0000
    ensures |sb| == 512 && SizesOf(sb, identity, f) && sb[28..] == Zeros(484)
  {
    Pow256Values();
    hide FromLe, Le, Put, Pow256;
    var s0 := Splice(Zeros(512), 0, identity);
    assert s0[..19] == identity && s0[26..] == Zeros(486);
    var s1 := Put(s0, 20, 512, 2);
    var s2 := Put(s1, 22, 1, 1);
    var s3 := Put(s2, 23, 2, 1);
    sb := Put(s3, 24, f, 2);
    PutIs(s0, 20, 512, 2);
    PutIs(s1, 22, 1, 1);
    PutIs(s2, 23, 2, 1);
    PutIs(s3, 24, f, 2);
    KeepsBelow(s1, s2, 22, 20, 2);
    KeepsBelow(s2, s3, 23, 20, 2);
    KeepsBelow(s2, s3, 23, 22, 1);
    KeepsBelow(s3, sb, 24, 20, 2);
    KeepsBelow(s3, sb, 24, 22, 1);
    KeepsBelow(s3, sb, 24, 23, 1);
    KeepsFront(s0, s1, 20, 19);
    KeepsFront(s1, s2, 22, 19);
    KeepsFront(s2, s3, 23, 19);
    KeepsFront(s3, sb, 24, 19);
    KeepsAbove(s0, s1, 22, 26);
    KeepsAbove(s1, s2, 23, 26);
    KeepsAbove(s2, s3, 24, 26);
    assert sb[28..] == sb[26..][2..];
  }

  /** Version, and where the table and the data clusters start. */
  method PutLayout(s: seq<Byte>, f: nat, fatIndexSize: nat) returns (sb: seq<Byte>)
    requires |s| == 512 && f < 0x1_0000 && fatIndexSize == 2
    ensures |sb| == 512 && sb[..28] == s[..28] && LayoutOf(sb, f) && sb[46..] == s[46..]
  {
    var s1 := PutVersion(s);
    sb := PutPlaces(s1, f, fatIndexSize);
    KeepsFront(s1, sb, 36, 28);
    KeepsBelow(s1, sb, 36, 28, 4);
    KeepsBelow(s1, sb, 36, 32, 1);
    KeepsBelow(s1, sb, 36, 33, 1);
    KeepsBelow(s1, sb, 36, 34, 2);
    KeepsAbove(s, s1, 36, 46);
    hide FromLe;
  }

  /** Reserved bytes and version 1.0.16. */
  method PutVersion(s: seq<Byte>) returns (sb: seq<Byte>)
    requires |s| == 512
    ensures |sb| == 512 && sb[..28] == s[..28] && sb[36..] == s[36..] && FromLe(sb[28..32]) == 0
    ensures FromLe(sb[32..33]) == 1 && FromLe(sb[33..34]) == 0 && FromLe(sb[34..36]) == 16
  {
    Pow256Values();
    hide FromLe, Le, Put, Pow256;
    var s1 := Put(s, 28, 0, 4);
    var s2 := Put(s1, 32, 1, 1);
    var s3 := Put(s2, 33, 0, 1);
    sb := Put(s3, 34, 16, 2);
    PutIs(s, 28, 0, 4);
    PutIs(s1, 32, 1, 1);
    PutIs(s2, 33, 0, 1);
    PutIs(s3, 34, 16, 2);
    KeepsBelow(s1, s2, 32, 28, 4);
    KeepsBelow(s2, s3, 33, 28, 4);
    KeepsBelow(s2, s3, 33, 32, 1);
    KeepsBelow(s3, sb, 34, 28, 4);
    KeepsBelow(s3, sb, 34, 32, 1);
    KeepsBelow(s3, sb, 34, 33, 1);
    KeepsFront(s1, s2, 32, 28);
    KeepsFront(s2, s3, 33, 28);
    KeepsFront(s3, sb, 34, 28);
    KeepsAbove(s, s1, 32, 36);
    KeepsAbove(s1, s2, 33, 36);
    KeepsAbove(s2, s3, 34, 36);
  }

  method PutPlaces(s: seq<Byte>, f: nat, fatIndexSize: nat) returns (sb: seq<Byte>)
    requires |s| == 512 && f < 0x1_0000 && fatIndexSize < 0x1_0000
    ensures |sb| == 512 && sb[..36] == s[..36] && sb[46..] == s[46..] && FromLe(sb[36..40]) == 1
    ensures FromLe(sb[40..44]) == 1 + 2 * f && FromLe(sb[44..46]) == fatIndexSize
  {
    Pow256Values();
    hide FromLe, Le, Put, Pow256;
    var s1 := Put(s, 36, 1, 4);
    var s2 := Put(s1, 40, 1 + f * 2, 4);
    sb := Put(s2, 44, fatIndexSize, 2);
    PutIs(s, 36, 1, 4);
    PutIs(s1, 40, 1 + f * 2, 4);
    PutIs(s2, 44, fatIndexSize, 2);
    KeepsBelow(s1, s2, 40, 36, 4);
    KeepsBelow(s2, sb, 44, 36, 4);
    KeepsBelow(s2, sb, 44, 40, 4);
    KeepsFront(s1, s2, 40, 36);
    KeepsFront(s2, sb, 44, 36);
    KeepsAbove(s, s1, 40, 46);
    KeepsAbove(s1, s2, 44, 46);
  }

  /** The sector totals and the zeroed rest. */
  method PutTotals(s: seq<Byte>, c: nat) returns (sb: seq<Byte>)
    requires |s| == 512 && c < 0x1_0000 && s[46..] == Zeros(466)
    ensures |sb| == 512 && sb[..48] == s[..48] && TotalsOf(sb, c)
  {
    var s1 := PutTotal(s, 48, c);
    var s2 := PutTotal(s1, 72, c);
    KeepsBelow(s1, s2, 72, 48, 8);
    KeepsBelow(s1, s2, 72, 56, 8);
    KeepsBelow(s1, s2, 72, 64, 1);
    KeepsFront(s1, s2, 72, 48);
    KeepsAbove(s, s1, 65, 89);
    hide FromLe;
    assert s[89..] == s[46..][43..];
    sb := ZeroRest(s2);
  }

  /** Both totals of sectors are stored alike: high word, low word, flag. */
  method PutTotal(s: seq<Byte>, at: nat, total: nat) returns (sb: seq<Byte>)
    requires |s| == 512 && at + 17 <= 512 && total < 0x1_0000
    ensures |sb| == 512 && sb[..at] == s[..at] && sb[at + 17..] == s[at + 17..]
    ensures FromLe(sb[at..at + 8]) == 0 && FromLe(sb[at + 8..at + 16]) == total && FromLe(sb[at + 16..at + 17]) == 0
  {
    Pow256Values();
    hide FromLe, Le, Put, Pow256;
    var s1 := Put(s, at, 0, 8);
    var s2 := Put(s1, at + 8, total, 8);
    sb := Put(s2, at + 16, 0, 1);
    PutIs(s, at, 0, 8);
    PutIs(s1, at + 8, total, 8);
    PutIs(s2, at + 16, 0, 1);
    KeepsBelow(s1, s2, at + 8, at, 8);
    KeepsBelow(s2, sb, at + 16, at, 8);
    KeepsBelow(s2, sb, at + 16, at + 8, 8);
    KeepsFront(s1, s2, at + 8, at);
    KeepsFront(s2, sb, at + 16, at);
    KeepsAbove(s, s1, at + 8, at + 17);
    KeepsAbove(s1, s2, at + 16, at + 17);
  }

  lemma {:induction false} ZeroBytes(k: nat)
    ensures Le(0, k) == Zeros(k)
  {
    if k > 0 {
      ZeroBytes(k - 1);
      assert Le(0, k) == [0] + Le(0, k - 1);
    }
  }

  /** The reserved bytes and the end mark, in a buffer that was zero there. */
  method ZeroRest(s: seq<Byte>) returns (sb: seq<Byte>)
    requires |s| == 512 && s[89..] == Zeros(423)
    ensures sb == s
  {
    hide Le;
    ZeroBytes(2);
    sb := Splice(s, 89, Zeros(416));
    sb := Put(sb, 506, 0, 2);
    assert forall k :: 89 <= k < 512 ==> s[k] == s[89..][k - 89];
    assert sb == s;
  }

  /** make_fat: the first entry gets the end marker, as four bytes over two slots. */
  method MakeFat(volume: Volume)
    requires volume.Formatted()
    modifies volume`pos, volume`bytes
    ensures volume.bytes == Splice(old(volume.bytes), 512, Le(END, 4))
  {
    var endCluster := GetEndCluster(volume);
    var sb := ReadSb(volume);
    var startPosition := sb.fatSector * sb.bytesPerSector;
    volume.Seek(startPosition + sb.fatIndexSize * (2 - 2));
    volume.Write(Le(endCluster, 4));
  }

  /** The table of a fresh volume: cluster 2 ends its chain, every other entry is free. */
  lemma FreshDisk(bytes: seq<Byte>, c: nat)
    requires GoodCount(c) && 512 * c <= |bytes| && bytes[512..516] == Le(END, 4)
    requires forall k :: 516 <= k < |bytes| ==> bytes[k] == 0
    ensures var d := DiskOf(bytes, c);
            && d.fat[0] == END && (forall s :: 1 <= s < |d.fat| ==> d.fat[s] == 0)
            && (forall k :: 0 <= k < |d.data| ==> d.data[k] == Zeros(512))
  {
    var d := DiskOf(bytes, c);
    EndBytes();
    var four := bytes[512..516];
    assert four == [255, 255, 0, 0];
    assert bytes[512] == four[0] && bytes[513] == four[1] && bytes[514] == four[2] && bytes[515] == four[3];
    assert bytes[512..514] == [255, 255];
    assert FromLe([255, 255]) == 255 + 256 * FromLe([255, 255][1..]) && [255, 255][1..] == [255];
    assert FromLe([255]) == 255;
    forall s | 1 <= s < |d.fat| ensures d.fat[s] == 0 {
      assert bytes[512 + 2 * s] == 0 && bytes[513 + 2 * s] == 0;
      assert bytes[512 + 2 * s..514 + 2 * s] == [0, 0];
      assert FromLe([0, 0]) == 256 * FromLe([0, 0][1..]) && [0, 0][1..] == [0] && FromLe([0]) == 0;
    }
  }

  /** The tree of a fresh volume is one empty root directory. */
  function FreshView(): View {
    View(map[Root := DirNode([])], map[Root := [2]], map[2 := Place(Root, 0)], 1)
  }

  lemma FreshInv(d: Disk)
    requires WfDisk(d) && |d.data| >= 1 && d.fat[0] == END && (forall s :: 1 <= s < |d.fat| ==> d.fat[s] == 0)
    requires forall k :: 0 <= k < |d.data| ==> d.data[k] == Zeros(512)
    ensures Inv(d, FreshView())
  {
    var v := FreshView();
    assert OwnedAt(d, v.chain, v.owner, 2);
    forall e | 0 <= e < 8 ensures SlotHolds(d, v, Root, 0, e) {
    }
    assert NodeOk(d, v, Root);
    assert ParentOk(v.fs, Root);
  }

  /** Writing a superblock and the table's first four bytes over zeros changes nothing else. */
  lemma TwoWrites(sb: seq<Byte>, n: nat, s1: seq<Byte>, s2: seq<Byte>, four: seq<Byte>)
    requires |sb| == 512 && |four| == 4 && 516 <= n && s1 == Splice(Zeros(n), 0, sb) && s2 == Splice(s1, 512, four)
    ensures |s1| == |s2| == n && s1[..512] == sb && s2[..512] == sb && s2[512..516] == four
    ensures forall k :: 516 <= k < n ==> s2[k] == 0
  {
  }

  /** Everything after the first cluster of a fresh volume is usable. */
  lemma FreshSpace(d: Disk)
    requires d.fat != [] && d.fat[0] == END && forall s :: 1 <= s < |d.fat| ==> d.fat[s] == 0
    ensures Compact(d.fat, FreshView().top)
  {
  }

  lemma EndBytes()
    ensures Le(END, 4) == [255, 255, 0, 0]
  {
    assert Le(END, 4) == [255] + Le(255, 3) == [255, 255] + Le(0, 2) by {
      assert Le(0, 2) == [0] + Le(0, 1);
    }
  }

  /** create_volume on a new file: the superblock, four bytes of end marker and zeros. It stands for an
      empty tree, and everything after the first cluster is usable. */
  method CreateVolume(volume: Volume, identity: seq<Byte>, volumeSize: nat, clusterSize: nat)
    requires volume.bytes == [] && volume.pos == 0 && |identity| == 19
    requires clusterSize > 0 && volumeSize % clusterSize == 0 && GoodCount(volumeSize / 512)
    modifies volume
    ensures volume.Valid() && |volume.bytes| == volumeSize && volume.view.fs == map[Root := DirNode([])]
    ensures SuperblockOf(volume.bytes[..512], identity, volumeSize / 512)
    ensures volume.bytes[512..516] == [255, 255, 0, 0] && forall k :: 516 <= k < volumeSize ==> volume.bytes[k] == 0
    ensures Usable(|volume.D().data|, volume.view.top) == Usable(DataCount(volumeSize / 512), 1)
    ensures Compact(volume.D().fat, volume.view.top) && volume.view.top == 1
  {
    hide Inv, Compact, Usable, DiskOf, SbOf, SuperblockOf, Le, Splice, Zeros;
    ghost var c := volumeSize / 512;
    MakeDataCluster(volume, volumeSize, clusterSize);
    var sb := InitializeSb(identity, volumeSize / 512);
    volume.Seek(0);
    volume.Write(sb);
    ghost var s1 := volume.bytes;
    EndBytes();
    TwoWrites(sb, volumeSize, s1, Splice(s1, 512, Le(END, 4)), Le(END, 4));
    MakeFat(volume);
    FreshDisk(volume.bytes, c);
    FreshInv(volume.D());
    FreshSpace(volume.D());
    volume.view := FreshView();
  }
}
