// entry.c: walking a directory's cluster chain.
module Entry {
  import opened Bytes
  import opened Disks
  import opened Dirents
  import opened Allocation
  import opened Listings
  import opened Volumes
  import opened Fat

  /** Byte address of a cluster. */
  method ReadCluster(volume: Volume, number: nat) returns (position: nat)
    requires volume.Formatted() && 2 <= number
    modifies volume`pos
    ensures position == DataStart(|volume.bytes| / 512) + 512 * (number - 2)
  {
    var sb := ReadSb(volume);
    position := sb.dataClusterSector * sb.bytesPerSector + (number - 2) * 512;
  }

  /** A buffer after a read at a position: past the end of the volume fewer bytes arrive and the rest stays. */
  function Filled(bytes: seq<Byte>, position: nat, buffer: seq<Byte>): (r: seq<Byte>)
    ensures |r| == |buffer|
  {
    if position >= |bytes| then buffer
    else if position + |buffer| <= |bytes| then bytes[position..position + |buffer|]
    else bytes[position..] + buffer[|bytes| - position..]
  }

  /** Fills the buffer from a cluster, total past the end of the volume. */
  method LoadCluster(volume: Volume, number: nat, buffer: seq<Byte>) returns (position: nat, cluster: seq<Byte>)
    requires volume.Formatted() && 2 <= number && |buffer| == 512
    modifies volume`pos
    ensures position == DataStart(|volume.bytes| / 512) + 512 * (number - 2)
    ensures cluster == Filled(volume.bytes, position, buffer) && |cluster| == 512
    ensures InVolume(volume.D(), number) ==> cluster == Cluster(volume.D(), number)
  {
    position := ReadCluster(volume, number);
    volume.Seek(position);
    var got := volume.Read(512);
    cluster := got + buffer[|got|..];
  }

  /** Writes inside one cluster. */
  method StoreInCluster(volume: Volume, number: nat, at: nat, s: seq<Byte>)
    requires volume.Formatted() && InVolume(volume.D(), number) && at + |s| <= 512
    modifies volume`pos, volume`bytes
    ensures volume.Formatted() && |volume.bytes| == |old(volume.bytes)|
    ensures volume.D() == Patch(old(volume.D()), number, at, s)
  {
    var c := |volume.bytes| / 512;
    SpliceCluster(volume.bytes, c, number, at, s);
    var position := ReadCluster(volume, number);
    volume.Seek(position + at);
    assert s == [] ==> Splice(volume.bytes, position + at, s) == volume.bytes;
    volume.Write(s);
  }

  /** n bytes from inside one cluster. */
  method FetchFromCluster(volume: Volume, number: nat, at: nat, n: nat) returns (s: seq<Byte>)
    requires volume.Formatted() && 2 <= number && at + n <= 512
    modifies volume`pos
    ensures n == 0 ==> s == []
    ensures InVolume(volume.D(), number) ==> s == Cluster(volume.D(), number)[at..at + n]
  {
    var position := ReadCluster(volume, number);
    volume.Seek(position + at);
    s := volume.Read(n);
    ghost var c := |volume.bytes| / 512;
    if InVolume(volume.D(), number) {
      SliceOfSlice(volume.bytes, DataStart(c) + 512 * (number - 2), DataStart(c) + 512 * (number - 2) + 512, at,
                   at + n);
    }
  }

  /** get_first_entry and get_next_entry up to the first matching entry of one
      cluster; 8 when the cluster has none. */
  method SearchCluster(cluster: seq<Byte>, want: Want) returns (n: nat)
    requires |cluster| == 512
    ensures n <= 8 && (n < 8 ==> Matches(want, EntryIn(cluster, n)))
    ensures forall e :: 0 <= e < n ==> !Matches(want, EntryIn(cluster, e))
  {
    n := 0;
    while n != 8
      invariant 0 <= n <= 8
      invariant forall e :: 0 <= e < n ==> !Matches(want, EntryIn(cluster, e))
    {
      if Matches(want, EntryIn(cluster, n)) {
        return;
      }
      n := n + 1;
    }
  }

  /** One more cluster searched. */
  lemma {:induction false} SearchedCluster(d: Disk, chain: seq<nat>, want: Want, i: nat, cluster: seq<Byte>, n: nat)
    requires WfDisk(d) && Linked(d, chain) && NoneBefore(d, chain, want, 8 * i) && i < |chain| && n <= 8
    requires cluster == Cluster(d, chain[i]) && |cluster| == 512
    requires n < 8 ==> Matches(want, EntryIn(cluster, n))
    requires forall e :: 0 <= e < n ==> !Matches(want, EntryIn(cluster, e))
    ensures NoneBefore(d, chain, want, 8 * i + n)
    ensures n < 8 ==> FirstMatch(d, chain, want, i, n) && DirentAt(d, chain[i], n) == EntryIn(cluster, n)
  {
    forall e | 0 <= e < 8 ensures DirentAt(d, chain[i], e) == EntryIn(cluster, e) {
    }
  }

  /** A walk over a directory's chain has come to cluster i of it, or to the end, without a match. */
  ghost predicate Scanning(d: Disk, chain: seq<nat>, want: Want, i: nat, number: nat) {
    && WfDisk(d) && Linked(d, chain) && i <= |chain| && number == (if i < |chain| then chain[i] else END)
    && NoneBefore(d, chain, want, 8 * i)
  }

  /** What the search of one cluster says about the walk. */
  lemma ScanOn(d: Disk, chain: seq<nat>, want: Want, i: nat, number: nat, cluster: seq<Byte>, n: nat)
    requires Scanning(d, chain, want, i, number) && number != END && InVolume(d, number) && InTable(d, number) && n <= 8
    requires |cluster| == 512 && cluster == Cluster(d, number)
    requires n < 8 ==> Matches(want, EntryIn(cluster, n))
    requires forall e :: 0 <= e < n ==> !Matches(want, EntryIn(cluster, e))
    ensures n < 8 ==> i < |chain| && FirstMatch(d, chain, want, i, n) && DirentAt(d, chain[i], n) == EntryIn(cluster, n)
    ensures n == 8 ==> Scanning(d, chain, want, i + 1, Next(d, number))
  {
    hide Matches;
    SearchedCluster(d, chain, want, i, cluster, n);
    assert Next(d, chain[i]) == NextIn(chain, i);
  }

  /** The first normal-file entry with the given name, if any. */
  method GetDentry(volume: Volume, dirClusterNumber: nat, fileName: Name, ghost chain: seq<nat>)
    returns (found: bool, dentry: Dirent, ghost i: nat, ghost e: nat)
    requires volume.Formatted() && Linked(volume.D(), chain) && chain[0] == dirClusterNumber
    modifies volume`pos
    ensures found ==> FirstMatch(volume.D(), chain, File(fileName), i, e) && dentry == DirentAt(volume.D(), chain[i], e)
    ensures !found ==> NoneBefore(volume.D(), chain, File(fileName), 8 * |chain|)
  {
    hide DiskOf, SbOf, ReadAnswer, Filled;
    var cluster := Zeros(512);
    var currentClusterNumber := dirClusterNumber;
    var position: nat;
    var endCluster := GetEndCluster(volume);
    ghost var d := volume.D();
    dentry := Decode(Zeros(64));
    i, e := 0, 0;
    ghost var want := File(fileName);
    hide Scanning, Linked, FirstMatch, NoneBefore, Matches;
    while currentClusterNumber != endCluster
      invariant i <= |chain| && |cluster| == 512 && Scanning(d, chain, want, i, currentClusterNumber)
      decreases |chain| - i
    {
      position, cluster := LoadCluster(volume, currentClusterNumber, cluster);
      var n := SearchCluster(cluster, File(fileName));
      ScanOn(d, chain, want, i, currentClusterNumber, cluster, n);
      if n != 8 {
        return true, EntryIn(cluster, n), i, n;
      }
      currentClusterNumber := ReadFatIndex(volume, currentClusterNumber);
      i := i + 1;
    }
    found := false;
  }

  /** The chain grew by the cluster k the scan found, and entry stands at its start. */
  ghost predicate GrownBy(d: Disk, chain: seq<nat>, k: nat, clean: bool, entry: seq<Byte>, d': Disk) {
    chain != [] && |entry| <= 512 &&
    var last := chain[|chain| - 1];
    && MayFind(d.fat, k) && (clean ==> FindsClean(d.fat, k)) && InVolume(d, k) && InTable(d, k) && Next(d, k) == 0
    && InTable(d, last) && WfDisk(Grow(d, last, k)) && d' == Patch(Grow(d, last, k), k, 0, entry)
  }

  /** Puts an entry in the first free slot of a directory. A full directory
      grows by the cluster k the scan finds, and the entry goes in its first slot. */
  method AllocNewDirent(volume: Volume, dirClusterNumber: nat, dirent: Dirent, ghost chain: seq<nat>, ghost n: nat,
                        ghost top: nat)
    returns (ok: bool, ghost k: nat, ghost clean: bool)
    requires volume.Formatted() && Fits(dirent)
    requires DenseSlots(volume.D(), chain, n) && chain[0] == dirClusterNumber
    requires n == 8 * |chain| ==> TopOk(volume.D().fat, top) && FarPick(top) < |volume.D().data|
    modifies volume`pos, volume`bytes
    ensures ok && volume.Formatted() && |volume.bytes| == |old(volume.bytes)|
    ensures n < 8 * |chain| ==>
              Patchable(old(volume.D()), chain[n / 8], 64 * (n % 8), Encode(dirent))
              && volume.D() == Patch(old(volume.D()), chain[n / 8], 64 * (n % 8), Encode(dirent))
    ensures n == 8 * |chain| ==> GrownBy(old(volume.D()), chain, k, clean, Encode(dirent), volume.D())
  {
    hide DiskOf, SbOf, ReadAnswer, Filled;
    var cluster := Zeros(512);
    var currentClusterNumber, beforeClusterNumber := dirClusterNumber, 0;
    var readPosition: nat;
    var endCluster := GetEndCluster(volume);
    ghost var d := volume.D();
    ghost var i := 0;
    k, clean := 0, true;
    hide Scanning, Linked, FirstMatch, NoneBefore, Matches, DenseSlots, TopOk, FarPick, GrownBy, Encode, WfDisk;
    while currentClusterNumber != endCluster
      invariant volume.bytes == old(volume.bytes)
      invariant i <= |chain| && |cluster| == 512 && Scanning(d, chain, Free, i, currentClusterNumber)
      invariant i > 0 ==> beforeClusterNumber == chain[i - 1]
      decreases |chain| - i
    {
      readPosition, cluster := LoadCluster(volume, currentClusterNumber, cluster);
      var e := SearchCluster(cluster, Free);
      ScanOn(d, chain, Free, i, currentClusterNumber, cluster, e);
      if e != 8 {
        FirstFreeSlot(d, chain, n, i, e);
        StoreInCluster(volume, currentClusterNumber, e * 64, Encode(dirent));
        return true, k, clean;
      }
      beforeClusterNumber := currentClusterNumber;
      currentClusterNumber := ReadFatIndex(volume, currentClusterNumber);
      i := i + 1;
    }
    NoFreeSlot(d, chain, n);
    k, clean := GrowDirectory(volume, beforeClusterNumber, dirent, chain, top);
    ok := true;
  }

  /** The tail of alloc_new_dirent: a new last cluster that starts with the entry. */
  method GrowDirectory(volume: Volume, beforeClusterNumber: nat, dirent: Dirent, ghost chain: seq<nat>, ghost top: nat)
    returns (found: nat, ghost clean: bool)
    requires volume.Formatted() && Fits(dirent) && Linked(volume.D(), chain)
             && beforeClusterNumber == chain[|chain| - 1]
    requires TopOk(volume.D().fat, top) && FarPick(top) < |volume.D().data|
    modifies volume`pos, volume`bytes
    ensures volume.Formatted() && |volume.bytes| == |old(volume.bytes)|
    ensures GrownBy(old(volume.D()), chain, found, clean, Encode(dirent), volume.D())
  {
    hide DiskOf, SbOf, WriteEffect;
    ghost var d := volume.D();
    var endCluster := GetEndCluster(volume);
    found, clean := FindEmptyFatIndex(volume);
    assert volume.D() == d;
    ScanSucceeds(d, top, found, clean);
    assert found % 0x1_0000 == found;
    var _ := WriteInFatIndex(volume, beforeClusterNumber, found);
    var _ := WriteInFatIndex(volume, found, endCluster);
    assert volume.D() == Grow(d, beforeClusterNumber, found);
    StoreInCluster(volume, found, 0, Encode(dirent));
  }

  lemma {:induction false} SlotIsFree(d: Disk, chain: seq<nat>, n: nat)
    requires DenseSlots(d, chain, n) && n < 8 * |chain|
    ensures Matches(Free, DirentAt(d, chain[n / 8], n % 8))
  {
  }

  lemma {:induction false} FirstFreeSlot(d: Disk, chain: seq<nat>, n: nat, i: nat, e: nat)
    requires DenseSlots(d, chain, n) && FirstMatch(d, chain, Free, i, e)
    ensures 8 * i + e == n && i == n / 8 && e == n % 8
  {
    assert Matches(Free, DirentAt(d, chain[i], e));
    SlotIsFree(d, chain, n);
  }

  lemma {:induction false} NoFreeSlot(d: Disk, chain: seq<nat>, n: nat)
    requires DenseSlots(d, chain, n) && NoneBefore(d, chain, Free, 8 * |chain|)
    ensures n == 8 * |chain|
  {
    if n < 8 * |chain| {
      SlotIsFree(d, chain, n);
    }
  }

  /** With a usable cluster left the scan finds a free cluster of the volume. */
  lemma {:induction false} ScanSucceeds(d: Disk, top: nat, found: nat, clean: bool)
    requires WfDisk(d) && TopOk(d.fat, top) && FarPick(top) < |d.data|
    requires found == 0 ==> Passed(d.fat, |d.fat|, clean)
    requires found != 0 ==> MayFind(d.fat, found)
    ensures MayFind(d.fat, found) && InVolume(d, found) && Next(d, found) == 0 && found - 2 <= FarPick(top)
    ensures found - 2 >= top || LastInSector(found - 2)
  {
    assert CertainlyEmpty(d.fat, FarPick(top));
    PickBounds(d.fat, top, found);
  }

  /** Replaces the first normal-file entry with the given name. */
  method AllocNewEntry(volume: Volume, dirClusterNumber: nat, fileName: Name, dentry: Dirent, ghost chain: seq<nat>)
    returns (ok: bool, ghost i: nat, ghost e: nat)
    requires volume.Formatted() && Fits(dentry) && Linked(volume.D(), chain) && chain[0] == dirClusterNumber
    modifies volume`pos, volume`bytes
    ensures volume.Formatted() && |volume.bytes| == |old(volume.bytes)|
    ensures ok ==> FirstMatch(old(volume.D()), chain, File(fileName), i, e)
                   && volume.D() == Patch(old(volume.D()), chain[i], 64 * e, Encode(dentry))
    ensures !ok ==> NoneBefore(old(volume.D()), chain, File(fileName), 8 * |chain|) && volume.D() == old(volume.D())
  {
    hide DiskOf, SbOf, ReadAnswer, Filled;
    var cluster := Zeros(512);
    var currentClusterNumber := dirClusterNumber;
    var position: nat;
    var endCluster := GetEndCluster(volume);
    ghost var d := volume.D();
    i, e := 0, 0;
    ghost var want := File(fileName);
    hide Scanning, Linked, FirstMatch, NoneBefore, Matches, Encode;
    while currentClusterNumber != endCluster
      invariant volume.bytes == old(volume.bytes)
      invariant i <= |chain| && |cluster| == 512 && Scanning(d, chain, want, i, currentClusterNumber)
      decreases |chain| - i
    {
      position, cluster := LoadCluster(volume, currentClusterNumber, cluster);
      var n := SearchCluster(cluster, File(fileName));
      ScanOn(d, chain, want, i, currentClusterNumber, cluster, n);
      if n != 8 {
        e := n;
        cluster := Splice(cluster, 64 * n, Encode(dentry));
        StoreInCluster(volume, currentClusterNumber, 0, cluster);
        assert Splice(Cluster(d, chain[i]), 0, cluster) == cluster;
        return true, i, e;
      }
      currentClusterNumber := ReadFatIndex(volume, currentClusterNumber);
      i := i + 1;
    }
    ok := false;
  }
}
