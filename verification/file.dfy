// file.c: creating files, and reading and writing at most one cluster per call.
module Files {
  import opened Bytes
  import opened Disks
  import opened Dirents
  import opened Allocation
  import opened Views
  import opened Listings
  import opened Claims
  import opened Volumes
  import opened Fat
  import opened Entry
  import opened Routes

  /** What is left for later allocations, whatever lies past the sector buffers. */
  ghost function Spare(volume: Volume): nat
    requires volume.Formatted()
    reads volume`bytes, volume`view
  {
    Usable(|volume.D().data|, volume.view.top)
  }

  function EmptyNode(attribute: Byte): Node {
    if attribute == NORMAL_DIR then DirNode([]) else FileNode([])
  }

  /** The common part of __mfs_create and __mfs_mkdir after path resolution. */
  method InsertNew(volume: Volume, clusterNumber: nat, attribute: Byte, name: Name, ghost p: Path)
    returns (ok: bool, ghost clean: bool)
    requires volume.Valid() && CanMake(volume.view.fs, p, name) && clusterNumber == volume.view.chain[p][0]
    requires attribute == NORMAL_FILE || attribute == NORMAL_DIR
    requires Spare(volume) >= MakeCost(volume.view.fs, p)
    modifies volume
    ensures ok && volume.Valid() && |volume.bytes| == |old(volume.bytes)|
    ensures volume.view.fs == MakeNode(old(volume.view.fs), p, name, EmptyNode(attribute))
    ensures Spare(volume) + MakeCost(old(volume.view.fs), p) >= old(Spare(volume))
    ensures RunKept(old(volume.D()), old(volume.view), volume.D(), volume.view, MakeCost(old(volume.view.fs), p), clean)
  {
    hide DiskOf, SbOf, WriteEffect, Inv, TopOk, MayFind, FindsClean, FarPick, Usable, KeepsRun, NodeOk, Linked,
      MakeNode, MakeCost;
    ghost var d, v, node := volume.D(), volume.view, EmptyNode(attribute);
    var endCluster := GetEndCluster(volume);
    var head;
    head, clean := FindEmptyFatIndex(volume);
    HeadPicked(d, v, p, head, clean);
    var entry := Dirent(attribute, 0, NameField(name), head, 0, Zeros(23));
    var _ := WriteInFatIndex(volume, head, endCluster);
    assert volume.D() == SetNext(d, head, END);
    ok, clean := InsertEntry(volume, clusterNumber, entry, d, p, name, node, clean);
  }

  /** The second half: the entry for the claimed head goes into the directory. */
  method InsertEntry(volume: Volume, clusterNumber: nat, entry: Dirent, ghost d: Disk, ghost p: Path, ghost name: Name,
                     ghost node: Node, ghost headClean: bool)
    returns (ok: bool, ghost clean: bool)
    requires volume.Formatted() && Inv(d, volume.view) && CanMake(volume.view.fs, p, name)
             && clusterNumber == volume.view.chain[p][0]
    requires Picked(d, volume.view.top, entry.head) && volume.D() == SetNext(d, entry.head, END)
    requires node == DirNode([]) || node == FileNode([])
    requires entry == NewEntry(node, name, entry.head)
    requires Usable(|d.data|, volume.view.top) >= MakeCost(volume.view.fs, p)
    requires headClean ==> FindsClean(d.fat, entry.head)
    modifies volume
    ensures ok && volume.Valid() && |volume.bytes| == |old(volume.bytes)|
    ensures volume.view.fs == MakeNode(old(volume.view.fs), p, name, node)
    ensures Spare(volume) + MakeCost(old(volume.view.fs), p) >= Usable(|d.data|, old(volume.view.top))
    ensures RunKept(d, old(volume.view), volume.D(), volume.view, MakeCost(old(volume.view.fs), p), clean)
  {
    hide DiskOf, SbOf, Inv, TopOk, MayFind, FindsClean, FarPick, Usable, Encode, KeepsRun;
    hide DenseSlots, EntryWritten, GrownBy, NodeOk, Linked, MakeNode, MakeCost;
    ghost var v, head := volume.view, entry.head;
    NodeIsLinked(d, v, p);
    ReadyForEntry(d, v, p, head);
    ghost var k;
    ok, k, clean := AllocNewDirent(volume, clusterNumber, entry, v.chain[p], |v.fs[p].names|, Max(v.top, head - 1));
    EntryIsWritten(d, v, p, head, k, clean, Encode(entry), volume.D());
    NodeMade(d, v, p, name, node, head, k, entry, volume.D());
    NodeKeepsRun(d, v, p, name, node, head, headClean, k, clean, Encode(entry), volume.D());
    clean := headClean && clean;
    volume.view := MadeView(v, p, name, node, head, k);
  }

  lemma HeadPicked(d: Disk, v: View, p: Path, found: nat, clean: bool)
    requires Inv(d, v) && IsDir(v.fs, p) && Usable(|d.data|, v.top) >= 1
    requires found == 0 ==> Passed(d.fat, |d.fat|, clean)
    requires found != 0 ==> MayFind(d.fat, found)
    ensures Picked(d, v.top, found) && Next(d, found) == 0
    ensures Usable(|d.data|, Max(v.top, found - 1)) + 1 >= Usable(|d.data|, v.top)
  {
    UsableIff(|d.data|, v.top);
    ScanSucceeds(d, v.top, found, clean);
    PickedIsFree(d, v.top, found);
  }

  /** After the head cluster is claimed, the directory is ready for alloc_new_dirent. */
  lemma ReadyForEntry(d: Disk, v: View, p: Path, head: nat)
    requires Inv(d, v) && IsDir(v.fs, p) && Picked(d, v.top, head) && Usable(|d.data|, v.top) >= MakeCost(v.fs, p)
    ensures p in v.chain && DenseSlots(SetNext(d, head, END), v.chain[p], |v.fs[p].names|)
    ensures |v.fs[p].names| <= 8 * |v.chain[p]| && (|v.fs[p].names| == 8 * |v.chain[p]| <==> MakeCost(v.fs, p) == 2)
    ensures MakeCost(v.fs, p) == 2 ==>
              TopOk(SetNext(d, head, END).fat, Max(v.top, head - 1)) && FarPick(Max(v.top, head - 1)) < |d.data|
  {
    PickedIsFree(d, v.top, head);
    DirIsDense(d, v, p);
    DenseAfterClaim(d, v.chain[p], |v.fs[p].names|, head);
    FullIff(d, v, p);
    UsableIff(|d.data|, Max(v.top, head - 1));
  }

  /** What alloc_new_dirent leaves, as the update of the tree's proof. */
  lemma EntryIsWritten(d: Disk, v: View, p: Path, head: nat, k: nat, clean: bool, entry: seq<Byte>, d': Disk)
    requires Inv(d, v) && IsDir(v.fs, p) && p in v.chain && Picked(d, v.top, head)
             && Usable(|d.data|, v.top) >= MakeCost(v.fs, p)
    requires var d1, chain, n := SetNext(d, head, END), v.chain[p], |v.fs[p].names|;
             && |entry| == 64 && n <= 8 * |chain|
             && (n < 8 * |chain| ==> Patchable(d1, chain[n / 8], 64 * (n % 8), entry)
                                     && d' == Patch(d1, chain[n / 8], 64 * (n % 8), entry))
             && (n == 8 * |chain| ==> GrownBy(d1, chain, k, clean, entry, d'))
    ensures EntryWritten(d, v, p, head, k, entry, d')
    ensures MakeCost(v.fs, p) == 2 ==> k >= 2 && (clean ==> FindsClean(SetNext(d, head, END).fat, k))
  {
    ReadyForEntry(d, v, p, head);
    PickedIsFree(d, v.top, head);
    hide Inv, TopOk, MayFind, FindsClean, DenseSlots, Usable, NodeOk, Linked, MakeCost;
  }

  /** __mfs_create: an empty file under the directory the route names. */
  method Create(volume: Volume, route: array<Byte>, fileName: Name) returns (ok: bool, ghost clean: bool)
    requires volume.Valid() && 0 in route[..]
    requires CanMake(volume.view.fs, RoutePath(route[..]), fileName)
    requires Spare(volume) >= MakeCost(volume.view.fs, RoutePath(route[..]))
    modifies volume, route
    ensures ok && volume.Valid() && |volume.bytes| == |old(volume.bytes)|
    ensures volume.view.fs == MakeNode(old(volume.view.fs), RoutePath(old(route[..])), fileName, FileNode([]))
    ensures var cost := MakeCost(old(volume.view.fs), RoutePath(old(route[..])));
            && Spare(volume) + cost >= old(Spare(volume))
            && RunKept(old(volume.D()), old(volume.view), volume.D(), volume.view, cost, clean)
    ensures 0 in route[..] && RouteNames(route[..]) == FirstOnly(RouteNames(old(route[..])))
  {
    hide DiskOf, SbOf, Inv, RouteNames, RoutePath, RunKept;
    ghost var p := RoutePath(route[..]);
    var searchedClusterNumber := GetClusterNumber(volume, route);
    ok, clean := InsertNew(volume, searchedClusterNumber, NORMAL_FILE, fileName, p);
  }

  // ----- one write

  /** The per-call length write_file computes, in 32-bit unsigned arithmetic. */
  function ValidLen(len: nat, offset: nat): nat {
    var inCluster := offset % 512;
    if len >= 512 then 512
    else if inCluster != 0 && inCluster + len > 512 then (len - (512 - inCluster + len)) % 0x1_0000_0000
    else len
  }

  function Min(a: nat, b: nat): nat {
    if a < b then a else b
  }

  /** The call stays inside one cluster exactly when it starts a cluster or fits in
      the rest of one; otherwise the length is 512 or wraps to nearly 2^32. */
  lemma StaysInClusterIff(len: nat, offset: nat)
    requires 0 < len < 0x8000_0000
    ensures offset % 512 + ValidLen(len, offset) <= 512 <==> offset % 512 == 0 || offset % 512 + len <= 512
    ensures offset % 512 + ValidLen(len, offset) <= 512 ==> ValidLen(len, offset) == Min(len, 512 - offset % 512)
  {
  }

  /** bs stands at offset of the file with this chain, in the cluster k if the chain had to grow. */
  ghost predicate ChunkWritten(d: Disk, chain: seq<nat>, offset: nat, top: nat, k: nat, clean: bool, bs: seq<Byte>,
                               d': Disk) {
    if bs == [] then d' == d
    else if offset / 512 < |chain| then
      var x := chain[offset / 512];
      Patchable(d, x, offset % 512, bs) && d' == Patch(d, x, offset % 512, bs)
    else
      offset / 512 == |chain| > 0 &&
      var last := chain[|chain| - 1];
      && Picked(d, top, k) && (clean ==> FindsClean(d.fat, k)) && InTable(d, last)
      && Patchable(Grow(d, last, k), k, offset % 512, bs) && d' == Patch(Grow(d, last, k), k, offset % 512, bs)
  }

  /** write_file: at most the rest of one cluster, adding one cluster when offset
      is the end of a full chain. The entry's size grows by the returned count. */
  method WriteFile(volume: Volume, dentry: Dirent, buf: seq<Byte>, len: nat, offset: nat, ghost chain: seq<nat>,
                   ghost top: nat)
    returns (n: nat, dentry': Dirent, ghost k: nat, ghost clean: bool)
    requires volume.Formatted() && Linked(volume.D(), chain) && chain[0] == dentry.head
    requires len <= |buf| && len < 0x8000_0000 && (offset % 512 == 0 || offset % 512 + len <= 512)
    requires offset / 512 <= |chain|
    requires len > 0 && offset / 512 == |chain| ==> TopOk(volume.D().fat, top) && FarPick(top) < |volume.D().data|
    modifies volume`pos, volume`bytes
    ensures volume.Formatted() && |volume.bytes| == |old(volume.bytes)|
    ensures n == Min(len, 512 - offset % 512) && dentry' == dentry.(size := dentry.size + n)
    ensures ChunkWritten(old(volume.D()), chain, offset, top, k, clean, buf[..n], volume.D())
  {
    hide DiskOf, SbOf, ReadAnswer, TopOk, MayFind, FindsClean, FarPick;
    ghost var d, i := volume.D(), 0;
    k, clean := 0, true;
    var endCluster := GetEndCluster(volume);
    var currentCluster, pos := dentry.head, 0;
    if len == 0 {
      return 0, dentry, k, clean;
    }
    var clusterOffset := offset % 512;
    StaysInClusterIff(len, offset);
    var validLen := ValidLen(len, offset);
    while offset >= pos + 512
      invariant pos == 512 * i && i < |chain| && pos <= offset && currentCluster == chain[i]
      invariant volume.bytes == old(volume.bytes)
      decreases offset - pos
    {
      var nextCluster := ReadFatIndex(volume, currentCluster);
      assert Next(d, chain[i]) == NextIn(chain, i);
      if nextCluster == endCluster {
        assert i + 1 == |chain| == offset / 512;
        nextCluster, clean := GrowFile(volume, currentCluster, chain, top);
        k := nextCluster;
        StoreInCluster(volume, nextCluster, clusterOffset, buf[..validLen]);
        return validLen, dentry.(size := dentry.size + validLen), k, clean;
      }
      currentCluster := nextCluster;
      pos := pos + 512;
      i := i + 1;
    }
    assert i == offset / 512;
    StoreInCluster(volume, currentCluster, clusterOffset, buf[..validLen]);
    n := validLen;
    dentry' := dentry.(size := dentry.size + validLen);
  }

  /** The growth step inside write_file's walk. */
  method GrowFile(volume: Volume, currentCluster: nat, ghost chain: seq<nat>, ghost top: nat)
    returns (nextCluster: nat, ghost clean: bool)
    requires volume.Formatted() && Linked(volume.D(), chain) && currentCluster == chain[|chain| - 1]
    requires TopOk(volume.D().fat, top) && FarPick(top) < |volume.D().data|
    modifies volume`pos, volume`bytes
    ensures volume.Formatted() && |volume.bytes| == |old(volume.bytes)|
    ensures var d := old(volume.D());
            && Picked(d, top, nextCluster) && (clean ==> FindsClean(d.fat, nextCluster)) && InTable(d, currentCluster)
               && WfDisk(Grow(d, currentCluster, nextCluster))
            && volume.D() == Grow(d, currentCluster, nextCluster)
  {
    hide DiskOf, SbOf, WriteEffect, TopOk, MayFind, FindsClean, FarPick, Passed, Linked;
    ghost var d := volume.D();
    LastInVolume(d, chain);
    nextCluster, clean := FindEmptyFatIndex(volume);
    ScanSucceeds(d, top, nextCluster, clean);
    SmallNumber(d, nextCluster);
    var _ := WriteInFatIndex(volume, currentCluster, nextCluster);
    var _ := WriteInFatIndex(volume, nextCluster, END);
  }

  lemma LastInVolume(d: Disk, chain: seq<nat>)
    requires WfDisk(d) && Linked(d, chain)
    ensures var last := chain[|chain| - 1]; InVolume(d, last) && InTable(d, last)
  {
  }

  /** Cluster numbers fit in an entry. */
  lemma SmallNumber(d: Disk, x: nat)
    requires WfDisk(d) && InVolume(d, x)
    ensures x % 0x1_0000 == x && InTable(d, x)
  {
  }

  // ----- one read

  /** How many bytes one call returns. */
  function ReadLen(len: nat, offset: nat, size: nat): nat
    requires offset <= size
  {
    Min(len, Min(size - offset, 512 - offset % 512))
  }

  /** What a read of len bytes at offset of a file b has to give: nothing past its end, else the bytes
      from offset on, as many as asked for unless the file or the 512-byte cluster ends before that. */
  predicate ReadGives(b: seq<Byte>, len: nat, offset: nat, buf: seq<Byte>) {
    if offset > |b| then buf == []
    else
      && |buf| <= len && offset + |buf| <= |b| && buf == b[offset..offset + |buf|] && offset % 512 + |buf| <= 512
      && (|buf| < len ==> offset + |buf| == |b| || offset % 512 + |buf| == 512)
  }

  lemma ReadLenGives(b: seq<Byte>, len: nat, offset: nat)
    ensures ReadGives(b, len, offset, if offset > |b| then [] else b[offset..offset + ReadLen(len, offset, |b|)])
  {
  }

  lemma ChunkSlice(b: seq<Byte>, i: nat, at: nat, n: nat)
    requires 512 * i + at + n <= |b| && at + n <= 512 && n > 0
    ensures at + n <= |Chunk(b, i)| && Chunk(b, i)[at..at + n] == b[512 * i + at..512 * i + at + n]
  {
    var end := if 512 * i + 512 <= |b| then 512 * i + 512 else |b|;
    assert Chunk(b, i) == b[512 * i..end];
    SliceOfSlice(b, 512 * i, end, at, at + n);
  }

  lemma ReadFromChunk(d: Disk, chain: seq<nat>, b: seq<Byte>, offset: nat, n: nat)
    requires FileOk(d, chain, b) && WfDisk(d) && offset <= |b| && n <= |b| - offset && offset % 512 + n <= 512
    ensures offset / 512 <= |chain|
    ensures n > 0 ==> offset / 512 < |chain| && InVolume(d, chain[offset / 512])
                      && Cluster(d, chain[offset / 512])[offset % 512..offset % 512 + n] == b[offset..offset + n]
  {
    var i, at := offset / 512, offset % 512;
    assert |b| == 512 * (|b| / 512) + |b| % 512;
    if n > 0 {
      assert 512 * i + at == offset && 512 * i <= |b| && i < |chain|;
      assert Chunk(b, i) <= Cluster(d, chain[i]);
      ChunkSlice(b, i, at, n);
      hide Chunk, FileOk, Blocks;
      var cluster := Cluster(d, chain[i]);
      assert cluster[..|Chunk(b, i)|] == Chunk(b, i);
      SliceOfSlice(cluster, 0, |Chunk(b, i)|, at, at + n);
    }
  }

  /** read_file: the bytes of the file from offset, up to the end of its cluster. */
  method ReadFile(volume: Volume, dentry: Dirent, len: nat, offset: nat, ghost chain: seq<nat>, ghost b: seq<Byte>)
    returns (buf: seq<Byte>)
    requires volume.Formatted() && Linked(volume.D(), chain) && chain[0] == dentry.head
    requires FileOk(volume.D(), chain, b) && dentry.size == |b| && |b| < 0x8000_0000
    requires len < 0x8000_0000 && offset < 0x1_0000_0000
    modifies volume`pos
    ensures buf == if offset > |b| then [] else b[offset..offset + ReadLen(len, offset, |b|)]
    ensures ReadGives(b, len, offset, buf)
  {
    hide DiskOf, SbOf, ReadAnswer, FileOk, ReadGives, ReadLen, Min;
    ReadLenGives(b, len, offset);
    ghost var d, i := volume.D(), 0;
    var currentCluster, pos := dentry.head, 0;
    if offset > dentry.size {
      return [];
    }
    var left := len;
    if (offset + len) % 0x1_0000_0000 > dentry.size {
      left := dentry.size - offset;
    }
    var clusterOffset := offset % 512;
    var localLen := if left + clusterOffset > 512 then 512 - clusterOffset else left;
    ReadFromChunk(d, chain, b, offset, localLen);
    while offset >= pos + 512
      invariant pos == 512 * i && i <= |chain| && i <= offset / 512
      invariant currentCluster == if i < |chain| then chain[i] else END
      decreases offset - pos
    {
      currentCluster := ReadFatIndex(volume, currentCluster);
      assert Next(d, chain[i]) == NextIn(chain, i);
      pos := pos + 512;
      i := i + 1;
    }
    assert i == offset / 512;
    buf := FetchFromCluster(volume, currentCluster, clusterOffset, localLen);
  }
}
