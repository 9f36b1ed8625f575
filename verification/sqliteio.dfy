// sqliteio.c and create_dummy of progs/mdbfs.c: whole files through the
// one-cluster-per-call interface.
module SqliteIo {
  import opened Bytes
  import opened Disks
  import opened Dirents
  import opened Allocation
  import opened Views
  import opened Listings
  import opened Updates
  import opened Claims
  import opened Volumes
  import opened Entry
  import opened Routes
  import opened Files
  import opened Dirs

  /** Where a second resolution of the same route buffer leads: its first component. */
  function ReusedPath(route: seq<Byte>): Path {
    Walk(Root, FirstOnly(RouteNames(route)))
  }

  /** Reusing a route is harmless exactly when it has at most one component. */
  lemma ReuseIff(route: seq<Byte>)
    ensures ReusedPath(route) == RoutePath(route) <==> |RouteNames(route)| <= 1
  {
    WalkDepth(Root, FirstOnly(RouteNames(route)));
    WalkDepth(Root, RouteNames(route));
    if |RouteNames(route)| <= 1 {
      assert FirstOnly(RouteNames(route)) == RouteNames(route);
    }
  }

  function Depth(p: Path): nat {
    match p
    case Root => 0
    case Sub(parent, _) => 1 + Depth(parent)
  }

  lemma {:induction false} WalkDepth(p: Path, names: seq<Name>)
    ensures Depth(Walk(p, names)) == Depth(p) + |names|
    decreases |names|
  {
    if names != [] {
      WalkDepth(Sub(p, names[0]), names[1..]);
    }
  }

  /** open_sqlite_file: nothing happens when the name is there, else an empty
      file is created. The lookup cuts the route, so the file lands in the
      directory the cut route names. */
  method OpenSqliteFile(volume: Volume, route: array<Byte>, fileName: Name)
    requires volume.Valid() && 0 in route[..] && IsDir(volume.view.fs, RoutePath(route[..])) && fileName != []
    requires Sub(RoutePath(route[..]), fileName) !in volume.view.fs ==>
               CanMake(volume.view.fs, ReusedPath(route[..]), fileName)
               && Spare(volume) >= MakeCost(volume.view.fs, ReusedPath(route[..]))
    modifies volume, route
    ensures volume.Valid() && |volume.bytes| == |old(volume.bytes)|
    ensures var p, fs := RoutePath(old(route[..])), old(volume.view.fs);
            if Sub(p, fileName) in fs then volume.bytes == old(volume.bytes) && volume.view == old(volume.view)
            else volume.view.fs == MakeNode(fs, ReusedPath(old(route[..])), fileName, FileNode([]))
    ensures 0 in route[..] && RouteNames(route[..]) == FirstOnly(RouteNames(old(route[..])))
  {
    hide DiskOf, SbOf, Inv, RouteNames;
    ghost var names := RouteNames(route[..]);
    var kind := Lookup(volume, route, fileName);
    assert FirstOnly(FirstOnly(names)) == FirstOnly(names);
    if kind == FILE_DENTRY || kind == DIR_DENTRY {
    } else {
      ghost var clean;
      var ok;
      ok, clean := Create(volume, route, fileName);
    }
  }

  /** Opening twice is opening once: the second call changes no byte. */
  method OpenTwice(volume: Volume, route: array<Byte>, fileName: Name) returns (ghost after: seq<Byte>)
    requires volume.Valid() && 0 in route[..] && |RouteNames(route[..])| <= 1
    requires IsDir(volume.view.fs, RoutePath(route[..])) && GoodName(fileName)
    requires Sub(RoutePath(route[..]), fileName) !in volume.view.fs ==>
               Spare(volume) >= MakeCost(volume.view.fs, RoutePath(route[..]))
    modifies volume, route
    ensures volume.Valid() && volume.bytes == after && Sub(RoutePath(old(route[..])), fileName) in volume.view.fs
    ensures Sub(RoutePath(old(route[..])), fileName) !in old(volume.view.fs) ==>
              volume.view.fs == MakeNode(old(volume.view.fs), RoutePath(old(route[..])), fileName, FileNode([]))
  {
    hide Inv, RouteNames, DiskOf, SbOf;
    ReuseIff(route[..]);
    ghost var p := RoutePath(route[..]);
    assert FirstOnly(RouteNames(route[..])) == RouteNames(route[..]);
    OpenSqliteFile(volume, route, fileName);
    after := volume.bytes;
    OpenSqliteFile(volume, route, fileName);
  }

  /** What get_dentry finds for an existing file. */
  method FindFile(volume: Volume, clusterNumber: nat, fileName: Name, ghost p: Path)
    returns (dentry: Dirent, ghost i: nat, ghost e: nat)
    requires volume.Valid() && IsFile(volume.view.fs, Sub(p, fileName)) && IsDir(volume.view.fs, p)
    requires clusterNumber == volume.view.chain[p][0]
    modifies volume`pos
    ensures var v := volume.view;
            && p in v.chain && Sub(p, fileName) in v.chain && |v.chain[Sub(p, fileName)]| >= 1 && GoodName(fileName)
            && EntrySlot(v, p, fileName, i, e)
            && Linked(volume.D(), v.chain[p]) && FirstMatch(volume.D(), v.chain[p], File(fileName), i, e)
            && Fits(dentry) && dentry == EntryFor(v, p, fileName)
  {
    hide DiskOf, SbOf, Inv;
    ghost var d, v := volume.D(), volume.view;
    NodeIsLinked(d, v, p);
    NodeIsLinked(d, v, Sub(p, fileName));
    var found;
    found, dentry, i, e := GetDentry(volume, clusterNumber, fileName, v.chain[p]);
    if !found {
      NoMatchMeans(d, v, p, File(fileName));
    }
    MatchMeans(d, v, p, File(fileName), i, e);
  }

  /** A directory that holds a file is a directory. */
  lemma ParentIsDir(d: Disk, v: View, p: Path, name: Name)
    requires Inv(d, v) && Sub(p, name) in v.fs
    ensures IsDir(v.fs, p)
  {
    assert ParentOk(v.fs, Sub(p, name));
  }

  /** A file is no larger than the volume. */
  lemma FileIsSmall(d: Disk, v: View, q: Path)
    requires Inv(d, v) && IsFile(v.fs, q)
    ensures |v.fs[q].bytes| < 0x200_0000 && q in v.chain
    ensures |v.fs[q].bytes| / 512 <= |v.chain[q]|
    ensures AppendCost(|v.fs[q].bytes|) == 1 <==> |v.fs[q].bytes| / 512 == |v.chain[q]|
  {
    NodeIsLinked(d, v, q);
    ChainIsShort(d, v.chain, v.owner, q);
  }

  /** write_sqlite_file at the end of a file: the file grows by the bytes written
      and nothing else in the tree changes. */
  method WriteSqliteFile(volume: Volume, route: array<Byte>, fileName: Name, buff: seq<Byte>, len: nat, offset: nat)
    returns (n: nat, ghost clean: bool)
    requires volume.Valid() && 0 in route[..] && IsFile(volume.view.fs, Sub(RoutePath(route[..]), fileName))
    requires offset == |volume.view.fs[Sub(RoutePath(route[..]), fileName)].bytes|
    requires len <= |buff| && len < 0x8000_0000 && (offset % 512 == 0 || offset % 512 + len <= 512)
    requires len > 0 ==> Spare(volume) >= AppendCost(offset)
    modifies volume, route
    ensures volume.Valid() && |volume.bytes| == |old(volume.bytes)|
    ensures n == Min(len, 512 - offset % 512)
    ensures n <= len && offset % 512 + n <= 512 && (n < len ==> offset % 512 + n == 512)
    ensures volume.view.fs == AppendBytes(old(volume.view.fs), Sub(RoutePath(old(route[..])), fileName), buff[..n])
    ensures var cost := if len > 0 then AppendCost(offset) else 0;
            && Spare(volume) + cost >= old(Spare(volume))
            && RunKept(old(volume.D()), old(volume.view), volume.D(), volume.view, cost, clean)
    ensures 0 in route[..] && RouteNames(route[..]) == FirstOnly(RouteNames(old(route[..])))
  {
    hide DiskOf, SbOf, Inv, RouteNames, RoutePath;
    ghost var p := RoutePath(route[..]);
    ParentIsDir(volume.D(), volume.view, p, fileName);
    var clusterNumber := GetClusterNumber(volume, route);
    n, clean := WriteEntry(volume, clusterNumber, fileName, buff, len, offset, p);
  }

  /** The read-modify-write of one directory entry around write_file. */
  method WriteEntry(volume: Volume, clusterNumber: nat, fileName: Name, buff: seq<Byte>, len: nat, offset: nat,
                    ghost p: Path)
    returns (n: nat, ghost clean: bool)
    requires volume.Valid() && IsFile(volume.view.fs, Sub(p, fileName)) && IsDir(volume.view.fs, p)
    requires clusterNumber == volume.view.chain[p][0]
    requires offset == |volume.view.fs[Sub(p, fileName)].bytes|
    requires len <= |buff| && len < 0x8000_0000 && (offset % 512 == 0 || offset % 512 + len <= 512)
    requires len > 0 ==> Spare(volume) >= AppendCost(offset)
    modifies volume
    ensures volume.Valid() && |volume.bytes| == |old(volume.bytes)|
    ensures n == Min(len, 512 - offset % 512)
    ensures volume.view.fs == AppendBytes(old(volume.view.fs), Sub(p, fileName), buff[..n])
    ensures var cost := if len > 0 then AppendCost(offset) else 0;
            && Spare(volume) + cost >= old(Spare(volume))
            && RunKept(old(volume.D()), old(volume.view), volume.D(), volume.view, cost, clean)
  {
    hide DiskOf, SbOf, Inv, TopOk, FarPick, Linked, Encode, FirstMatch, Usable, EntrySlot, AppendView, Stored,
      ChunkWritten, NodeOk;
    hide AppendCost, KeepsRun;
    ghost var d, v, q := volume.D(), volume.view, Sub(p, fileName);
    var dentry;
    ghost var i, e;
    dentry, i, e := FindFile(volume, clusterNumber, fileName, p);
    NodeIsLinked(d, v, q);
    FileIsSmall(d, v, q);
    ScanReady(d, v, AppendCost(offset));
    FullChainCosts(d, v, q);
    ghost var k;
    var updated;
    n, updated, k, clean := WriteFile(volume, dentry, buff, len, offset, v.chain[q], v.top);
    ChunkFits(offset, len, n);
    ChunkStored(d, v, p, fileName, k, clean, buff[..n], volume.D(), i, e);
    UpdateEntry(volume, clusterNumber, fileName, updated, p, d, k, buff[..n], i, e);
  }

  /** The directory-entry half: alloc_new_entry after the data is written. */
  method UpdateEntry(volume: Volume, clusterNumber: nat, fileName: Name, updated: Dirent, ghost p: Path,
                     ghost d: Disk, ghost k: nat, ghost bs: seq<Byte>, ghost i: nat, ghost e: nat)
    requires volume.Formatted() && |volume.D().data| == |d.data|
    requires Stored(d, volume.view, p, fileName, k, bs, volume.D(), i, e)
    requires clusterNumber == volume.view.chain[p][0] && Fits(updated)
    requires updated == EntryFor(volume.view, p, fileName).(size := |volume.view.fs[Sub(p, fileName)].bytes| + |bs|)
    modifies volume
    ensures volume.Valid() && |volume.bytes| == |old(volume.bytes)|
    ensures volume.view.fs == AppendBytes(old(volume.view.fs), Sub(p, fileName), bs)
    ensures Spare(volume) + (if bs == [] then 0 else AppendCost(|old(volume.view.fs)[Sub(p, fileName)].bytes|))
            >= Usable(|d.data|, old(volume.view.top))
    ensures volume.D().fat == old(volume.D().fat)
    ensures volume.view == if bs == [] then old(volume.view) else AppendView(old(volume.view), Sub(p, fileName), bs, k)
  {
    hide DiskOf, SbOf, Inv, TopOk, MayFind, Encode, FirstMatch, Usable, NoneBefore, EntrySlot, BytesWritten;
    ghost var d2, v := volume.D(), volume.view;
    var ok;
    ghost var i2, e2;
    ok, i2, e2 := AllocNewEntry(volume, clusterNumber, fileName, updated, v.chain[p]);
    EntryFoundAgain(d, v, p, fileName, d2, i, e, ok, i2, e2);
    EntryStored(d, v, p, fileName, k, bs, d2, i, e, updated, volume.D());
    if bs != [] {
      volume.view := AppendView(v, Sub(p, fileName), bs, k);
    } else {
      assert v.fs[Sub(p, fileName)].bytes + [] == v.fs[Sub(p, fileName)].bytes;
    }
  }

  lemma ChunkFits(offset: nat, len: nat, n: nat)
    requires n == Min(len, 512 - offset % 512)
    ensures n <= len && offset % 512 + n <= 512 && (n == 0 <==> len == 0)
  {
  }

  /** A file at the end of a full chain is one an append has to grow. */
  lemma FullChainCosts(d: Disk, v: View, q: Path)
    requires Inv(d, v) && IsFile(v.fs, q)
    ensures q in v.chain && (AppendCost(|v.fs[q].bytes|) == 1 <==> |v.fs[q].bytes| / 512 == |v.chain[q]|)
    ensures AppendCost(|v.fs[q].bytes|) <= 1
  {
    NodeIsLinked(d, v, q);
  }

  /** The volume d2 holds the new bytes; the entry at slot 8i + e still has the old size. */
  ghost predicate Stored(d: Disk, v: View, p: Path, name: Name, k: nat, bs: seq<Byte>, d2: Disk, i: nat, e: nat) {
    && Inv(d, v) && IsFile(v.fs, Sub(p, name)) && GoodName(name) && |v.fs[Sub(p, name)].bytes| % 512 + |bs| <= 512
    && p in v.chain && Sub(p, name) in v.chain && |v.chain[Sub(p, name)]| >= 1
    && (if bs == [] then d2 == d else BytesWritten(d, v, Sub(p, name), k, bs, d2))
    && WfDisk(d) && WfDisk(d2) && |d2.data| == |d.data| && Linked(d, v.chain[p]) && Linked(d2, v.chain[p])
    && (forall j :: 0 <= j < |v.chain[p]| ==> Cluster(d2, v.chain[p][j]) == Cluster(d, v.chain[p][j]))
    && EntrySlot(v, p, name, i, e) && FirstMatch(d, v.chain[p], File(name), i, e)
  }

  /** What write_file leaves, as the update of the tree's proof. */
  lemma ChunkStored(d: Disk, v: View, p: Path, name: Name, k: nat, clean: bool, bs: seq<Byte>, d2: Disk, i: nat, e: nat)
    requires Inv(d, v) && IsFile(v.fs, Sub(p, name)) && p in v.chain && Sub(p, name) in v.chain
             && |v.chain[Sub(p, name)]| >= 1
    requires GoodName(name) && |v.fs[Sub(p, name)].bytes| % 512 + |bs| <= 512
    requires EntrySlot(v, p, name, i, e) && Linked(d, v.chain[p]) && WfDisk(d)
             && FirstMatch(d, v.chain[p], File(name), i, e)
    requires ChunkWritten(d, v.chain[Sub(p, name)], |v.fs[Sub(p, name)].bytes|, v.top, k, clean, bs, d2)
    ensures Stored(d, v, p, name, k, bs, d2, i, e) && WfDisk(d2) && |d2.data| == |d.data|
    ensures bs == [] ==> KeepsRun(d.fat, v.top, d2.fat, v.top, 0, clean)
    ensures bs != [] ==> AppendCost(|v.fs[Sub(p, name)].bytes|) == 1 ==> k >= 2
    ensures bs != [] ==> RunKept(d, v, d2, AppendView(v, Sub(p, name), bs, k), AppendCost(|v.fs[Sub(p, name)].bytes|),
                                 clean)
  {
    hide Inv, EntrySlot, FirstMatch, TopOk, FarPick, Linked, GoodName, KeepsRun;
    if bs == [] {
      NothingKeepsRun(d, v.top, clean);
    } else {
      WriteIsAppend(d, v, p, name, k, clean, bs, d2);
      hide ChunkWritten, BytesWritten;
      BytesKeepRun(d, v, Sub(p, name), k, bs, d2, clean);
    }
  }

  lemma NothingKeepsRun(d: Disk, top: nat, clean: bool)
    ensures KeepsRun(d.fat, top, d.fat, top, 0, clean)
  {
  }

  lemma EntryStored(d: Disk, v: View, p: Path, name: Name, k: nat, bs: seq<Byte>, d2: Disk, i: nat, e: nat,
                    entry: Dirent, d3: Disk)
    requires Stored(d, v, p, name, k, bs, d2, i, e)
    requires Fits(entry) && entry == EntryFor(v, p, name).(size := |v.fs[Sub(p, name)].bytes| + |bs|)
    requires d3 == Patch(d2, v.chain[p][i], 64 * e, Encode(entry))
    ensures bs == [] ==> Inv(d3, v)
    ensures bs != [] ==>
              && (AppendCost(|v.fs[Sub(p, name)].bytes|) == 1 ==> k >= 2)
              && Inv(d3, AppendView(v, Sub(p, name), bs, k))
              && Usable(|d.data|, AppendView(v, Sub(p, name), bs, k).top)
                 + AppendCost(|v.fs[Sub(p, name)].bytes|) >= Usable(|d.data|, v.top)
  {
    hide Inv;
    if bs == [] {
      RewriteSame(d, v, p, name, i, e);
    } else {
      BytesAreWritten(d, v, p, name, k, bs, d2);
      FileAppended(d, v, p, name, k, bs, d2, i, e, entry, d3);
    }
  }

  lemma ScanReady(d: Disk, v: View, cost: nat)
    requires Inv(d, v)
    ensures TopOk(d.fat, v.top)
    ensures Usable(|d.data|, v.top) >= 1 ==> FarPick(v.top) < |d.data|
  {
    UsableIff(|d.data|, v.top);
  }

  /** What write_file does at the end of a file, as the update of the tree's proof. */
  lemma WriteIsAppend(d: Disk, v: View, p: Path, name: Name, k: nat, clean: bool, bs: seq<Byte>, d2: Disk)
    requires Inv(d, v) && IsFile(v.fs, Sub(p, name)) && p in v.chain && Sub(p, name) in v.chain
             && |v.chain[Sub(p, name)]| >= 1
    requires bs != [] && |v.fs[Sub(p, name)].bytes| % 512 + |bs| <= 512
    requires ChunkWritten(d, v.chain[Sub(p, name)], |v.fs[Sub(p, name)].bytes|, v.top, k, clean, bs, d2)
    ensures BytesWritten(d, v, Sub(p, name), k, bs, d2)
    ensures AppendCost(|v.fs[Sub(p, name)].bytes|) == 1 ==> k >= 2 && (clean ==> FindsClean(d.fat, k))
    ensures WfDisk(d2) && |d2.data| == |d.data| && Linked(d, v.chain[p]) && Linked(d2, v.chain[p])
    ensures forall j :: 0 <= j < |v.chain[p]| ==> Cluster(d2, v.chain[p][j]) == Cluster(d, v.chain[p][j])
  {
    hide NodeOk, TopOk, FarPick, ChainsOk, FreeZero, ParentOk, Blocks;
    NodeIsLinked(d, v, Sub(p, name));
    BlocksAppend(|v.fs[Sub(p, name)].bytes|, |bs|);
    hide Inv;
    assert BytesWritten(d, v, Sub(p, name), k, bs, d2);
    hide BytesWritten;
    ParentUntouched(d, v, p, name, k, bs, d2);
  }

  /** The second search of the directory finds the entry the first one found. */
  lemma EntryFoundAgain(d: Disk, v: View, p: Path, name: Name, d2: Disk, i: nat, e: nat, ok: bool, i2: nat, e2: nat)
    requires WfDisk(d) && WfDisk(d2) && p in v.chain && Linked(d, v.chain[p]) && Linked(d2, v.chain[p])
    requires forall j :: 0 <= j < |v.chain[p]| ==> Cluster(d2, v.chain[p][j]) == Cluster(d, v.chain[p][j])
    requires FirstMatch(d, v.chain[p], File(name), i, e)
    requires ok ==> FirstMatch(d2, v.chain[p], File(name), i2, e2)
    requires !ok ==> NoneBefore(d2, v.chain[p], File(name), 8 * |v.chain[p]|)
    ensures ok && i2 == i && e2 == e
  {
    SameDirents(d, d2, v.chain[p], i, e);
    if ok {
      SameFirstMatch(d, d2, v.chain[p], File(name), i, e, i2, e2);
    }
  }

  /** Writing an entry back unchanged changes nothing. */
  lemma RewriteSame(d: Disk, v: View, p: Path, name: Name, i: nat, e: nat)
    requires Inv(d, v) && EntrySlot(v, p, name, i, e)
    requires Sub(p, name) in v.fs && Sub(p, name) in v.chain && |v.chain[Sub(p, name)]| >= 1 && GoodName(name)
    ensures InVolume(d, v.chain[p][i]) && Fits(EntryFor(v, p, name))
    ensures Patch(d, v.chain[p][i], 64 * e, Encode(EntryFor(v, p, name))) == d
  {
    NodeIsLinked(d, v, p);
    assert SlotHolds(d, v, p, i, e);
    var x := v.chain[p][i];
    assert Splice(Cluster(d, x), 64 * e, SlotAt(d, x, e)) == Cluster(d, x);
  }

  /** read_sqlite_file: the file's bytes from offset, at most to the end of a cluster. */
  method ReadSqliteFile(volume: Volume, route: array<Byte>, fileName: Name, len: nat, offset: nat)
    returns (buff: seq<Byte>)
    requires volume.Valid() && 0 in route[..] && IsFile(volume.view.fs, Sub(RoutePath(route[..]), fileName))
    requires len < 0x8000_0000 && offset < 0x1_0000_0000
    modifies volume`pos, route
    ensures var b := volume.view.fs[Sub(RoutePath(old(route[..])), fileName)].bytes;
            buff == if offset > |b| then [] else b[offset..offset + ReadLen(len, offset, |b|)]
    ensures ReadGives(volume.view.fs[Sub(RoutePath(old(route[..])), fileName)].bytes, len, offset, buff)
    ensures 0 in route[..] && RouteNames(route[..]) == FirstOnly(RouteNames(old(route[..])))
  {
    hide DiskOf, SbOf, Inv, RouteNames, RoutePath, ReadGives;
    ghost var d, v, p := volume.D(), volume.view, RoutePath(route[..]);
    ghost var q := Sub(p, fileName);
    ParentIsDir(d, v, p, fileName);
    NodeIsLinked(d, v, q);
    FileIsSmall(d, v, q);
    var clusterNumber := GetClusterNumber(volume, route);
    ghost var cut := route[..];
    var dentry;
    ghost var i, e;
    dentry, i, e := FindFile(volume, clusterNumber, fileName, p);
    buff := ReadFile(volume, dentry, len, offset, v.chain[q], v.fs[q].bytes);
    assert route[..] == cut;
  }
}
