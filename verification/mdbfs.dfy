// create_dummy of progs/mdbfs.c, and the whole-file round trip it starts.
module Mdbfs {
  import opened Bytes
  import opened Disks
  import opened Dirents
  import opened Allocation
  import opened Views
  import opened Claims
  import opened Volumes
  import opened Routes
  import opened Files
  import opened SqliteIo

  /** fs is fs0 with one new file of contents b. */
  ghost predicate Made(fs0: Tree, fs: Tree, p: Path, name: Name, b: seq<Byte>) {
    IsDir(fs0, p) && fs == MakeNode(fs0, p, name, FileNode(b))
  }

  /** Clusters a file of this size takes beyond its first. */
  function ExtraClusters(size: nat): nat {
    Blocks(size, 512) - 1
  }

  /** After offset bytes of b0 are written: the file made holds them and buff is the rest. */
  ghost predicate Written(fs0: Tree, fs: Tree, p: Path, name: Name, b0: seq<Byte>, offset: int, len: int,
                          buff: seq<Byte>) {
    && 0 <= offset <= |b0| && len == |b0| - offset && buff == b0[offset..] && (offset % 512 == 0 || len == 0)
    && Made(fs0, fs, p, name, b0[..offset])
  }

  lemma WrittenMeans(fs0: Tree, fs: Tree, p: Path, name: Name, b0: seq<Byte>, offset: int, len: int, buff: seq<Byte>)
    requires Written(fs0, fs, p, name, b0, offset, len, buff)
    ensures 0 <= offset <= |b0| && len == |b0| - offset == |buff| && (len > 0 ==> offset % 512 == 0)
    ensures IsFile(fs, Sub(p, name)) && |fs[Sub(p, name)].bytes| == offset
    ensures len == 0 ==> Made(fs0, fs, p, name, b0)
  {
    if len == 0 {
      assert b0[..offset] == b0;
    }
  }

  lemma WrittenMore(fs0: Tree, fs: Tree, p: Path, name: Name, b0: seq<Byte>, offset: int, len: int, buff: seq<Byte>,
                    n: nat)
    requires Written(fs0, fs, p, name, b0, offset, len, buff) && n <= len && ((offset + n) % 512 == 0 || n == len)
    ensures |buff| == len && IsFile(fs, Sub(p, name))
    ensures Written(fs0, AppendBytes(fs, Sub(p, name), buff[..n]), p, name, b0, offset + n, len - n, buff[n..])
  {
    ChunkJoins(b0, offset, n);
  }

  lemma WrittenNothing(fs0: Tree, fs: Tree, p: Path, name: Name, b0: seq<Byte>)
    requires Made(fs0, fs, p, name, [])
    ensures Written(fs0, fs, p, name, b0, 0, |b0|, b0)
  {
    assert b0[..0] == [];
  }

  /** The same for a volume with room for the rest, and the route as it was. */
  ghost predicate Writing(volume: Volume, route: array<Byte>, names: seq<Name>, fs0: Tree, name: Name, b0: seq<Byte>,
                          offset: int, len: int, buff: seq<Byte>)
    reads volume, route
  {
    && volume.Valid() && 0 in route[..] && RouteNames(route[..]) == names && |names| <= 1 && |b0| < 0x8000_0000
       && 0 <= offset
    && Written(fs0, volume.view.fs, Walk(Root, names), name, b0, offset, len, buff)
    && Spare(volume) + Blocks(offset, 512) >= Blocks(|b0|, 512)
  }

  /** One turn of the write loop. */
  method WriteChunk(volume: Volume, route: array<Byte>, fileName: Name, buff: seq<Byte>, len: nat, offset: nat,
                    ghost names: seq<Name>, ghost fs: Tree, ghost buff0: seq<Byte>)
    returns (n: nat)
    requires Writing(volume, route, names, fs, fileName, buff0, offset, len, buff) && len > 0
    modifies volume, route
    ensures |volume.bytes| == |old(volume.bytes)| && 1 <= n <= len <= |buff|
    ensures Writing(volume, route, names, fs, fileName, buff0, offset + n, len - n, buff[n..])
  {
    ghost var p := Walk(Root, names);
    assert FirstOnly(names) == names && RoutePath(route[..]) == p;
    hide Inv, RouteNames, RoutePath, DiskOf, SbOf, AppendBytes, Blocks, Usable, AppendCost, RunKept, Made, Min, Written;
    WrittenMeans(fs, volume.view.fs, p, fileName, buff0, offset, len, buff);
    EnoughLeft(offset, len);
    ghost var clean;
    ghost var fs1 := volume.view.fs;
    n, clean := WriteSqliteFile(volume, route, fileName, buff, len, offset);
    ChunkSize(offset, len, n);
    WrittenMore(fs, fs1, p, fileName, buff0, offset, len, buff, n);
    BlocksAppend(offset, n);
  }

  /** The write loop, from the empty file on. */
  method WriteAll(volume: Volume, route: array<Byte>, fileName: Name, buff0: seq<Byte>, ghost names: seq<Name>,
                  ghost fs: Tree)
    requires Writing(volume, route, names, fs, fileName, buff0, 0, |buff0|, buff0)
    modifies volume, route
    ensures |volume.bytes| == |old(volume.bytes)|
    ensures Writing(volume, route, names, fs, fileName, buff0, |buff0|, 0, [])
  {
    hide Writing;
    var buff, offset, len := buff0, 0, |buff0|;
    while len > 0
      invariant 0 <= offset && 0 <= len && |volume.bytes| == |old(volume.bytes)|
      invariant Writing(volume, route, names, fs, fileName, buff0, offset, len, buff)
      decreases len
    {
      var n := WriteChunk(volume, route, fileName, buff, len, offset, names, fs, buff0);
      buff := buff[n..];
      offset := offset + n;
      len := len - n;
      if n <= 0 {
        break;
      }
    }
    WritingEnds(volume, route, names, fs, fileName, buff0, offset, len, buff);
  }

  lemma WritingEnds(volume: Volume, route: array<Byte>, names: seq<Name>, fs0: Tree, name: Name, b0: seq<Byte>,
                    offset: int, len: int, buff: seq<Byte>)
    requires Writing(volume, route, names, fs0, name, b0, offset, len, buff) && len == 0
    ensures offset == |b0| && buff == []
  {
  }

  /** create_dummy: the loop ends with the whole buffer in a new file. */
  method CreateDummy(volume: Volume, route: array<Byte>, fileName: Name, buff0: seq<Byte>)
    requires volume.Valid() && 0 in route[..] && |RouteNames(route[..])| <= 1 && |buff0| < 0x8000_0000
    requires CanMake(volume.view.fs, RoutePath(route[..]), fileName)
    requires Spare(volume) >= MakeCost(volume.view.fs, RoutePath(route[..])) + ExtraClusters(|buff0|)
    modifies volume, route
    ensures volume.Valid() && |volume.bytes| == |old(volume.bytes)|
    ensures volume.view.fs == MakeNode(old(volume.view.fs), RoutePath(old(route[..])), fileName, FileNode(buff0))
    ensures 0 in route[..] && RouteNames(route[..]) == RouteNames(old(route[..]))
  {
    ghost var fs, p, names := volume.view.fs, RoutePath(route[..]), RouteNames(route[..]);
    assert FirstOnly(names) == names && p == Walk(Root, names);
    hide Inv, RouteNames, DiskOf, SbOf, Usable, RunKept, Blocks, Written;
    var ok;
    ghost var clean;
    ok, clean := Create(volume, route, fileName);
    WrittenNothing(fs, volume.view.fs, p, fileName, buff0);
    WriteAll(volume, route, fileName, buff0, names, fs);
    WrittenMeans(fs, volume.view.fs, p, fileName, buff0, |buff0|, 0, []);
  }

  /** A write that starts a cluster fills it or takes what is left. */
  lemma ChunkSize(offset: nat, len: nat, n: nat)
    requires offset % 512 == 0 && len > 0 && n == Min(len, 512 - offset % 512)
    ensures 1 <= n <= len && n <= 512 && offset % 512 + n <= 512 && ((offset + n) % 512 == 0 || n == len)
  {
  }

  lemma ChunkJoins(b: seq<Byte>, offset: nat, n: nat)
    requires offset + n <= |b|
    ensures b[..offset] + b[offset..][..n] == b[..offset + n] && b[offset..][n..] == b[offset + n..]
  {
    forall k | 0 <= k < n ensures b[offset..][..n][k] == b[..offset + n][offset + k] {
    }
  }

  lemma EnoughLeft(offset: nat, len: nat)
    requires len > 0 && offset % 512 == 0
    ensures Blocks(offset + len, 512) >= Blocks(offset, 512) + AppendCost(offset)
  {
  }

  /** Repeated reads, each going on where the last one stopped, until one returns nothing. */
  method ReadWhole(volume: Volume, route: array<Byte>, fileName: Name, step: nat)
    returns (all: seq<Byte>, last: seq<Byte>)
    requires volume.Valid() && 0 in route[..] && |RouteNames(route[..])| <= 1 && 1 <= step < 0x8000_0000
    requires IsFile(volume.view.fs, Sub(RoutePath(route[..]), fileName))
    modifies volume`pos, route
    ensures all == volume.view.fs[Sub(RoutePath(old(route[..])), fileName)].bytes && last == []
    ensures 0 in route[..] && RouteNames(route[..]) == RouteNames(old(route[..]))
  {
    hide Inv, RouteNames, DiskOf, SbOf;
    ghost var q, names := Sub(RoutePath(route[..]), fileName), RouteNames(route[..]);
    ghost var b := volume.view.fs[q].bytes;
    assert FirstOnly(names) == names;
    FileIsSmall(volume.D(), volume.view, q);
    all := [];
    last := ReadSqliteFile(volume, route, fileName, step, 0);
    while last != []
      invariant 0 in route[..] && RouteNames(route[..]) == names
      invariant |all| <= |b| && all == b[..|all|]
      invariant last == b[|all|..|all| + ReadLen(step, |all|, |b|)]
      decreases |b| - |all|
    {
      assert all + last == b[..|all| + |last|];
      all := all + last;
      last := ReadSqliteFile(volume, route, fileName, step, |all|);
    }
  }

  /** A buffer stored with create_dummy is read back byte for byte, then the reads return nothing. */
  method StoreAndReadBack(volume: Volume, route: array<Byte>, fileName: Name, buff: seq<Byte>, step: nat)
    returns (all: seq<Byte>, last: seq<Byte>)
    requires volume.Valid() && 0 in route[..] && |RouteNames(route[..])| <= 1 && |buff| < 0x8000_0000
    requires CanMake(volume.view.fs, RoutePath(route[..]), fileName) && 1 <= step < 0x8000_0000
    requires Spare(volume) >= MakeCost(volume.view.fs, RoutePath(route[..])) + ExtraClusters(|buff|)
    modifies volume, route
    ensures all == buff && last == [] && volume.Valid()
  {
    hide Inv, RouteNames, DiskOf, SbOf;
    CreateDummy(volume, route, fileName, buff);
    all, last := ReadWhole(volume, route, fileName, step);
  }
}
