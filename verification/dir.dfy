// dir.c: making, searching and listing directories.
module Dirs {
  import opened Bytes
  import opened Disks
  import opened Dirents
  import opened Views
  import opened Listings
  import opened Claims
  import opened Volumes
  import opened Fat
  import opened Entry
  import opened Routes
  import opened Files

  const FILE_DENTRY: int := 1
  const DIR_DENTRY: int := 2

  /** __mfs_mkdir: an empty directory under the one the route names. Its cluster is never initialised. */
  method Mkdir(volume: Volume, path: array<Byte>, dirName: Name) returns (ok: bool, ghost clean: bool)
    requires volume.Valid() && 0 in path[..]
    requires CanMake(volume.view.fs, RoutePath(path[..]), dirName)
    requires Spare(volume) >= MakeCost(volume.view.fs, RoutePath(path[..]))
    modifies volume, path
    ensures ok && volume.Valid() && |volume.bytes| == |old(volume.bytes)|
    ensures volume.view.fs == MakeNode(old(volume.view.fs), RoutePath(old(path[..])), dirName, DirNode([]))
    ensures var cost := MakeCost(old(volume.view.fs), RoutePath(old(path[..])));
            && Spare(volume) + cost >= old(Spare(volume))
            && RunKept(old(volume.D()), old(volume.view), volume.D(), volume.view, cost, clean)
    ensures 0 in path[..] && RouteNames(path[..]) == FirstOnly(RouteNames(old(path[..])))
  {
    hide DiskOf, SbOf, Inv, RouteNames, RoutePath, RunKept;
    ghost var p := RoutePath(path[..]);
    var clusterNumber := GetClusterNumber(volume, path);
    ok, clean := InsertNew(volume, clusterNumber, NORMAL_DIR, dirName, p);
  }

  /** What a lookup of name in directory p answers. */
  function KindOf(fs: Tree, q: Path): int {
    if IsDir(fs, q) then DIR_DENTRY else if IsFile(fs, q) then FILE_DENTRY else 0
  }

  lemma FoundKind(d: Disk, v: View, p: Path, name: Name, i: nat, e: nat)
    requires Inv(d, v) && IsDir(v.fs, p) && i < |v.chain[p]| && e < 8 && name != []
    requires InVolume(d, v.chain[p][i]) && Matches(Either(name), DirentAt(d, v.chain[p][i], e))
    ensures KindOf(v.fs, Sub(p, name))
            == if IsNormalDir(DirentAt(d, v.chain[p][i], e).attribute) then DIR_DENTRY else FILE_DENTRY
  {
    hide Inv;
    MatchMeans(d, v, p, Either(name), i, e);
  }

  /** __mfs_lookup: the kind of a name in the directory the route names. After
      the last cluster it loads one more, at the end marker, past the end of the volume. */
  method Lookup(volume: Volume, route: array<Byte>, fileName: Name) returns (kind: int)
    requires volume.Valid() && 0 in route[..] && IsDir(volume.view.fs, RoutePath(route[..])) && fileName != []
    modifies volume`pos, route
    ensures kind == KindOf(volume.view.fs, Sub(RoutePath(old(route[..])), fileName))
    ensures var fs, q := volume.view.fs, Sub(RoutePath(old(route[..])), fileName);
            (IsFile(fs, q) ==> kind == 1) && (IsDir(fs, q) ==> kind == 2) && (q !in fs ==> kind == 0)
    ensures 0 in route[..] && RouteNames(route[..]) == FirstOnly(RouteNames(old(route[..])))
  {
    hide DiskOf, SbOf, ReadAnswer, Filled, Inv, RouteNames, RoutePath;
    ghost var d, v, p, want, i := volume.D(), volume.view, RoutePath(route[..]), Either(fileName), 0;
    NodeIsLinked(d, v, p);
    var endCluster := GetEndCluster(volume);
    var currentClusterNumber := GetClusterNumber(volume, route);
    ghost var cut := route[..];
    var position, cluster := LoadCluster(volume, currentClusterNumber, Zeros(512));
    ghost var chain := v.chain[p];
    while currentClusterNumber != endCluster
      invariant i <= |chain| && currentClusterNumber == (if i < |chain| then chain[i] else END)
      invariant |cluster| == 512 && (i < |chain| ==> cluster == Cluster(d, chain[i]))
      invariant NoneBefore(d, chain, want, 8 * i) && route[..] == cut
      decreases |chain| - i
    {
      var n := SearchCluster(cluster, Either(fileName));
      SearchedCluster(d, chain, want, i, cluster, n);
      if n != 8 {
        FoundKind(d, v, p, fileName, i, n);
        return if IsNormalDir(EntryIn(cluster, n).attribute) then DIR_DENTRY else FILE_DENTRY;
      }
      currentClusterNumber := ReadFatIndex(volume, currentClusterNumber);
      assert Next(d, chain[i]) == NextIn(chain, i);
      position, cluster := LoadCluster(volume, currentClusterNumber, cluster);
      i := i + 1;
    }
    NoMatchMeans(d, v, p, want);
    kind := 0;
  }

  /** One listed entry: its name and whether it is a directory. */
  datatype Listed = Listed(name: Name, isDir: bool)

  /** The listing the tree gives for the first n entries of p. */
  function ListingOf(fs: Tree, p: Path, n: nat): seq<Listed>
    requires IsDir(fs, p) && n <= |fs[p].names|
  {
    if n == 0 then [] else ListingOf(fs, p, n - 1) + [Listed(fs[p].names[n - 1], IsDir(fs, Sub(p, fs[p].names[n - 1])))]
  }

  /** Every entry stands at its number in creation order, with its name and kind. */
  ghost predicate Lists(fs: Tree, p: Path, out: seq<Listed>)
    requires IsDir(fs, p)
  {
    && |out| == |fs[p].names|
    && forall j :: 0 <= j < |out| ==> out[j] == Listed(fs[p].names[j], IsDir(fs, Sub(p, fs[p].names[j])))
  }

  lemma {:induction false} ListingIs(fs: Tree, p: Path, n: nat)
    requires IsDir(fs, p) && n <= |fs[p].names|
    ensures |ListingOf(fs, p, n)| == n
    ensures forall j :: 0 <= j < n
                        ==> ListingOf(fs, p, n)[j] == Listed(fs[p].names[j], IsDir(fs, Sub(p, fs[p].names[j])))
  {
    if n > 0 {
      ListingIs(fs, p, n - 1);
    }
  }

  /** What the readdir loop emits for one cluster. */
  method EmitCluster(cluster: seq<Byte>) returns (out: seq<Listed>)
    requires |cluster| == 512
    ensures out == Emitted(cluster, 8)
  {
    hide EntryIn, CString;
    out := [];
    var n := 0;
    while n != 8
      invariant 0 <= n <= 8 && out == Emitted(cluster, n)
    {
      assert out + [] == out;
      var current := EntryIn(cluster, n);
      if IsNormalDir(current.attribute) {
        out := out + [Listed(CString(current.name), true)];
      } else if IsNormalFile(current.attribute) {
        out := out + [Listed(CString(current.name), false)];
      }
      n := n + 1;
    }
  }

  function Emitted(cluster: seq<Byte>, n: nat): seq<Listed>
    requires |cluster| == 512 && n <= 8
  {
    if n == 0 then [] else
      var current := EntryIn(cluster, n - 1);
      Emitted(cluster, n - 1)
      + if IsNormalDir(current.attribute) || IsNormalFile(current.attribute)
        then [Listed(CString(current.name), IsNormalDir(current.attribute))] else []
  }

  function Upto(n: nat, bound: nat): nat {
    if n < bound then n else bound
  }

  /** What the listing gains from slot 8i + e. */
  lemma EmittedEntry(d: Disk, v: View, p: Path, i: nat, cluster: seq<Byte>, e: nat)
    requires Inv(d, v) && IsDir(v.fs, p) && i < |v.chain[p]| && InVolume(d, v.chain[p][i])
             && cluster == Cluster(d, v.chain[p][i])
    requires |cluster| == 512 && e < 8
    ensures var names, j := v.fs[p].names, 8 * i + e;
            Emitted(cluster, e + 1) == Emitted(cluster, e) + if j < |names|
              then [Listed(names[j], IsDir(v.fs, Sub(p, names[j])))] else []
  {
    SlotMeans(d, v, p, i, e);
    hide Inv;
    assert DirentAt(d, v.chain[p][i], e) == EntryIn(cluster, e);
  }

  lemma ListingStep(fs: Tree, p: Path, n: nat)
    requires IsDir(fs, p) && n < |fs[p].names|
    ensures ListingOf(fs, p, n + 1) == ListingOf(fs, p, n) + [Listed(fs[p].names[n], IsDir(fs, Sub(p, fs[p].names[n])))]
  {
  }

  lemma NothingEmitted(cluster: seq<Byte>)
    requires |cluster| == 512
    ensures Emitted(cluster, 0) == []
  {
  }

  /** The entries emitted for cluster i of p continue the tree's listing. */
  lemma {:induction false} EmittedIsListing(d: Disk, v: View, p: Path, i: nat, cluster: seq<Byte>, n: nat)
    requires Inv(d, v) && IsDir(v.fs, p) && i < |v.chain[p]| && InVolume(d, v.chain[p][i])
             && cluster == Cluster(d, v.chain[p][i])
    requires |cluster| == 512 && n <= 8
    ensures var names := v.fs[p].names;
            ListingOf(v.fs, p, Upto(8 * i, |names|)) + Emitted(cluster, n)
              == ListingOf(v.fs, p, Upto(8 * i + n, |names|))
  {
    hide Inv, Emitted, ListingOf, Cluster;
    var names := v.fs[p].names;
    var before := ListingOf(v.fs, p, Upto(8 * i, |names|));
    if n == 0 {
      assert before + [] == before && Emitted(cluster, 0) == [] by { NothingEmitted(cluster); }
    } else {
      EmittedIsListing(d, v, p, i, cluster, n - 1);
      EmittedEntry(d, v, p, i, cluster, n - 1);
      var j := 8 * i + n - 1;
      if j < |names| {
        ListingStep(v.fs, p, j);
        var one := Listed(names[j], IsDir(v.fs, Sub(p, names[j])));
        assert before + (Emitted(cluster, n - 1) + [one]) == before + Emitted(cluster, n - 1) + [one];
      } else {
        assert Emitted(cluster, n - 1) + [] == Emitted(cluster, n - 1);
      }
    }
  }

  const PATH_BUFFER: nat := 1024

  /** strncpy into a buffer of its own: the string, then NULs to the end. */
  method CopyRoute(route: array<Byte>) returns (path: array<Byte>)
    requires 0 in route[..] && |CString(route[..])| < PATH_BUFFER
    ensures fresh(path) && path.Length == 1024 && 0 in path[..] && CString(path[..]) == CString(route[..])
  {
    hide CString;
    path := new Byte[PATH_BUFFER](i => 0);
    ghost var s, text := route[..], CString(route[..]);
    assert |text| < |s| && s[|text|] == 0 && forall k :: 0 <= k < |text| ==> s[k] != 0 by { NulWithin(s); }
    var i := 0;
    while route[i] != 0
      invariant 0 <= i <= |text| && path[..i] == s[..i]
      invariant forall k :: i <= k < PATH_BUFFER ==> path[k] == 0
      decreases |text| - i
    {
      path[i] := route[i];
      i := i + 1;
    }
    assert path[..][i] == 0;
    CStringIs(path[..], text);
  }

  /** __mfs_readdir: every entry of the directory once, in creation order. It resolves
      a copy, so the caller's route stays whole. */
  method Readdir(volume: Volume, route: array<Byte>) returns (out: seq<Listed>)
    requires volume.Valid() && 0 in route[..] && |CString(route[..])| < PATH_BUFFER
    modifies volume`pos
    ensures var p := RoutePath(route[..]);
            out == if IsDir(volume.view.fs, p) then ListingOf(volume.view.fs, p, |volume.view.fs[p].names|) else []
    ensures var fs, p := volume.view.fs, RoutePath(route[..]); if IsDir(fs, p) then Lists(fs, p, out) else out == []
    ensures route[..] == old(route[..])
  {
    ghost var p := RoutePath(route[..]);
    var path := CopyRoute(route);
    assert RoutePath(path[..]) == p;
    hide Inv, RouteNames, RoutePath;
    var currentClusterNumber := GetClusterNumber(volume, path);
    if currentClusterNumber == 0 {
      HeadIsNotZero(volume.D(), volume.view, p);
      return [];
    }
    out := ListDirectory(volume, currentClusterNumber, p);
    ListingIs(volume.view.fs, p, |volume.view.fs[p].names|);
  }

  lemma HeadIsNotZero(d: Disk, v: View, p: Path)
    requires Inv(d, v)
    ensures IsDir(v.fs, p) ==> p in v.chain && |v.chain[p]| >= 1 && v.chain[p][0] != 0
  {
    if IsDir(v.fs, p) {
      NodeIsLinked(d, v, p);
    }
  }

  /** The walk of readdir over the chain of directory p. */
  method ListDirectory(volume: Volume, clusterNumber: nat, ghost p: Path) returns (out: seq<Listed>)
    requires volume.Valid() && IsDir(volume.view.fs, p) && clusterNumber == volume.view.chain[p][0]
    modifies volume`pos
    ensures out == ListingOf(volume.view.fs, p, |volume.view.fs[p].names|)
  {
    hide DiskOf, SbOf, ReadAnswer, Filled, Inv, Emitted;
    ghost var d, v, i := volume.D(), volume.view, 0;
    NodeIsLinked(d, v, p);
    ghost var chain, names := v.chain[p], v.fs[p].names;
    FullIff(d, v, p);
    hide NodeOk;
    var currentClusterNumber := clusterNumber;
    out := [];
    var endCluster := GetEndCluster(volume);
    var position, cluster := LoadCluster(volume, currentClusterNumber, Zeros(512));
    while currentClusterNumber != endCluster
      invariant i <= |chain| && currentClusterNumber == (if i < |chain| then chain[i] else END)
      invariant |cluster| == 512 && (i < |chain| ==> cluster == Cluster(d, chain[i]))
      invariant out == ListingOf(v.fs, p, Upto(8 * i, |names|))
      decreases |chain| - i
    {
      var more := EmitCluster(cluster);
      EmittedIsListing(d, v, p, i, cluster, 8);
      out := out + more;
      currentClusterNumber := ReadFatIndex(volume, currentClusterNumber);
      assert Next(d, chain[i]) == NextIn(chain, i);
      position, cluster := LoadCluster(volume, currentClusterNumber, cluster);
      i := i + 1;
    }
    assert i == |chain|;
  }
}
