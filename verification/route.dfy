// Path resolution of entry.c, driven by the in-place tokeniser.
module Routes {
  import opened Bytes
  import opened Disks
  import opened Dirents
  import opened Views
  import opened Listings
  import opened Volumes
  import opened Strtok
  import opened Fat
  import opened Entry

  /** The components of the C string in a route buffer. */
  function RouteNames(s: seq<Byte>): seq<Name> {
    Tokens(CString(s), SLASH)
  }

  /** The directory a route names. */
  function RoutePath(s: seq<Byte>): Path {
    Walk(Root, RouteNames(s))
  }

  /** What is left of a route after one resolution: its first component. */
  function FirstOnly(names: seq<Name>): seq<Name> {
    if names == [] then [] else [names[0]]
  }

  /** The tokeniser's state in the middle of a route: rest is what has not been resolved yet. */
  ghost predicate Pending(s: seq<Byte>, tok: int, last: int, z: int, rest: seq<Name>) {
    && tok >= -1 && last >= -1 && (tok < 0 <==> rest == [])
    && (tok >= 0 ==> StringAt(s, tok, tok + |rest[0]|) && s[tok..tok + |rest[0]|] == rest[0])
    && (tok >= 0 && last < 0 ==> |rest| == 1)
    && (tok >= 0 && last >= 0 ==> last > tok + |rest[0]| && StringAt(s, last, z)
                                  && Tokens(s[last..z], SLASH) == rest[1..])
  }

  /** The buffer up to its first NUL holds at most the first component. */
  ghost predicate CutAfterFirst(s: seq<Byte>, first: int, names: seq<Name>) {
    StringAt(s, 0, first) && Tokens(s[0..first], SLASH) == FirstOnly(names)
  }

  /** Both at once: between two tokeniser calls. */
  ghost predicate Midway(s: seq<Byte>, tok: int, last: int, z: int, rest: seq<Name>, first: int, names: seq<Name>) {
    Pending(s, tok, last, z, rest) && CutAfterFirst(s, first, names) && (last >= 0 ==> last > first)
  }

  lemma MidwayMeans(s: seq<Byte>, tok: int, last: int, z: int, rest: seq<Name>, first: int, names: seq<Name>)
    requires Midway(s, tok, last, z, rest, first, names)
    ensures tok >= -1 && (tok == -1 <==> rest == [])
    ensures tok >= 0 ==> tok < |s| && CString(s[tok..]) == rest[0]
    ensures 0 in s && RouteNames(s) == FirstOnly(names)
  {
    if tok >= 0 {
      StringAtIs(s, tok, tok + |rest[0]|);
    }
    StringAtIs(s, 0, first);
    assert s[0..] == s;
    assert s[first] == 0;
  }

  method FirstToken(path: array<Byte>, ghost z: int) returns (tok: int, last: int, ghost first: int)
    requires StringAt(path[..], 0, z)
    modifies path
    ensures Midway(path[..], tok, last, z, Tokens(old(path[0..z]), SLASH), first, Tokens(old(path[0..z]), SLASH))
  {
    hide Tokens, Skip, Span;
    ghost var s, names := path[..], Tokens(path[0..z], SLASH);
    assert s[0..z] == path[0..z];
    tok, last := StrtokR(path, 0, SLASH, -1, z);
    first := z;
    if tok >= 0 {
      first := tok + |names[0]|;
      TokensAreComponents(s[0..z], SLASH);
      assert StringAt(path[..], 0, first);
      CutToken(path[..], SLASH, 0, tok, first, first);
    } else {
      assert path[..][0..z] == s[0..z];
    }
  }

  method NextToken(path: array<Byte>, saved: int, ghost z: int, ghost tok0: int, ghost rest: seq<Name>,
                   ghost first: int, ghost names: seq<Name>)
    returns (tok: int, last: int)
    requires rest != [] && Midway(path[..], tok0, saved, z, rest, first, names)
    modifies path
    ensures Midway(path[..], tok, last, z, rest[1..], first, names)
  {
    hide Tokens, Skip, Span;
    ghost var s := path[..];
    assert saved >= 0 ==> s[saved..z] == path[saved..z];
    tok, last := StrtokR(path, -1, SLASH, saved, z);
    assert path[..][0..first] == s[0..first];
  }

  /** The walk has come to cluster i of directory p, and no entry before it is the next component. */
  ghost predicate Descending(d: Disk, v: View, names: seq<Name>, p: Path, i: nat, rest: seq<Name>, number: nat,
                             cluster: seq<Byte>) {
    && Inv(d, v) && IsDir(v.fs, p) && p in v.chain && Linked(d, v.chain[p]) && i < |v.chain[p]|
       && number == v.chain[p][i]
    && Walk(Root, names) == Walk(p, rest) && (rest == [] ==> i == 0)
    && cluster == Cluster(d, number) && |cluster| == 512
    && (rest != [] ==> NoneBefore(d, v.chain[p], Dir(rest[0]), 8 * i))
  }

  lemma StartDescent(d: Disk, v: View, names: seq<Name>)
    requires Inv(d, v)
    ensures InVolume(d, 2) && Descending(d, v, names, Root, 0, names, 2, Cluster(d, 2))
  {
    RootIsDir(d, v);
    NodeIsLinked(d, v, Root);
    hide Inv;
  }

  /** A matching entry leads to the first cluster of the next directory. */
  lemma DescendInto(d: Disk, v: View, names: seq<Name>, p: Path, i: nat, rest: seq<Name>, number: nat,
                    cluster: seq<Byte>, n: nat)
    requires Descending(d, v, names, p, i, rest, number, cluster) && |cluster| == 512 && rest != []
    requires n < 8 && Matches(Dir(rest[0]), EntryIn(cluster, n))
    requires forall e :: 0 <= e < n ==> !Matches(Dir(rest[0]), EntryIn(cluster, e))
    ensures var head := EntryIn(cluster, n).head;
            InVolume(d, head) && Descending(d, v, names, Sub(p, rest[0]), 0, rest[1..], head, Cluster(d, head))
  {
    var want := Dir(rest[0]);
    SearchedCluster(d, v.chain[p], want, i, cluster, n);
    hide Inv, Matches;
    MatchMeans(d, v, p, want, i, n);
    NodeIsLinked(d, v, Sub(p, rest[0]));
    hide NodeOk;
    ClusterSize(d, EntryIn(cluster, n).head);
  }

  /** Without a match the walk goes on to the next cluster, or the directory does not exist. */
  lemma DescendOn(d: Disk, v: View, names: seq<Name>, p: Path, i: nat, rest: seq<Name>, number: nat, cluster: seq<Byte>)
    requires Descending(d, v, names, p, i, rest, number, cluster) && |cluster| == 512 && rest != []
    requires forall e :: 0 <= e < 8 ==> !Matches(Dir(rest[0]), EntryIn(cluster, e))
    ensures InTable(d, number)
    ensures var next := Next(d, number);
            if next == END then !IsDir(v.fs, Walk(Root, names))
            else InVolume(d, next) && i + 1 < |v.chain[p]|
                 && Descending(d, v, names, p, i + 1, rest, next, Cluster(d, next))
  {
    var chain, want := v.chain[p], Dir(rest[0]);
    SearchedCluster(d, chain, want, i, cluster, 8);
    assert Next(d, chain[i]) == NextIn(chain, i);
    if i + 1 < |chain| {
      hide Inv, Matches;
      ClusterSize(d, chain[i + 1]);
    } else {
      hide Matches;
      NoMatchMeans(d, v, p, want);
      WalkStops(d, v, Sub(p, rest[0]), rest[1..]);
    }
  }

  lemma DescentMeans(d: Disk, v: View, names: seq<Name>, p: Path, i: nat, rest: seq<Name>, number: nat,
                     cluster: seq<Byte>)
    requires Descending(d, v, names, p, i, rest, number, cluster)
    ensures |cluster| == 512 && p in v.chain && i < |v.chain[p]|
    ensures rest == [] ==> IsDir(v.fs, Walk(Root, names)) && Walk(Root, names) in v.chain
                           && number == v.chain[Walk(Root, names)][0]
  {
    hide Inv;
  }

  /** get_cluster_number: the head cluster of the directory the route names, or 0.
      The route is cut in place after its first component. */
  method GetClusterNumber(volume: Volume, path: array<Byte>) returns (number: nat)
    requires volume.Valid() && 0 in path[..]
    modifies volume`pos, path
    ensures var p := RoutePath(old(path[..]));
            number == if IsDir(volume.view.fs, p) then volume.view.chain[p][0] else 0
    ensures 0 in path[..] && RouteNames(path[..]) == FirstOnly(RouteNames(old(path[..])))
  {
    hide Tokens, Skip, Span, CString, DiskOf, SbOf, ReadAnswer, Filled, Inv, Midway, Descending, Matches, Walk;
    ghost var d, v, names := volume.D(), volume.view, RouteNames(path[..]);
    ghost var z := |CString(path[..])|;
    assert StringAt(path[..], 0, z) && path[0..z] == CString(path[..]) by {
      NulWithin(path[..]);
    }
    var separated, last;
    ghost var first;
    separated, last, first := FirstToken(path, z);
    hide StringAt;
    MidwayMeans(path[..], separated, last, z, names, first, names);
    var endCluster := GetEndCluster(volume);
    number := 2;
    var cluster := Zeros(512);
    var position: nat;
    ghost var p, i, rest := Root, 0, names;
    StartDescent(d, v, names);
    position, cluster := LoadCluster(volume, number, cluster);
    DescentMeans(d, v, names, p, i, rest, number, cluster);
    while separated != -1
      invariant volume.D() == d && volume.Valid() && separated >= -1 && (separated == -1 <==> rest == [])
      invariant Midway(path[..], separated, last, z, rest, first, names)
      invariant Descending(d, v, names, p, i, rest, number, cluster) && p in v.chain && i < |v.chain[p]|
                && |cluster| == 512
      decreases |rest|, |v.chain[p]| - i
    {
      MidwayMeans(path[..], separated, last, z, rest, first, names);
      var want := Dir(CString(path[separated..]));
      assert path[separated..] == path[..][separated..];
      var n := SearchCluster(cluster, want);
      if n != 8 {
        DescendInto(d, v, names, p, i, rest, number, cluster, n);
        separated, last := NextToken(path, last, z, separated, rest, first, names);
        number := EntryIn(cluster, n).head;
        p, i, rest := Sub(p, rest[0]), 0, rest[1..];
        MidwayMeans(path[..], separated, last, z, rest, first, names);
      } else {
        DescendOn(d, v, names, p, i, rest, number, cluster);
        number := ReadFatIndex(volume, number);
        i := i + 1;
        if number == endCluster {
          number := 0;
          return;
        }
      }
      position, cluster := LoadCluster(volume, number, cluster);
      DescentMeans(d, v, names, p, i, rest, number, cluster);
    }
    MidwayMeans(path[..], separated, last, z, rest, first, names);
    DescentMeans(d, v, names, p, i, rest, number, cluster);
  }

  lemma NulWithin(s: seq<Byte>)
    requires 0 in s
    ensures StringAt(s, 0, |CString(s)|) && s[0..|CString(s)|] == CString(s)
  {
    var r := CString(s);
    assert |r| == |s| ==> r == s;
    assert forall k :: 0 <= k < |r| ==> r[k] == s[k] && r[k] in r;
  }
}
