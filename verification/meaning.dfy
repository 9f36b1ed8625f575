// What the invariant says of every reachable volume, in plain terms.
module Meaning {
  import opened Bytes
  import opened Disks
  import opened Dirents
  import opened Views
  import opened Listings
  import opened Updates
  import opened Claims

  /** x is the i-th cluster of the chain of p. */
  ghost predicate OnChain(v: View, p: Path, i: nat, x: nat) {
    p in v.chain && i < |v.chain[p]| && v.chain[p][i] == x
  }

  /** A table entry is non-zero exactly when its cluster is on a chain, and then on one chain, at one place. */
  lemma UsedIffOnOneChain(d: Disk, v: View, x: nat)
    requires Inv(d, v) && InTable(d, x)
    ensures Next(d, x) != 0 <==> exists p, i :: OnChain(v, p, i, x)
    ensures forall p, i, q, j :: OnChain(v, p, i, x) && OnChain(v, q, j, x) ==> p == q && i == j
  {
    if x in v.owner {
      assert OwnedAt(d, v.chain, v.owner, x);
      ChainIsLinked(d, v.chain, v.owner, v.owner[x].path);
      LinkedIsNonZero(d, v.chain[v.owner[x].path], v.owner[x].index);
      assert OnChain(v, v.owner[x].path, v.owner[x].index, x);
    } else {
      assert Next(d, x) == 0;
    }
  }

  /** Every chain starts at its node's head, follows the table and ends at the end marker, all in the volume. */
  lemma ChainsFollowTable(d: Disk, v: View, p: Path)
    requires Inv(d, v) && p in v.fs
    ensures p in v.chain && Linked(d, v.chain[p]) && |v.chain[p]| <= |d.data|
    ensures Next(d, v.chain[p][|v.chain[p]| - 1]) == 0xFFFF
  {
    NodeIsLinked(d, v, p);
    ChainIsShort(d, v.chain, v.owner, p);
    assert Next(d, v.chain[p][|v.chain[p]| - 1]) == NextIn(v.chain[p], |v.chain[p]| - 1);
  }

  /** A file of s bytes owns max(1, ceil(s / 512)) clusters, a directory of n entries max(1, ceil(n / 8)). */
  lemma SpaceLaw(d: Disk, v: View, p: Path)
    requires Inv(d, v) && p in v.fs
    ensures p in v.chain
    ensures var units := if v.fs[p].FileNode? then |v.fs[p].bytes| else |v.fs[p].names|;
            var per := if v.fs[p].FileNode? then 512 else 8;
            |v.chain[p]| >= 1 && units <= per * |v.chain[p]| && (|v.chain[p]| > 1 ==> per * (|v.chain[p]| - 1) < units)
  {
    NodeIsLinked(d, v, p);
  }

  /** A cluster on no chain reads as eight empty directory slots. */
  lemma FreeClustersAreEmptySlots(d: Disk, v: View, x: nat, e: nat)
    requires Inv(d, v) && InVolume(d, x) && Next(d, x) == 0 && e < 8
    ensures Cluster(d, x) == Zeros(512) && Matches(Free, DirentAt(d, x, e))
  {
    FreeIsUnowned(d, v.chain, v.owner, x);
    assert Cluster(d, x) == Zeros(512);
    assert SlotAt(d, x, e) == Zeros(64);
    ZerosAreFree();
  }

  /** A route fails to resolve exactly when some component is missing below a directory that is there. */
  lemma {:induction false} MissingComponentIff(d: Disk, v: View, p: Path, names: seq<Name>)
    requires Inv(d, v) && IsDir(v.fs, p)
    ensures !IsDir(v.fs, Walk(p, names)) <==>
              exists k :: 0 <= k < |names| && IsDir(v.fs, Walk(p, names[..k])) && !IsDir(v.fs, Walk(p, names[..k + 1]))
    decreases |names|
  {
    if names != [] {
      var q, rest := Sub(p, names[0]), names[1..];
      forall k | 0 <= k < |names| ensures Walk(p, names[..k + 1]) == Walk(q, rest[..k]) {
        assert names[..k + 1][1..] == rest[..k];
      }
      assert Walk(p, names[..0]) == p && Walk(q, rest[..0]) == q;
      assert rest[..|rest|] == rest;
      if IsDir(v.fs, q) {
        MissingComponentIff(d, v, q, rest);
        if k :| 0 <= k < |rest| && IsDir(v.fs, Walk(q, rest[..k])) && !IsDir(v.fs, Walk(q, rest[..k + 1])) {
          assert Walk(p, names[..k + 1]) == Walk(q, rest[..k]) && Walk(p, names[..k + 1 + 1]) == Walk(q, rest[..k + 1]);
        }
        if k :| 0 <= k < |names| && IsDir(v.fs, Walk(p, names[..k])) && !IsDir(v.fs, Walk(p, names[..k + 1])) {
          assert k > 0;
          assert Walk(p, names[..k - 1 + 1]) == Walk(q, rest[..k - 1])
                 && Walk(p, names[..k + 1]) == Walk(q, rest[..k - 1 + 1]);
        }
      } else {
        WalkStops(d, v, q, rest);
        assert Walk(p, names[..0 + 1]) == Walk(q, rest[..0]);
      }
    }
  }

  // ----- the bytes determine the tree

  lemma {:induction false} SamePrefix(d: Disk, a: seq<nat>, b: seq<nat>, n: nat)
    requires Linked(d, a) && Linked(d, b) && a[0] == b[0] && n < |a| && n < |b|
    ensures a[n] == b[n]
  {
    if n > 0 {
      SamePrefix(d, a, b, n - 1);
      assert Next(d, a[n - 1]) == NextIn(a, n - 1) && Next(d, b[n - 1]) == NextIn(b, n - 1);
    }
  }

  /** Two chains with the same head are the same chain. */
  lemma ChainIsDetermined(d: Disk, a: seq<nat>, b: seq<nat>)
    requires WfDisk(d) && Linked(d, a) && Linked(d, b) && a[0] == b[0]
    ensures a == b
  {
    NotLonger(d, a, b);
    NotLonger(d, b, a);
    forall n | 0 <= n < |a| ensures a[n] == b[n] {
      SamePrefix(d, a, b, n);
    }
  }

  lemma NotLonger(d: Disk, a: seq<nat>, b: seq<nat>)
    requires WfDisk(d) && Linked(d, a) && Linked(d, b) && a[0] == b[0]
    ensures |a| <= |b|
  {
    if |b| < |a| {
      var n := |b| - 1;
      SamePrefix(d, a, b, n);
      assert Next(d, b[n]) == NextIn(b, n);
      NotLast(d, a, n);
    }
  }

  lemma NotLast(d: Disk, a: seq<nat>, n: nat)
    requires WfDisk(d) && Linked(d, a) && n + 1 < |a|
    ensures Next(d, a[n]) != END
  {
    assert InVolume(d, a[n + 1]);
    assert Next(d, a[n]) == NextIn(a, n);
  }

  lemma BytesAreDetermined(d: Disk, ch: seq<nat>, a: seq<Byte>, b: seq<Byte>)
    requires FileOk(d, ch, a) && FileOk(d, ch, b) && |a| == |b|
    ensures a == b
  {
    forall k | 0 <= k < |a| ensures a[k] == b[k] {
      var i := k / 512;
      assert Chunk(a, i) <= Cluster(d, ch[i]) && Chunk(b, i) <= Cluster(d, ch[i]);
      assert Chunk(a, i)[k % 512] == a[k] && Chunk(b, i)[k % 512] == b[k];
    }
  }

  lemma NoMoreNames(d: Disk, v: View, w: View, p: Path)
    requires Inv(d, v) && Inv(d, w) && IsDir(v.fs, p) && IsDir(w.fs, p) && v.chain[p] == w.chain[p]
    ensures |w.fs[p].names| <= |v.fs[p].names|
  {
    hide Inv;
    FullIff(d, w, p);
    var j := |v.fs[p].names|;
    if j < |w.fs[p].names| {
      SlotMeans(d, v, p, j / 8, j % 8);
      SlotMeans(d, w, p, j / 8, j % 8);
    }
  }

  lemma NamesAreDetermined(d: Disk, v: View, w: View, p: Path)
    requires Inv(d, v) && Inv(d, w) && IsDir(v.fs, p) && IsDir(w.fs, p) && v.chain[p] == w.chain[p]
    ensures v.fs[p] == w.fs[p]
  {
    hide Inv;
    NoMoreNames(d, v, w, p);
    NoMoreNames(d, w, v, p);
    FullIff(d, v, p);
    forall j | 0 <= j < |v.fs[p].names| ensures v.fs[p].names[j] == w.fs[p].names[j] {
      SlotMeans(d, v, p, j / 8, j % 8);
      SlotMeans(d, w, p, j / 8, j % 8);
    }
  }

  lemma {:induction false} NodeIsDetermined(d: Disk, v: View, w: View, p: Path)
    requires Inv(d, v) && Inv(d, w) && p in v.fs
    ensures p in w.fs && p in v.chain && p in w.chain && v.chain[p] == w.chain[p] && v.fs[p] == w.fs[p]
    decreases p
  {
    NodeIsLinked(d, v, p);
    match p {
      case Root =>
        RootIsDir(d, v);
        RootIsDir(d, w);
        NodeIsLinked(d, w, p);
        ChainIsDetermined(d, v.chain[p], w.chain[p]);
        NamesAreDetermined(d, v, w, p);
      case Sub(parent, name) =>
        assert ParentOk(v.fs, p);
        NodeIsDetermined(d, v, w, parent);
        SameEntryBothWays(d, v, w, parent, name);
        NodeIsLinked(d, w, p);
        ChainIsDetermined(d, v.chain[p], w.chain[p]);
        if v.fs[p].DirNode? {
          NamesAreDetermined(d, v, w, p);
        } else {
          BytesAreDetermined(d, v.chain[p], v.fs[p].bytes, w.fs[p].bytes);
        }
    }
  }

  lemma SameEntryBothWays(d: Disk, v: View, w: View, p: Path, name: Name)
    requires Inv(d, v) && Inv(d, w) && IsDir(v.fs, p) && IsDir(w.fs, p) && v.chain[p] == w.chain[p]
             && v.fs[p] == w.fs[p]
    requires name in v.fs[p].names
    ensures var q := Sub(p, name);
            && q in v.fs && q in w.fs && |v.chain[q]| >= 1 && |w.chain[q]| >= 1 && v.chain[q][0] == w.chain[q][0]
            && (v.fs[q].DirNode? <==> w.fs[q].DirNode?)
            && (v.fs[q].FileNode? && w.fs[q].FileNode? ==> |v.fs[q].bytes| == |w.fs[q].bytes|)
  {
    hide Inv;
    NodeIsLinked(d, v, p);
    var j :| 0 <= j < |v.fs[p].names| && v.fs[p].names[j] == name;
    FullIff(d, v, p);
    SlotMeans(d, v, p, j / 8, j % 8);
    SlotMeans(d, w, p, j / 8, j % 8);
  }

  /** A volume stands for one tree only: nothing but its bytes decides names, order and contents. */
  lemma TreeIsDetermined(d: Disk, v: View, w: View)
    requires Inv(d, v) && Inv(d, w)
    ensures v.fs == w.fs && v.chain == w.chain
  {
    forall p | p in v.fs || p in w.fs
      ensures p in v.fs && p in w.fs && p in v.chain && p in w.chain && v.fs[p] == w.fs[p] && v.chain[p] == w.chain[p]
    {
      if p in v.fs { NodeIsDetermined(d, v, w, p); } else { NodeIsDetermined(d, w, v, p); }
    }
    assert v.fs == w.fs && v.chain == w.chain;
  }
}
