// Every update of the volume keeps the invariant: the value-level proofs behind
// create, mkdir and append.
module Updates {
  import opened Bytes
  import opened Disks
  import opened Dirents
  import opened Allocation
  import opened Views

  /** q keeps its kind, its size and its head cluster, so its directory entry stays right. */
  ghost predicate SameEntry(v: View, v': View, q: Path) {
    && q in v.fs && q in v'.fs && q in v.chain && q in v'.chain
    && |v.chain[q]| >= 1 && |v'.chain[q]| >= 1 && v.chain[q][0] == v'.chain[q][0]
    && (v.fs[q] == v'.fs[q] || (v.fs[q].DirNode? && v'.fs[q].DirNode?))
  }

  lemma DirFrame(d: Disk, v: View, d': Disk, v': View, r: Path)
    requires WfDisk(d) && WfDisk(d') && |d.data| == |d'.data|
    requires IsDir(v.fs, r) && r in v.chain && DirOk(d, v, r)
    requires r in v'.fs && v'.fs[r] == v.fs[r] && r in v'.chain && v'.chain[r] == v.chain[r]
    requires forall i :: 0 <= i < |v.chain[r]| && InVolume(d, v.chain[r][i])
                         ==> Cluster(d', v.chain[r][i]) == Cluster(d, v.chain[r][i])
    requires forall j :: 0 <= j < |v.fs[r].names| ==> SameEntry(v, v', Sub(r, v.fs[r].names[j]))
    ensures DirOk(d', v', r)
  {
    var ch, names := v.chain[r], v.fs[r].names;
    forall i, e | 0 <= i < |ch| && 0 <= e < 8
      ensures SlotHolds(d', v', r, i, e)
    {
      assert SlotAt(d, ch[i], e) == SlotAt(d', ch[i], e);
      assert SlotHolds(d, v, r, i, e);
      if 8 * i + e < |names| {
        assert SameEntry(v, v', Sub(r, names[8 * i + e]));
        assert EntryFor(v', r, names[8 * i + e]) == EntryFor(v, r, names[8 * i + e]);
      }
    }
  }

  lemma FileFrame(d: Disk, d': Disk, ch: seq<nat>, b: seq<Byte>)
    requires WfDisk(d) && WfDisk(d') && |d.data| == |d'.data| && FileOk(d, ch, b)
    requires forall i :: 0 <= i < |ch| && InVolume(d, ch[i]) ==> Cluster(d', ch[i]) == Cluster(d, ch[i])
    ensures FileOk(d', ch, b)
  {
  }

  /** The state between claiming clusters and writing contents: the chains and
      the tree are the new ones, every byte of data is still the old one. */
  ghost predicate Claimed(d: Disk, v: View, d': Disk, v': View, grown: Path) {
    && WfDisk(d') && d'.data == d.data && |d'.fat| == |d.fat|
    && ChainsOk(d', v'.chain, v'.owner)
    && TopOk(d'.fat, v'.top) && v'.top <= |d.data|
    && v'.fs.Keys == v'.chain.Keys
    && (forall x :: x in v.owner ==> x in v'.owner)
    && (forall r :: r in v.chain ==> r in v'.chain
                                     && (v'.chain[r] == v.chain[r] || (r == grown && v.chain[r] <= v'.chain[r])))
    && (forall x :: x in v'.owner && x !in v.owner ==> Cluster0(d', x))
  }

  ghost predicate Cluster0(d: Disk, x: nat) {
    InVolume(d, x) && Cluster(d, x) == Zeros(512)
  }

  lemma PatchedElsewhere(d: Disk, chain: map<Path, seq<nat>>, owner: map<nat, Place>, p: Path, i: nat, at: nat,
                         bs: seq<Byte>, r: Path)
    requires WfDisk(d) && ChainsOk(d, chain, owner) && p in chain && i < |chain[p]| && r in chain && r != p
             && at + |bs| <= 512
    ensures InVolume(d, chain[p][i]) && WfDisk(Patch(d, chain[p][i], at, bs))
    ensures forall j :: 0 <= j < |chain[r]| && InVolume(d, chain[r][j]) ==>
              Cluster(Patch(d, chain[p][i], at, bs), chain[r][j]) == Cluster(d, chain[r][j])
  {
    ChainIsLinked(d, chain, owner, p);
    assert chain[p][i] in owner;
    forall j | 0 <= j < |chain[r]| ensures chain[r][j] != chain[p][i] {
      assert chain[r][j] in owner;
    }
  }

  lemma SameTableSameChains(d: Disk, d': Disk, chain: map<Path, seq<nat>>, owner: map<nat, Place>)
    requires ChainsOk(d, chain, owner) && d'.fat == d.fat && |d'.data| == |d.data|
    ensures ChainsOk(d', chain, owner)
  {
    forall x | x in owner ensures OwnedAt(d', chain, owner, x) {
      assert OwnedAt(d, chain, owner, x);
    }
    forall x | InTable(d', x) ensures Next(d', x) == Next(d, x) {
    }
  }

  /** Patching a cluster that is on a chain changes no link and no free cluster. */
  lemma PatchKeepsChains(d: Disk, chain: map<Path, seq<nat>>, owner: map<nat, Place>, p: Path, i: nat, at: nat,
                         bs: seq<Byte>)
    requires WfDisk(d) && ChainsOk(d, chain, owner) && FreeZero(d, owner) && p in chain && i < |chain[p]|
             && at + |bs| <= 512
    ensures InVolume(d, chain[p][i])
    ensures ChainsOk(Patch(d, chain[p][i], at, bs), chain, owner) && FreeZero(Patch(d, chain[p][i], at, bs), owner)
  {
    ChainIsLinked(d, chain, owner, p);
    var x := chain[p][i];
    SameTableSameChains(d, Patch(d, x, at, bs), chain, owner);
    PatchKeepsFreeZero(d, owner, x, at, bs);
  }

  lemma PatchKeepsFreeZero(d: Disk, owner: map<nat, Place>, x: nat, at: nat, bs: seq<Byte>)
    requires WfDisk(d) && FreeZero(d, owner) && InVolume(d, x) && x in owner && at + |bs| <= 512
    ensures FreeZero(Patch(d, x, at, bs), owner)
  {
    var d' := Patch(d, x, at, bs);
    forall y | InVolume(d', y) && y !in owner ensures Cluster(d', y) == Zeros(512) {
      assert Cluster(d', y) == Cluster(d, y);
    }
  }

  lemma ClaimedKeepsFreeZero(d: Disk, v: View, d': Disk, v': View, grown: Path)
    requires FreeZero(d, v.owner) && Claimed(d, v, d', v', grown)
    ensures FreeZero(d', v'.owner)
  {
    forall x | InVolume(d', x) && x !in v'.owner ensures Cluster(d', x) == Zeros(512) {
      assert Cluster(d, x) == Zeros(512);
    }
  }

  // ----- a new entry in a directory

  ghost predicate MakesEntry(d: Disk, v: View, d': Disk, v': View, p: Path, name: Name, node: Node, i: nat, e: nat)
  {
    && Inv(d, v) && CanMake(v.fs, p, name) && (node == DirNode([]) || node == FileNode([]))
    && Claimed(d, v, d', v', p)
    && v'.fs == MakeNode(v.fs, p, name, node)
    && |v'.chain[Sub(p, name)]| == 1 && v'.chain[Sub(p, name)][0] !in v.owner
    && |v'.chain[p]| == Blocks(|v.fs[p].names| + 1, 8)
    && e < 8 && 8 * i + e == |v.fs[p].names| && i < |v'.chain[p]|
  }

  function EntryBytes(v: View, p: Path, name: Name): (s: seq<Byte>)
    requires |name| <= 23 && Sub(p, name) in v.fs && Sub(p, name) in v.chain && |v.chain[Sub(p, name)]| >= 1
    requires Fits(EntryFor(v, p, name))
    ensures |s| == 64
  {
    Encode(EntryFor(v, p, name))
  }

  lemma NewEntryFits(d: Disk, v: View, d': Disk, v': View, p: Path, name: Name, node: Node, i: nat, e: nat)
    requires MakesEntry(d, v, d', v', p, name, node, i, e)
    ensures Fits(EntryFor(v', p, name)) && InVolume(d', v'.chain[p][i])
  {
    ChainIsLinked(d', v'.chain, v'.owner, p);
    ChainIsLinked(d', v'.chain, v'.owner, Sub(p, name));
  }

  /** An empty directory or file on one cluster of zeros. */
  lemma EmptyNodeOk(d: Disk, v: View, q: Path)
    requires WfDisk(d) && q in v.fs && q in v.chain && (v.fs[q] == DirNode([]) || v.fs[q] == FileNode([]))
    requires |v.chain[q]| == 1 && InVolume(d, v.chain[q][0]) && Cluster(d, v.chain[q][0]) == Zeros(512)
    ensures NodeOk(d, v, q)
  {
    if v.fs[q].DirNode? {
      forall e | 0 <= e < 8 ensures SlotHolds(d, v, q, 0, e) {
      }
    }
  }

  /** Writing entry e of cluster i of a chain changes no other entry of that chain. */
  lemma PatchedSlot(d: Disk, chain: map<Path, seq<nat>>, owner: map<nat, Place>, p: Path, i: nat, e: nat, bs: seq<Byte>,
                    i2: nat, e2: nat)
    requires WfDisk(d) && ChainsOk(d, chain, owner) && p in chain && i < |chain[p]| && e < 8 && |bs| == 64
    requires i2 < |chain[p]| && e2 < 8
    ensures InVolume(d, chain[p][i]) && InVolume(d, chain[p][i2])
    ensures SlotAt(Patch(d, chain[p][i], 64 * e, bs), chain[p][i2], e2)
            == if i2 == i && e2 == e then bs else SlotAt(d, chain[p][i2], e2)
  {
    ChainIsLinked(d, chain, owner, p);
    assert owner[chain[p][i]] == Place(p, i) && owner[chain[p][i2]] == Place(p, i2);
  }

  /** Slot 8i + e of p in d2 is the new entry, the old slot, or zeros in an added cluster. */
  ghost predicate SlotGains(d: Disk, v: View, d2: Disk, v': View, p: Path, name: Name, i: nat, e: nat)
    requires WfDisk(d) && WfDisk(d2) && IsDir(v.fs, p) && p in v.chain && p in v'.chain && i < |v'.chain[p]| && e < 8
    requires |name| <= 23 && Sub(p, name) in v'.fs && Sub(p, name) in v'.chain && |v'.chain[Sub(p, name)]| >= 1
    requires Fits(EntryFor(v', p, name))
  {
    var x := v'.chain[p][i];
    && InVolume(d, x) && InVolume(d2, x)
    && SlotAt(d2, x, e) == if 8 * i + e == |v.fs[p].names| then EntryBytes(v', p, name)
                           else if i < |v.chain[p]| then SlotAt(d, x, e) else Zeros(64)
  }

  lemma DirGains(d: Disk, v: View, d2: Disk, v': View, p: Path, name: Name)
    requires WfDisk(d) && WfDisk(d2)
    requires IsDir(v.fs, p) && p in v.chain && DirOk(d, v, p)
    requires IsDir(v'.fs, p) && v'.fs[p].names == v.fs[p].names + [name] && p in v'.chain
    requires v.chain[p] <= v'.chain[p] && |v'.chain[p]| == Blocks(|v.fs[p].names| + 1, 8)
    requires GoodName(name) && name !in v.fs[p].names
    requires forall j :: 0 <= j < |v.fs[p].names| ==> SameEntry(v, v', Sub(p, v.fs[p].names[j]))
    requires Sub(p, name) in v'.fs && Sub(p, name) in v'.chain && |v'.chain[Sub(p, name)]| >= 1
             && Fits(EntryFor(v', p, name))
    requires forall i, e {:trigger SlotGains(d, v, d2, v', p, name, i, e)} ::
               0 <= i < |v'.chain[p]| && 0 <= e < 8 ==> SlotGains(d, v, d2, v', p, name, i, e)
    ensures DirOk(d2, v', p)
  {
    var names, ch, ch' := v.fs[p].names, v.chain[p], v'.chain[p];
    assert forall i :: 0 <= i < |ch| ==> ch[i] == ch'[i];
    forall i | 0 <= i < |ch'| ensures InVolume(d2, ch'[i]) {
      assert SlotGains(d, v, d2, v', p, name, i, 0);
    }
    forall i, e | 0 <= i < |ch'| && 0 <= e < 8
      ensures SlotHolds(d2, v', p, i, e)
    {
      assert SlotGains(d, v, d2, v', p, name, i, e);
      var j := 8 * i + e;
      if i < |ch| {
        assert SlotHolds(d, v, p, i, e);
      }
      if j < |names| {
        assert SameEntry(v, v', Sub(p, names[j]));
        assert EntryFor(v', p, names[j]) == EntryFor(v, p, names[j]);
      }
    }
  }

  lemma NotOwnedBefore(d: Disk, v: View, d': Disk, v': View, p: Path, i: nat)
    requires Inv(d, v) && Claimed(d, v, d', v', p) && p in v.chain
    requires |v.chain[p]| <= i < |v'.chain[p]|
    ensures v'.chain[p][i] in v'.owner && v'.chain[p][i] !in v.owner
  {
    var x := v'.chain[p][i];
    assert x in v'.owner && v'.owner[x] == Place(p, i);
    if x in v.owner {
      SamePlace(d, v, d', v', p, x);
    }
  }

  lemma SamePlace(d: Disk, v: View, d': Disk, v': View, p: Path, y: nat)
    requires ChainsOk(d, v.chain, v.owner) && Claimed(d, v, d', v', p) && y in v.owner
    ensures y in v'.owner && v'.owner[y] == v.owner[y] && v.owner[y].path in v.chain
            && v.owner[y].index < |v.chain[v.owner[y].path]|
  {
    var pl := v.owner[y];
    assert OwnedAt(d, v.chain, v.owner, y);
    assert v'.chain[pl.path][pl.index] == y;
  }

  lemma GainedSlot(d: Disk, v: View, d': Disk, v': View, p: Path, name: Name, node: Node, i: nat, e: nat, i2: nat,
                   e2: nat)
    requires MakesEntry(d, v, d', v', p, name, node, i, e) && i2 < |v'.chain[p]| && e2 < 8
    ensures Fits(EntryFor(v', p, name)) && InVolume(d', v'.chain[p][i])
    ensures SlotGains(d, v, Patch(d', v'.chain[p][i], 64 * e, EntryBytes(v', p, name)), v', p, name, i2, e2)
  {
    hide NodeOk, DirOk, FileOk, SlotHolds, TopOk, ParentOk;
    NewEntryFits(d, v, d', v', p, name, node, i, e);
    PatchedSlot(d', v'.chain, v'.owner, p, i, e, EntryBytes(v', p, name), i2, e2);
    var x := v'.chain[p][i2];
    if i2 >= |v.chain[p]| {
      NotOwnedBefore(d, v, d', v', p, i2);
      assert Cluster0(d', x);
    }
    assert SlotAt(d', x, e2) == SlotAt(d, x, e2);
  }

  lemma ParentGains(d: Disk, v: View, d': Disk, v': View, p: Path, name: Name, node: Node, i: nat, e: nat)
    requires MakesEntry(d, v, d', v', p, name, node, i, e)
    ensures Fits(EntryFor(v', p, name)) && InVolume(d', v'.chain[p][i])
    ensures DirOk(Patch(d', v'.chain[p][i], 64 * e, EntryBytes(v', p, name)), v', p)
  {
    hide FreeZero, TopOk, ParentOk, SlotHolds, SlotGains;
    NewEntryFits(d, v, d', v', p, name, node, i, e);
    NodeIsLinked(d, v, p);
    var d2 := Patch(d', v'.chain[p][i], 64 * e, EntryBytes(v', p, name));
    forall i2, e2 | 0 <= i2 < |v'.chain[p]| && 0 <= e2 < 8 ensures SlotGains(d, v, d2, v', p, name, i2, e2) {
      GainedSlot(d, v, d', v', p, name, node, i, e, i2, e2);
    }
    forall j | 0 <= j < |v.fs[p].names| ensures SameEntry(v, v', Sub(p, v.fs[p].names[j])) {
    }
    DirGains(d, v, d2, v', p, name);
  }

  lemma NewNodeOk(d: Disk, v: View, d': Disk, v': View, p: Path, name: Name, node: Node, i: nat, e: nat)
    requires MakesEntry(d, v, d', v', p, name, node, i, e)
    ensures Fits(EntryFor(v', p, name)) && InVolume(d', v'.chain[p][i])
    ensures NodeOk(Patch(d', v'.chain[p][i], 64 * e, EntryBytes(v', p, name)), v', Sub(p, name))
  {
    hide DirOk, SlotHolds;
    var q := Sub(p, name);
    NewEntryFits(d, v, d', v', p, name, node, i, e);
    var d2 := Patch(d', v'.chain[p][i], 64 * e, EntryBytes(v', p, name));
    PatchedElsewhere(d', v'.chain, v'.owner, p, i, 64 * e, EntryBytes(v', p, name), q);
    assert Cluster0(d', v'.chain[q][0]);
    EmptyNodeOk(d2, v', q);
  }

  lemma OtherNodeKept(d: Disk, v: View, d': Disk, v': View, p: Path, name: Name, node: Node, i: nat, e: nat, r: Path)
    requires MakesEntry(d, v, d', v', p, name, node, i, e) && r in v.fs && r != p
    ensures Fits(EntryFor(v', p, name)) && InVolume(d', v'.chain[p][i])
    ensures r in v'.fs && NodeOk(Patch(d', v'.chain[p][i], 64 * e, EntryBytes(v', p, name)), v', r)
  {
    hide SlotHolds, FreeZero, TopOk, ParentOk;
    NewEntryFits(d, v, d', v', p, name, node, i, e);
    var d2 := Patch(d', v'.chain[p][i], 64 * e, EntryBytes(v', p, name));
    PatchedElsewhere(d', v'.chain, v'.owner, p, i, 64 * e, EntryBytes(v', p, name), r);
    assert NodeOk(d, v, r);
    if v.fs[r].DirNode? {
      forall j | 0 <= j < |v.fs[r].names| ensures SameEntry(v, v', Sub(r, v.fs[r].names[j])) {
      }
      DirFrame(d, v, d2, v', r);
    } else {
      FileFrame(d, d2, v.chain[r], v.fs[r].bytes);
    }
  }

  lemma ParentsAfterMake(d: Disk, v: View, d': Disk, v': View, p: Path, name: Name, node: Node, i: nat, e: nat)
    requires MakesEntry(d, v, d', v', p, name, node, i, e)
    ensures IsDir(v'.fs, Root) && Root in v'.chain && |v'.chain[Root]| >= 1 && v'.chain[Root][0] == 2
    ensures forall r {:trigger ParentOk(v'.fs, r)} :: r in v'.fs ==> ParentOk(v'.fs, r)
  {
    hide NodeOk, ChainsOk, FreeZero, TopOk;
    forall r | r in v'.fs ensures ParentOk(v'.fs, r) {
      if r != Sub(p, name) { assert ParentOk(v.fs, r); }
    }
    RootIsDir(d, v);
    hide Inv, ParentOk;
    assert Root in v.chain && v'.chain[Root][0] == v.chain[Root][0];
  }

  lemma NodesAfterMake(d: Disk, v: View, d': Disk, v': View, p: Path, name: Name, node: Node, i: nat, e: nat)
    requires MakesEntry(d, v, d', v', p, name, node, i, e)
    ensures Fits(EntryFor(v', p, name)) && InVolume(d', v'.chain[p][i])
    ensures var d2 := Patch(d', v'.chain[p][i], 64 * e, EntryBytes(v', p, name));
            WfDisk(d2) && forall r {:trigger NodeOk(d2, v', r)} :: r in v'.fs ==> r in v'.chain && NodeOk(d2, v', r)
  {
    hide DirOk, FileOk, SlotHolds, ChainsOk, FreeZero, TopOk, ParentOk;
    NewNodeOk(d, v, d', v', p, name, node, i, e);
    ParentGains(d, v, d', v', p, name, node, i, e);
    var d2 := Patch(d', v'.chain[p][i], 64 * e, EntryBytes(v', p, name));
    forall r | r in v'.fs ensures r in v'.chain && NodeOk(d2, v', r) {
      if r != p && r != Sub(p, name) {
        OtherNodeKept(d, v, d', v', p, name, node, i, e, r);
      }
    }
  }

  /** Creating an empty file or directory keeps the invariant and makes exactly that node. */
  lemma MakeKeepsInv(d: Disk, v: View, d': Disk, v': View, p: Path, name: Name, node: Node, i: nat, e: nat)
    requires MakesEntry(d, v, d', v', p, name, node, i, e)
    ensures Fits(EntryFor(v', p, name)) && InVolume(d', v'.chain[p][i])
    ensures Inv(Patch(d', v'.chain[p][i], 64 * e, EntryBytes(v', p, name)), v')
  {
    hide NodeOk, ChainsOk, FreeZero, TopOk, ParentOk;
    NodesAfterMake(d, v, d', v', p, name, node, i, e);
    ParentsAfterMake(d, v, d', v', p, name, node, i, e);
    ClaimedKeepsFreeZero(d, v, d', v', p);
    PatchKeepsChains(d', v'.chain, v'.owner, p, i, 64 * e, EntryBytes(v', p, name));
  }

  // ----- bytes appended to a file

  lemma {:induction false} Pigeonhole(s: seq<nat>, n: nat)
    requires forall i :: 0 <= i < |s| ==> 2 <= s[i] < n + 2
    requires forall i, j :: 0 <= i < j < |s| ==> s[i] != s[j]
    ensures |s| <= n
  {
    assert |s| > 0 ==> 2 <= s[0] < n + 2;
    if n > 0 {
      if k :| 0 <= k < |s| && s[k] == n + 1 {
        Pigeonhole(s[..k] + s[k + 1..], n - 1);
      } else {
        Pigeonhole(s, n - 1);
      }
    }
  }

  /** A chain is no longer than the volume. */
  lemma ChainIsShort(d: Disk, chain: map<Path, seq<nat>>, owner: map<nat, Place>, p: Path)
    requires WfDisk(d) && ChainsOk(d, chain, owner) && p in chain
    ensures |chain[p]| <= |d.data|
  {
    ChainIsLinked(d, chain, owner, p);
    ChainDistinct(d, chain, owner, p);
    Pigeonhole(chain[p], |d.data|);
  }

  /** Disk d' holds the chains for q's longer contents, nothing is written yet. */
  ghost predicate AppendsTo(d: Disk, v: View, d': Disk, v': View, p: Path, name: Name, bs: seq<Byte>)
  {
    var q := Sub(p, name);
    && Inv(d, v) && IsFile(v.fs, q) && 1 <= |bs| && |v.fs[q].bytes| % 512 + |bs| <= 512
    && Claimed(d, v, d', v', q)
    && v'.fs == AppendBytes(v.fs, q, bs)
    && |v'.chain[q]| == Blocks(|v.fs[q].bytes| + |bs|, 512)
  }

  /** The data write of write_file. */
  ghost predicate DataWritten(d: Disk, v: View, d': Disk, v': View, p: Path, name: Name, bs: seq<Byte>, d2: Disk)
  {
    && AppendsTo(d, v, d', v', p, name, bs)
    && var q := Sub(p, name);
       var i, at := |v.fs[q].bytes| / 512, |v.fs[q].bytes| % 512;
    && i < |v'.chain[q]| && InVolume(d', v'.chain[q][i])
    && d2 == Patch(d', v'.chain[q][i], at, bs)
  }

  /** Slot 8i + e of directory p is the entry of name. */
  ghost predicate EntrySlot(v: View, p: Path, name: Name, i: nat, e: nat) {
    && IsDir(v.fs, p) && p in v.chain && i < |v.chain[p]| && e < 8
    && 8 * i + e < |v.fs[p].names| && v.fs[p].names[8 * i + e] == name
  }

  lemma ChunkKept(b: seq<Byte>, bs: seq<Byte>, i: nat)
    requires i < |b| / 512
    ensures Chunk(b + bs, i) == Chunk(b, i)
  {
    assert 512 * i + 512 <= |b|;
    assert (b + bs)[512 * i..512 * i + 512] == b[512 * i..512 * i + 512];
  }

  lemma ChunkExtended(b: seq<Byte>, bs: seq<Byte>)
    requires |b| % 512 + |bs| <= 512
    ensures |Chunk(b, |b| / 512)| == |b| % 512 && Chunk(b + bs, |b| / 512) == Chunk(b, |b| / 512) + bs
  {
    var lo := 512 * (|b| / 512);
    assert Chunk(b, |b| / 512) == b[lo..];
    assert Chunk(b + bs, |b| / 512) == (b + bs)[lo..];
  }

  lemma BlocksOf(size: nat, n: nat)
    requires 1 <= n && size % 512 + n <= 512
    ensures Blocks(size + n, 512) == size / 512 + 1 && size / 512 <= Blocks(size, 512) <= size / 512 + 1
    ensures Blocks(size, 512) == size / 512 ==> size % 512 == 0
  {
  }

  lemma FileGains(d: Disk, d2: Disk, ch: seq<nat>, ch': seq<nat>, b: seq<Byte>, bs: seq<Byte>)
    requires WfDisk(d) && FileOk(d, ch, b) && ch <= ch' && 1 <= |bs| && |b| % 512 + |bs| <= 512
    requires |ch'| == Blocks(|b| + |bs|, 512)
    requires forall i :: 0 <= i < |ch'| ==> InVolume(d, ch'[i])
    requires forall i, j :: 0 <= i < j < |ch'| ==> ch'[i] != ch'[j]
    requires d2 == Patch(d, ch'[|b| / 512], |b| % 512, bs)
    ensures FileOk(d2, ch', b + bs)
  {
    BlocksOf(|b|, |bs|);
    forall i | 0 <= i < |ch'| ensures Chunk(b + bs, i) <= Cluster(d2, ch'[i]) {
      BlockGains(d, d2, ch, ch', b, bs, i);
    }
  }

  lemma BlockGains(d: Disk, d2: Disk, ch: seq<nat>, ch': seq<nat>, b: seq<Byte>, bs: seq<Byte>, i: nat)
    requires WfDisk(d) && FileOk(d, ch, b) && ch <= ch' && |b| % 512 + |bs| <= 512 && i <= |b| / 512 < |ch'|
    requires |b| / 512 < |ch| || |b| % 512 == 0
    requires forall j :: 0 <= j < |ch'| ==> InVolume(d, ch'[j])
    requires i < |b| / 512 ==> i < |ch| && ch'[i] != ch'[|b| / 512]
    requires d2 == Patch(d, ch'[|b| / 512], |b| % 512, bs)
    ensures Chunk(b + bs, i) <= Cluster(d2, ch'[i])
  {
    hide Chunk, WfDisk, Blocks;
    var last := |b| / 512;
    assert i < |ch| ==> ch[i] == ch'[i] && Chunk(b, i) <= Cluster(d, ch[i]);
    if i < last {
      ChunkKept(b, bs, i);
      assert Cluster(d2, ch'[i]) == Cluster(d, ch'[i]);
    } else {
      ChunkExtended(b, bs);
      assert |ch| <= i ==> |Chunk(b, i)| == 0;
      assert |Cluster(d, ch'[i])| == 512 by { ClusterSize(d, ch'[i]); }
      assert Cluster(d2, ch'[i]) == Splice(Cluster(d, ch'[i]), |Chunk(b, i)|, bs);
    }
  }

  lemma ChainDistinct(d: Disk, chain: map<Path, seq<nat>>, owner: map<nat, Place>, p: Path)
    requires ChainsOk(d, chain, owner) && p in chain
    ensures forall i, j :: 0 <= i < j < |chain[p]| ==> chain[p][i] != chain[p][j]
  {
    forall i, j | 0 <= i < j < |chain[p]| ensures chain[p][i] != chain[p][j] {
      assert owner[chain[p][i]].index == i;
    }
  }

  /** After the data write the file's chain holds its longer contents. */
  lemma FileGainsBytes(d: Disk, v: View, d': Disk, v': View, p: Path, name: Name, bs: seq<Byte>, d2: Disk)
    requires DataWritten(d, v, d', v', p, name, bs, d2)
    ensures WfDisk(d2) && FileOk(d2, v'.chain[Sub(p, name)], v'.fs[Sub(p, name)].bytes)
  {
    var q := Sub(p, name);
    ChainDistinct(d', v'.chain, v'.owner, q);
    ChainIsLinked(d', v'.chain, v'.owner, q);
    assert NodeOk(d, v, q);
    assert FileOk(d', v.chain[q], v.fs[q].bytes);
    FileGains(d', d2, v.chain[q], v'.chain[q], v.fs[q].bytes, bs);
  }

  lemma UntouchedChain(d: Disk, v: View, d': Disk, v': View, p: Path, name: Name, bs: seq<Byte>, d2: Disk, r: Path)
    requires DataWritten(d, v, d', v', p, name, bs, d2) && r in v.chain && r != Sub(p, name)
    ensures r in v'.chain && v'.chain[r] == v.chain[r] && |d2.data| == |d.data|
    ensures forall j :: 0 <= j < |v.chain[r]| && InVolume(d, v.chain[r][j])
                        ==> Cluster(d2, v.chain[r][j]) == Cluster(d, v.chain[r][j])
  {
    var q := Sub(p, name);
    PatchedElsewhere(d', v'.chain, v'.owner, q, |v.fs[q].bytes| / 512, |v.fs[q].bytes| % 512, bs, r);
  }

  ghost predicate Updated(d: Disk, v: View, d': Disk, v': View, p: Path, name: Name, bs: seq<Byte>, d2: Disk, i: nat,
                          e: nat, d3: Disk)
  {
    && DataWritten(d, v, d', v', p, name, bs, d2) && EntrySlot(v, p, name, i, e)
    && WfDisk(d2) && InVolume(d2, v.chain[p][i]) && GoodName(name) && Fits(EntryFor(v', p, name))
    && d3 == Patch(d2, v.chain[p][i], 64 * e, EntryBytes(v', p, name))
  }

  lemma OtherChainsUpdated(d: Disk, v: View, d': Disk, v': View, p: Path, name: Name, bs: seq<Byte>, d2: Disk, i: nat,
                           e: nat, d3: Disk, r: Path)
    requires Updated(d, v, d', v', p, name, bs, d2, i, e, d3) && r in v.chain && r != p
    ensures r in v'.chain && WfDisk(d3) && |d3.data| == |d2.data|
    ensures forall j :: 0 <= j < |v'.chain[r]| && InVolume(d2, v'.chain[r][j])
                        ==> Cluster(d3, v'.chain[r][j]) == Cluster(d2, v'.chain[r][j])
  {
    UntouchedChain(d, v, d', v', p, name, bs, d2, p);
    SameTableSameChains(d', d2, v'.chain, v'.owner);
    PatchedElsewhere(d2, v'.chain, v'.owner, p, i, 64 * e, EntryBytes(v', p, name), r);
  }

  lemma ParentSlotBytes(d: Disk, v: View, d': Disk, v': View, p: Path, name: Name, bs: seq<Byte>, d2: Disk, i: nat,
                        e: nat, d3: Disk, i2: nat, e2: nat)
    requires Updated(d, v, d', v', p, name, bs, d2, i, e, d3) && i2 < |v.chain[p]| && e2 < 8
    ensures p in v'.chain && v'.chain[p] == v.chain[p] && IsDir(v'.fs, p) && v'.fs[p] == v.fs[p]
    ensures WfDisk(d3) && InVolume(d3, v.chain[p][i2]) && InVolume(d, v.chain[p][i2])
    ensures SlotAt(d3, v.chain[p][i2], e2)
            == if i2 == i && e2 == e then EntryBytes(v', p, name) else SlotAt(d, v.chain[p][i2], e2)
  {
    hide NodeOk, DirOk, FileOk, FreeZero, TopOk, ParentOk;
    var ch := v.chain[p];
    UntouchedChain(d, v, d', v', p, name, bs, d2, p);
    SameTableSameChains(d', d2, v'.chain, v'.owner);
    PatchedSlot(d2, v'.chain, v'.owner, p, i, e, EntryBytes(v', p, name), i2, e2);
    NodeIsLinked(d, v, p);
    hide Inv, ChainsOk, TopOk;
    assert SlotAt(d2, ch[i2], e2) == SlotAt(d, ch[i2], e2);
  }

  lemma ParentSlotUpdated(d: Disk, v: View, d': Disk, v': View, p: Path, name: Name, bs: seq<Byte>, d2: Disk, i: nat,
                          e: nat, d3: Disk, i2: nat, e2: nat)
    requires Updated(d, v, d', v', p, name, bs, d2, i, e, d3) && i2 < |v.chain[p]| && e2 < 8
    ensures p in v'.chain && v'.chain[p] == v.chain[p] && IsDir(v'.fs, p)
    ensures WfDisk(d3) && InVolume(d3, v.chain[p][i2]) && SlotHolds(d3, v', p, i2, e2)
  {
    ParentSlotBytes(d, v, d', v', p, name, bs, d2, i, e, d3, i2, e2);
    NodeIsLinked(d, v, p);
    forall j | 0 <= j < |v.fs[p].names| && j != 8 * i + e ensures SameEntry(v, v', Sub(p, v.fs[p].names[j])) {
      assert v.fs[p].names[j] != name;
    }
    SlotReheld(d, v, d3, v', p, name, i, e, i2, e2);
  }

  lemma SlotReheld(d: Disk, v: View, d3: Disk, v': View, p: Path, name: Name, i: nat, e: nat, i2: nat, e2: nat)
    requires WfDisk(d) && WfDisk(d3) && EntrySlot(v, p, name, i, e) && DirOk(d, v, p)
    requires IsDir(v'.fs, p) && v'.fs[p] == v.fs[p] && p in v'.chain && v'.chain[p] == v.chain[p]
    requires |name| <= 23 && Sub(p, name) in v'.fs && Sub(p, name) in v'.chain && |v'.chain[Sub(p, name)]| >= 1
    requires Fits(EntryFor(v', p, name))
    requires forall j :: 0 <= j < |v.fs[p].names| && j != 8 * i + e ==> SameEntry(v, v', Sub(p, v.fs[p].names[j]))
    requires i2 < |v.chain[p]| && e2 < 8 && InVolume(d3, v.chain[p][i2]) && InVolume(d, v.chain[p][i2])
    requires SlotAt(d3, v.chain[p][i2], e2)
             == if i2 == i && e2 == e then EntryBytes(v', p, name) else SlotAt(d, v.chain[p][i2], e2)
    ensures SlotHolds(d3, v', p, i2, e2)
  {
    hide Encode, SlotAt;
    assert SlotHolds(d, v, p, i2, e2);
    var names, j := v.fs[p].names, 8 * i2 + e2;
    if j < |names| && j != 8 * i + e {
      assert SameEntry(v, v', Sub(p, names[j]));
      assert EntryFor(v', p, names[j]) == EntryFor(v, p, names[j]);
    }
  }

  /** The same listing on the same chain, every slot in order. */
  lemma DirReheld(d: Disk, v: View, d3: Disk, v': View, p: Path)
    requires WfDisk(d) && WfDisk(d3) && IsDir(v.fs, p) && p in v.chain && DirOk(d, v, p)
    requires IsDir(v'.fs, p) && v'.fs[p] == v.fs[p] && p in v'.chain && v'.chain[p] == v.chain[p]
             && v.fs.Keys <= v'.fs.Keys
    requires forall i :: 0 <= i < |v.chain[p]| ==> InVolume(d3, v.chain[p][i])
    requires forall i, e {:trigger SlotHolds(d3, v', p, i, e)} ::
               0 <= i < |v.chain[p]| && 0 <= e < 8 ==> InVolume(d3, v.chain[p][i]) && SlotHolds(d3, v', p, i, e)
    ensures DirOk(d3, v', p)
  {
    hide SlotHolds;
  }

  lemma ParentUpdated(d: Disk, v: View, d': Disk, v': View, p: Path, name: Name, bs: seq<Byte>, d2: Disk, i: nat,
                      e: nat, d3: Disk)
    requires Updated(d, v, d', v', p, name, bs, d2, i, e, d3)
    ensures WfDisk(d3) && IsDir(v'.fs, p) && p in v'.chain && DirOk(d3, v', p)
  {
    assert NodeOk(d, v, p);
    hide DirOk, SlotHolds, ChainsOk, FreeZero, TopOk, ParentOk;
    ParentSlotBytes(d, v, d', v', p, name, bs, d2, i, e, d3, i, e);
    forall i2, e2 | 0 <= i2 < |v.chain[p]| && 0 <= e2 < 8 ensures InVolume(d3, v.chain[p][i2])
      && SlotHolds(d3, v', p, i2, e2) {
      ParentSlotUpdated(d, v, d', v', p, name, bs, d2, i, e, d3, i2, e2);
    }
    forall i2 | 0 <= i2 < |v.chain[p]| ensures InVolume(d3, v.chain[p][i2]) {
      ParentSlotUpdated(d, v, d', v', p, name, bs, d2, i, e, d3, i2, 0);
    }
    hide Inv, Patch;
    DirReheld(d, v, d3, v', p);
  }

  lemma OtherNodeUpdated(d: Disk, v: View, d': Disk, v': View, p: Path, name: Name, bs: seq<Byte>, d2: Disk, i: nat,
                         e: nat, d3: Disk, r: Path)
    requires Updated(d, v, d', v', p, name, bs, d2, i, e, d3) && r in v.fs && r != p && r != Sub(p, name)
    ensures r in v'.fs && WfDisk(d3) && NodeOk(d3, v', r)
  {
    OtherChainsUpdated(d, v, d', v', p, name, bs, d2, i, e, d3, r);
    UntouchedChain(d, v, d', v', p, name, bs, d2, r);
    assert NodeOk(d, v, r);
    if v.fs[r].DirNode? {
      forall j | 0 <= j < |v.fs[r].names| ensures SameEntry(v, v', Sub(r, v.fs[r].names[j])) {
      }
      DirFrame(d, v, d3, v', r);
    } else {
      FileFrame(d, d3, v.chain[r], v.fs[r].bytes);
    }
  }

  lemma NodesAfterAppend(d: Disk, v: View, d': Disk, v': View, p: Path, name: Name, bs: seq<Byte>, d2: Disk, i: nat,
                         e: nat, d3: Disk)
    requires Updated(d, v, d', v', p, name, bs, d2, i, e, d3)
    ensures WfDisk(d3) && forall r {:trigger NodeOk(d3, v', r)} :: r in v'.fs ==> r in v'.chain && NodeOk(d3, v', r)
  {
    hide DirOk, FileOk, SlotHolds, ChainsOk, FreeZero, TopOk, ParentOk;
    var q := Sub(p, name);
    ParentUpdated(d, v, d', v', p, name, bs, d2, i, e, d3);
    FileGainsBytes(d, v, d', v', p, name, bs, d2);
    OtherChainsUpdated(d, v, d', v', p, name, bs, d2, i, e, d3, q);
    FileFrame(d2, d3, v'.chain[q], v'.fs[q].bytes);
    forall r | r in v'.fs ensures r in v'.chain && NodeOk(d3, v', r) {
      if r != p && r != q {
        OtherNodeUpdated(d, v, d', v', p, name, bs, d2, i, e, d3, r);
      }
    }
  }

  lemma ParentsAfterAppend(d: Disk, v: View, d': Disk, v': View, q: Path, bs: seq<Byte>)
    requires Inv(d, v) && IsFile(v.fs, q) && v'.fs == AppendBytes(v.fs, q, bs) && Claimed(d, v, d', v', q)
    ensures IsDir(v'.fs, Root) && Root in v'.chain && |v'.chain[Root]| >= 1 && v'.chain[Root][0] == 2
    ensures forall r {:trigger ParentOk(v'.fs, r)} :: r in v'.fs ==> ParentOk(v'.fs, r)
  {
    hide NodeOk, ChainsOk, FreeZero, TopOk;
    forall r | r in v'.fs ensures ParentOk(v'.fs, r) {
      assert ParentOk(v.fs, r);
    }
    RootIsDir(d, v);
    hide Inv, ParentOk;
    assert Root in v.chain && v'.chain[Root][0] == v.chain[Root][0];
  }

  /** Appending keeps the invariant and changes exactly the contents of one file:
      every other file, every listing and every other entry means what it meant. */
  lemma AppendKeepsInv(d: Disk, v: View, d': Disk, v': View, p: Path, name: Name, bs: seq<Byte>, d2: Disk, i: nat,
                       e: nat, d3: Disk)
    requires Updated(d, v, d', v', p, name, bs, d2, i, e, d3)
    ensures Inv(d3, v')
  {
    hide NodeOk, DirOk, FileOk, SlotHolds, ChainsOk, FreeZero, TopOk, ParentOk;
    var q := Sub(p, name);
    NodesAfterAppend(d, v, d', v', p, name, bs, d2, i, e, d3);
    ParentsAfterAppend(d, v, d', v', q, bs);
    UntouchedChain(d, v, d', v', p, name, bs, d2, p);
    ClaimedKeepsFreeZero(d, v, d', v', q);
    PatchKeepsChains(d', v'.chain, v'.owner, q, |v.fs[q].bytes| / 512, |v.fs[q].bytes| % 512, bs);
    PatchKeepsChains(d2, v'.chain, v'.owner, p, i, 64 * e, EntryBytes(v', p, name));
  }
}
