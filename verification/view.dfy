// The simple meaning of a volume, a tree of named directories and byte-string
// files, and the invariant that ties it to the table and the clusters.
module Views {
  import opened Bytes
  import opened Disks
  import opened Dirents
  import opened Allocation

  datatype Path = Root | Sub(parent: Path, name: Name)
  datatype Node = DirNode(names: seq<Name>) | FileNode(bytes: seq<Byte>)
  type Tree = map<Path, Node>

  /** Which chain a cluster is on, and where. */
  datatype Place = Place(path: Path, index: nat)

  /** The tree, each node's cluster chain, the chains' inverse, and the high-water mark of the table. */
  datatype View = View(fs: Tree, chain: map<Path, seq<nat>>, owner: map<nat, Place>, top: nat)

  // ----- the tree's own operations

  predicate IsDir(fs: Tree, p: Path) {
    p in fs && fs[p].DirNode?
  }

  predicate IsFile(fs: Tree, p: Path) {
    p in fs && fs[p].FileNode?
  }

  predicate CanMake(fs: Tree, p: Path, name: Name) {
    IsDir(fs, p) && GoodName(name) && Sub(p, name) !in fs
  }

  function MakeNode(fs: Tree, p: Path, name: Name, node: Node): Tree
    requires IsDir(fs, p)
  {
    fs[p := DirNode(fs[p].names + [name])][Sub(p, name) := node]
  }

  function AppendBytes(fs: Tree, q: Path, bs: seq<Byte>): Tree
    requires IsFile(fs, q)
  {
    fs[q := FileNode(fs[q].bytes + bs)]
  }

  /** Component-by-component descent from p. */
  function Walk(p: Path, names: seq<Name>): Path
    decreases |names|
  {
    if names == [] then p else Walk(Sub(p, names[0]), names[1..])
  }

  // ----- the invariant

  /** Units of size u that n things take up; never less than one. */
  function Blocks(n: nat, u: nat): nat
    requires u > 0
  {
    if n == 0 then 1 else (n - 1) / u + 1
  }

  ghost predicate OwnedAt(d: Disk, chain: map<Path, seq<nat>>, owner: map<nat, Place>, x: nat)
    requires x in owner
  {
    var pl := owner[x];
    InVolume(d, x) && pl.path in chain && pl.index < |chain[pl.path]| && chain[pl.path][pl.index] == x
  }

  /** Chains are finite, repeat no cluster, share no cluster, end at the end
      marker, and together hold exactly the non-zero table entries. */
  ghost predicate ChainsOk(d: Disk, chain: map<Path, seq<nat>>, owner: map<nat, Place>) {
    && (forall p :: p in chain ==> |chain[p]| >= 1)
    && (forall p, i {:trigger chain[p][i]} :: p in chain && 0 <= i < |chain[p]|
          ==> chain[p][i] in owner && owner[chain[p][i]] == Place(p, i))
    && (forall x {:trigger OwnedAt(d, chain, owner, x)} :: x in owner ==> OwnedAt(d, chain, owner, x))
    && (forall x {:trigger Next(d, x)} :: x in owner && OwnedAt(d, chain, owner, x) && InTable(d, x)
          ==> Next(d, x) == NextIn(chain[owner[x].path], owner[x].index))
    && (forall x {:trigger Next(d, x)} :: InTable(d, x) && x !in owner ==> Next(d, x) == 0)
  }

  ghost predicate FreeZero(d: Disk, owner: map<nat, Place>) {
    forall x {:trigger Cluster(d, x)} :: InVolume(d, x) && x !in owner ==> Cluster(d, x) == Zeros(512)
  }

  /** Entry e of a directory cluster, as bytes. */
  function SlotAt(d: Disk, x: nat, e: nat): (s: seq<Byte>)
    requires WfDisk(d) && InVolume(d, x) && e < 8
    ensures |s| == 64
  {
    Cluster(d, x)[64 * e..64 * e + 64]
  }

  function EntryFor(v: View, p: Path, name: Name): Dirent
    requires |name| <= 23 && Sub(p, name) in v.fs && Sub(p, name) in v.chain && |v.chain[Sub(p, name)]| >= 1
  {
    var node := v.fs[Sub(p, name)];
    Dirent(if node.DirNode? then NORMAL_DIR else NORMAL_FILE, 0, NameField(name), v.chain[Sub(p, name)][0],
           if node.FileNode? then |node.bytes| else 0, Zeros(23))
  }

  /** Slot 8i + e of directory p holds its entry of that number in creation order, or zeros. */
  ghost predicate SlotHolds(d: Disk, v: View, p: Path, i: nat, e: nat)
    requires WfDisk(d) && IsDir(v.fs, p) && p in v.chain && i < |v.chain[p]| && InVolume(d, v.chain[p][i]) && e < 8
  {
    var names, j, x := v.fs[p].names, 8 * i + e, v.chain[p][i];
    if j < |names| then
      |names[j]| <= 23 && Sub(p, names[j]) in v.fs && Sub(p, names[j]) in v.chain && |v.chain[Sub(p, names[j])]| >= 1 &&
      Fits(EntryFor(v, p, names[j])) && SlotAt(d, x, e) == Encode(EntryFor(v, p, names[j]))
    else
      SlotAt(d, x, e) == Zeros(64)
  }

  ghost predicate DirOk(d: Disk, v: View, p: Path)
    requires WfDisk(d) && IsDir(v.fs, p) && p in v.chain
  {
    var names, ch := v.fs[p].names, v.chain[p];
    && |ch| == Blocks(|names|, 8)
    && (forall i, j :: 0 <= i < j < |names| ==> names[i] != names[j])
    && (forall j :: 0 <= j < |names| ==> GoodName(names[j]) && Sub(p, names[j]) in v.fs)
    && (forall i :: 0 <= i < |ch| ==> InVolume(d, ch[i]))
    && (forall i, e {:trigger SlotHolds(d, v, p, i, e)} :: 0 <= i < |ch| && 0 <= e < 8 ==> SlotHolds(d, v, p, i, e))
  }

  /** The bytes of b that belong in block i of a file. */
  function Chunk(b: seq<Byte>, i: nat): seq<Byte> {
    if 512 * i >= |b| then [] else if 512 * i + 512 <= |b| then b[512 * i..512 * i + 512] else b[512 * i..]
  }

  ghost predicate FileOk(d: Disk, ch: seq<nat>, b: seq<Byte>) {
    && |ch| == Blocks(|b|, 512)
    && (forall i {:trigger ch[i]} :: 0 <= i < |ch| ==> InVolume(d, ch[i]) && Chunk(b, i) <= Cluster(d, ch[i]))
  }

  ghost predicate NodeOk(d: Disk, v: View, p: Path)
    requires WfDisk(d) && p in v.fs && p in v.chain
  {
    match v.fs[p]
    case DirNode(_) => DirOk(d, v, p)
    case FileNode(b) => FileOk(d, v.chain[p], b)
  }

  ghost predicate ParentOk(fs: Tree, p: Path)
  {
    p.Sub? ==> IsDir(fs, p.parent) && p.name in fs[p.parent].names
  }

  ghost predicate Inv(d: Disk, v: View) {
    && WfDisk(d)
    && ChainsOk(d, v.chain, v.owner)
    && FreeZero(d, v.owner)
    && TopOk(d.fat, v.top) && v.top <= |d.data|
    && v.fs.Keys == v.chain.Keys
    && IsDir(v.fs, Root) && v.chain[Root][0] == 2
    && (forall p {:trigger NodeOk(d, v, p)} :: p in v.fs ==> NodeOk(d, v, p))
    && (forall p {:trigger ParentOk(v.fs, p)} :: p in v.fs ==> ParentOk(v.fs, p))
  }

  /** Below something that is not a directory there is no directory. */
  lemma {:induction false} WalkStops(d: Disk, v: View, p: Path, names: seq<Name>)
    requires Inv(d, v) && !IsDir(v.fs, p)
    ensures !IsDir(v.fs, Walk(p, names))
    decreases |names|
  {
    if names != [] {
      assert Sub(p, names[0]) in v.fs ==> ParentOk(v.fs, Sub(p, names[0]));
      WalkStops(d, v, Sub(p, names[0]), names[1..]);
    }
  }

  // ----- chains

  lemma ChainIsLinked(d: Disk, chain: map<Path, seq<nat>>, owner: map<nat, Place>, p: Path)
    requires WfDisk(d) && ChainsOk(d, chain, owner) && p in chain
    ensures Linked(d, chain[p])
  {
    var ch := chain[p];
    forall i | 0 <= i < |ch| ensures InVolume(d, ch[i]) && Next(d, ch[i]) == NextIn(ch, i) {
      assert OwnedAt(d, chain, owner, chain[p][i]);
    }
  }

  lemma RootIsDir(d: Disk, v: View)
    requires Inv(d, v)
    ensures IsDir(v.fs, Root) && Root in v.chain && |v.chain[Root]| >= 1 && v.chain[Root][0] == 2
  {
  }

  lemma NodeIsLinked(d: Disk, v: View, p: Path)
    requires Inv(d, v) && p in v.fs
    ensures p in v.chain && Linked(d, v.chain[p]) && NodeOk(d, v, p)
    ensures v.fs[p].DirNode? ==> |v.chain[p]| == Blocks(|v.fs[p].names|, 8)
    ensures v.fs[p].FileNode? ==> |v.chain[p]| == Blocks(|v.fs[p].bytes|, 512)
  {
    ChainIsLinked(d, v.chain, v.owner, p);
    assert NodeOk(d, v, p);
  }

  lemma FreeIsUnowned(d: Disk, chain: map<Path, seq<nat>>, owner: map<nat, Place>, x: nat)
    requires WfDisk(d) && ChainsOk(d, chain, owner) && InVolume(d, x) && Next(d, x) == 0
    ensures x !in owner
  {
    forall y | y in owner && InTable(d, y) ensures Next(d, y) != 0 {
      var pl := owner[y];
      assert OwnedAt(d, chain, owner, y);
      ChainIsLinked(d, chain, owner, pl.path);
      LinkedIsNonZero(d, chain[pl.path], pl.index);
    }
  }

  /** A free cluster becomes the one-cluster chain of a new path. */
  lemma NewChain(d: Disk, chain: map<Path, seq<nat>>, owner: map<nat, Place>, q: Path, x: nat)
    requires WfDisk(d) && ChainsOk(d, chain, owner) && q !in chain
    requires InVolume(d, x) && Next(d, x) == 0
    ensures x !in owner
    ensures ChainsOk(SetNext(d, x, END), chain[q := [x]], owner[x := Place(q, 0)])
  {
    FreeIsUnowned(d, chain, owner, x);
    var d', chain', owner' := SetNext(d, x, END), chain[q := [x]], owner[x := Place(q, 0)];
    forall y | y in owner' ensures OwnedAt(d', chain', owner', y) {
      if y != x { assert OwnedAt(d, chain, owner, y); }
    }
    forall y | y in owner' && InTable(d', y)
      ensures Next(d', y) == NextIn(chain'[owner'[y].path], owner'[y].index)
    {
      if y != x {
        assert OwnedAt(d, chain, owner, y) && Next(d, y) == Next(d', y);
      }
    }
    forall y | InTable(d', y) && y !in owner' ensures Next(d', y) == 0 {
      assert Next(d, y) == 0;
    }
  }

  /** y's table entry is what its place, if it has one, asks for. */
  ghost predicate LinkOk(d: Disk, chain: map<Path, seq<nat>>, owner: map<nat, Place>, y: nat)
    requires InTable(d, y)
  {
    if y in owner
    then owner[y].path in chain && owner[y].index < |chain[owner[y].path]|
         && Next(d, y) == NextIn(chain[owner[y].path], owner[y].index)
    else Next(d, y) == 0
  }

  lemma ChainsOkFrom(d: Disk, chain: map<Path, seq<nat>>, owner: map<nat, Place>)
    requires forall p :: p in chain ==> |chain[p]| >= 1
    requires forall p, i {:trigger chain[p][i]} :: p in chain && 0 <= i < |chain[p]|
               ==> chain[p][i] in owner && owner[chain[p][i]] == Place(p, i)
    requires forall x {:trigger OwnedAt(d, chain, owner, x)} :: x in owner ==> OwnedAt(d, chain, owner, x)
    requires forall y {:trigger LinkOk(d, chain, owner, y)} :: InTable(d, y) ==> LinkOk(d, chain, owner, y)
    ensures ChainsOk(d, chain, owner)
  {
    forall x | InTable(d, x) ensures LinkOk(d, chain, owner, x) {
    }
  }

  lemma NoEmptyChain(d: Disk, chain: map<Path, seq<nat>>, owner: map<nat, Place>)
    requires ChainsOk(d, chain, owner)
    ensures forall p :: p in chain ==> |chain[p]| >= 1
  {
  }

  /** Every place on the longer chains is owned there. */
  lemma LongerChainPlace(d: Disk, chain: map<Path, seq<nat>>, owner: map<nat, Place>, p: Path, k: nat, q: Path, i: nat)
    requires ChainsOk(d, chain, owner) && p in chain && k !in owner
    requires q in chain[p := chain[p] + [k]] && i < |chain[p := chain[p] + [k]][q]|
    ensures var x, owner' := chain[p := chain[p] + [k]][q][i], owner[k := Place(p, |chain[p]|)];
            x in owner' && owner'[x] == Place(q, i)
  {
    if q != p || i < |chain[p]| {
      assert chain[q][i] in owner && owner[chain[q][i]] == Place(q, i);
    }
  }

  lemma LongerChainOwned(d: Disk, chain: map<Path, seq<nat>>, owner: map<nat, Place>, p: Path, k: nat, last: nat,
                         y: nat)
    requires ChainsOk(d, chain, owner) && p in chain && InVolume(d, k) && InTable(d, k) && InTable(d, last)
    requires y in owner[k := Place(p, |chain[p]|)]
    ensures OwnedAt(Grow(d, last, k), chain[p := chain[p] + [k]], owner[k := Place(p, |chain[p]|)], y)
  {
    if y != k { assert OwnedAt(d, chain, owner, y); }
  }

  /** A free cluster is appended to the chain of p. */
  lemma LongerChain(d: Disk, chain: map<Path, seq<nat>>, owner: map<nat, Place>, p: Path, k: nat)
    requires WfDisk(d) && ChainsOk(d, chain, owner) && p in chain
    requires InVolume(d, k) && Next(d, k) == 0
    ensures k !in owner && Linked(d, chain[p])
    ensures ChainsOk(Grow(d, chain[p][|chain[p]| - 1], k), chain[p := chain[p] + [k]], owner[k := Place(p, |chain[p]|)])
  {
    hide ChainsOk, OwnedAt, LinkOk;
    NoEmptyChain(d, chain, owner);
    FreeIsUnowned(d, chain, owner, k);
    ChainIsLinked(d, chain, owner, p);
    var ch := chain[p];
    var last := ch[|ch| - 1];
    var d', chain', owner' := Grow(d, last, k), chain[p := ch + [k]], owner[k := Place(p, |ch|)];
    forall q, i | q in chain' && 0 <= i < |chain'[q]|
      ensures chain'[q][i] in owner' && owner'[chain'[q][i]] == Place(q, i)
    {
      LongerChainPlace(d, chain, owner, p, k, q, i);
    }
    forall y | y in owner' ensures OwnedAt(d', chain', owner', y) {
      LongerChainOwned(d, chain, owner, p, k, last, y);
    }
    forall y | InTable(d', y) ensures LinkOk(d', chain', owner', y) {
      LongerChainLink(d, chain, owner, p, k, y);
    }
    ChainsOkFrom(d', chain', owner');
  }

  lemma LongerChainLink(d: Disk, chain: map<Path, seq<nat>>, owner: map<nat, Place>, p: Path, k: nat, y: nat)
    requires WfDisk(d) && ChainsOk(d, chain, owner) && p in chain && Linked(d, chain[p])
    requires InVolume(d, k) && k !in owner && InTable(d, y)
    ensures var ch := chain[p];
            var d', chain', owner' := Grow(d, ch[|ch| - 1], k), chain[p := ch + [k]], owner[k := Place(p, |ch|)];
            LinkOk(d', chain', owner', y)
  {
    var last := chain[p][|chain[p]| - 1];
    assert last in owner && owner[last] == Place(p, |chain[p]| - 1);
    if y != k && y != last {
      assert Next(Grow(d, last, k), y) == Next(d, y);
      if y in owner {
        assert OwnedAt(d, chain, owner, y);
        assert owner[y].path == p ==> owner[y].index != |chain[p]| - 1;
      }
    }
  }
}
