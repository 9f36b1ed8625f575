// What a scan of a directory's clusters sees, in terms of the tree.
module Listings {
  import opened Bytes
  import opened Disks
  import opened Dirents
  import opened Views

  function DirentAt(d: Disk, x: nat, e: nat): Dirent
    requires WfDisk(d) && InVolume(d, x) && e < 8
  {
    Decode(SlotAt(d, x, e))
  }

  /** Entry e of a loaded cluster buffer. */
  function EntryIn(cluster: seq<Byte>, e: nat): Dirent
    requires |cluster| == 512 && e < 8
  {
    Decode(cluster[64 * e..64 * e + 64])
  }

  /** The tests the walks of entry.c and dir.c make on an entry. */
  datatype Want = File(name: Name) | Dir(name: Name) | Either(name: Name) | Free

  predicate Matches(want: Want, entry: Dirent) {
    match want
    case File(name) => IsNormalFile(entry.attribute) && name == CString(entry.name)
    case Dir(name) => IsNormalDir(entry.attribute) && name == CString(entry.name)
    case Either(name) => CString(entry.name) == name && (IsNormalDir(entry.attribute) || IsNormalFile(entry.attribute))
    case Free => IsDeletedFile(entry.attribute) || IsDeletedDir(entry.attribute)
  }

  /** No entry before number n of the chain matches. */
  ghost predicate NoneBefore(d: Disk, chain: seq<nat>, want: Want, n: nat)
    requires WfDisk(d) && Linked(d, chain)
  {
    forall i, e {:trigger DirentAt(d, chain[i], e)} :: 0 <= i < |chain| && 0 <= e < 8 && 8 * i + e < n
      ==> !Matches(want, DirentAt(d, chain[i], e))
  }

  /** Entry e of chain[i] is the first match. */
  ghost predicate FirstMatch(d: Disk, chain: seq<nat>, want: Want, i: nat, e: nat)
    requires WfDisk(d) && Linked(d, chain)
  {
    i < |chain| && e < 8 && Matches(want, DirentAt(d, chain[i], e)) && NoneBefore(d, chain, want, 8 * i + e)
  }

  /** In a volume that stands for a tree, slot 8i + e of directory p is exactly its entry of that number. */
  lemma SlotMeans(d: Disk, v: View, p: Path, i: nat, e: nat)
    requires Inv(d, v) && IsDir(v.fs, p) && i < |v.chain[p]| && e < 8
    ensures InVolume(d, v.chain[p][i])
    ensures var entry, names, j := DirentAt(d, v.chain[p][i], e), v.fs[p].names, 8 * i + e;
            if j < |names| then
              && Sub(p, names[j]) in v.fs && |v.chain[Sub(p, names[j])]| >= 1 && GoodName(names[j])
              && Fits(EntryFor(v, p, names[j])) && entry == EntryFor(v, p, names[j]) && CString(entry.name) == names[j]
              && entry.attribute == (if v.fs[Sub(p, names[j])].DirNode? then 3 else 1)
              && entry.head == v.chain[Sub(p, names[j])][0]
              && entry.size == (if v.fs[Sub(p, names[j])].FileNode? then |v.fs[Sub(p, names[j])].bytes| else 0)
            else entry.attribute == 0 && CString(entry.name) == []
  {
    NodeIsLinked(d, v, p);
    hide Inv, Encode, Decode;
    assert SlotHolds(d, v, p, i, e);
    var names, j := v.fs[p].names, 8 * i + e;
    if j < |names| {
      DecodeEncode(EntryFor(v, p, names[j]));
      NameFieldReads(names[j]);
    } else {
      ZerosAreFree();
    }
  }

  lemma ZerosAreFree()
    ensures Decode(Zeros(64)).attribute == DELETED_FILE && CString(Decode(Zeros(64)).name) == []
  {
    assert Zeros(64)[5..29][0] == 0;
  }

  /** A name under p is a node exactly when it is in p's listing. */
  lemma ListedIff(d: Disk, v: View, p: Path, name: Name)
    requires Inv(d, v) && IsDir(v.fs, p)
    ensures Sub(p, name) in v.fs <==> name in v.fs[p].names
  {
    assert NodeOk(d, v, p);
    if Sub(p, name) in v.fs {
      assert ParentOk(v.fs, Sub(p, name));
    }
  }

  /** What the tree says a search of directory p for a name must find. */
  predicate Wanted(fs: Tree, p: Path, want: Want) {
    match want
    case File(name) => IsFile(fs, Sub(p, name))
    case Dir(name) => IsDir(fs, Sub(p, name))
    case Either(name) => Sub(p, name) in fs
    case Free => false
  }

  /** A match is the entry of the wanted node. */
  lemma MatchMeans(d: Disk, v: View, p: Path, want: Want, i: nat, e: nat)
    requires Inv(d, v) && IsDir(v.fs, p) && !want.Free? && i < |v.chain[p]| && e < 8
    requires InVolume(d, v.chain[p][i]) && Matches(want, DirentAt(d, v.chain[p][i], e))
    requires want.Either? ==> want.name != []
    ensures Wanted(v.fs, p, want) && GoodName(want.name) && |v.chain[Sub(p, want.name)]| >= 1
    ensures 8 * i + e < |v.fs[p].names| && v.fs[p].names[8 * i + e] == want.name
    ensures Fits(EntryFor(v, p, want.name)) && DirentAt(d, v.chain[p][i], e) == EntryFor(v, p, want.name)
  {
    SlotMeans(d, v, p, i, e);
  }

  /** A search that ends without a match means the tree has no such node. */
  lemma NoMatchMeans(d: Disk, v: View, p: Path, want: Want)
    requires Inv(d, v) && IsDir(v.fs, p) && Linked(d, v.chain[p]) && NoneBefore(d, v.chain[p], want, 8 * |v.chain[p]|)
    ensures !Wanted(v.fs, p, want)
  {
    if Wanted(v.fs, p, want) {
      ListedIff(d, v, p, want.name);
      var j :| 0 <= j < |v.fs[p].names| && v.fs[p].names[j] == want.name;
      NodeIsLinked(d, v, p);
      hide Inv;
      SlotMeans(d, v, p, j / 8, j % 8);
    }
  }

  /** The slots before n are in use, the others are free. */
  ghost predicate DenseSlots(d: Disk, chain: seq<nat>, n: nat) {
    WfDisk(d) && Linked(d, chain) && n <= 8 * |chain| &&
    forall i, e {:trigger DirentAt(d, chain[i], e)} :: 0 <= i < |chain| && 0 <= e < 8
      ==> (Matches(Free, DirentAt(d, chain[i], e)) <==> 8 * i + e >= n)
  }

  lemma DirIsDense(d: Disk, v: View, p: Path)
    requires Inv(d, v) && IsDir(v.fs, p)
    ensures DenseSlots(d, v.chain[p], |v.fs[p].names|)
  {
    ChainIsLinked(d, v.chain, v.owner, p);
    assert NodeOk(d, v, p);
    forall i, e | 0 <= i < |v.chain[p]| && 0 <= e < 8
      ensures Matches(Free, DirentAt(d, v.chain[p][i], e)) <==> 8 * i + e >= |v.fs[p].names|
    {
      SlotMeans(d, v, p, i, e);
    }
  }
}
