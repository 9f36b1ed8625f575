// Claiming free clusters for a tree update: the table side of create, mkdir and append.
module Claims {
  import opened Bytes
  import opened Disks
  import opened Dirents
  import opened Allocation
  import opened Views
  import opened Listings
  import opened Updates

  function WithHead(v: View, p: Path, name: Name, node: Node, h: nat): View
    requires IsDir(v.fs, p) && h >= 2
  {
    View(MakeNode(v.fs, p, name, node), v.chain[Sub(p, name) := [h]], v.owner[h := Place(Sub(p, name), 0)],
         Max(v.top, h - 1))
  }

  function WithGrowth(v: View, p: Path, k: nat): View
    requires p in v.chain && k >= 2
  {
    v.(chain := v.chain[p := v.chain[p] + [k]], owner := v.owner[k := Place(p, |v.chain[p]|)], top := Max(v.top, k - 1))
  }

  /** Clusters a new entry in p takes: its own, and one more when p's slots are all in use. */
  function MakeCost(fs: Tree, p: Path): (n: nat)
    requires IsDir(fs, p)
    ensures n == 1 || n == 2
  {
    if |fs[p].names| > 0 && |fs[p].names| % 8 == 0 then 2 else 1
  }

  /** Clusters an append takes: one when the last block is full. */
  function AppendCost(size: nat): nat {
    if size > 0 && size % 512 == 0 then 1 else 0
  }

  /** x is a free cluster the scan may have picked. */
  ghost predicate Picked(d: Disk, top: nat, x: nat) {
    && WfDisk(d) && TopOk(d.fat, top) && FarPick(top) < |d.data|
    && MayFind(d.fat, x) && InVolume(d, x)
  }

  lemma PickedIsFree(d: Disk, top: nat, x: nat)
    requires Picked(d, top, x)
    ensures Next(d, x) == 0 && TopOk(d.fat[x - 2 := END], Max(top, x - 1)) && Max(top, x - 1) <= |d.data|
    ensures Usable(|d.data|, Max(top, x - 1)) + 1 >= Usable(|d.data|, top)
  {
    PickBounds(d.fat, top, x);
    ClaimKeepsTop(d.fat, top, x, END);
    UsableDrops(|d.data|, top, x - 2);
  }

  lemma ClaimHead(d: Disk, v: View, p: Path, name: Name, node: Node, h: nat)
    requires Inv(d, v) && CanMake(v.fs, p, name) && Picked(d, v.top, h)
    ensures Claimed(d, v, SetNext(d, h, END), WithHead(v, p, name, node, h), p) && h !in v.owner
  {
    hide NodeOk, DirOk, FileOk, SlotHolds;
    PickedIsFree(d, v.top, h);
    NewChain(d, v.chain, v.owner, Sub(p, name), h);
    assert Cluster(d, h) == Zeros(512);
  }

  lemma GrowKeepsTop(d: Disk, top: nat, last: nat, k: nat)
    requires Picked(d, top, k) && InVolume(d, last) && Next(d, last) != 0
    ensures TopOk(Grow(d, last, k).fat, Max(top, k - 1)) && WfDisk(Grow(d, last, k))
  {
    PickedIsFree(d, top, k);
  }

  lemma GrowthIsClaimed(d: Disk, v: View, d1: Disk, v1: View, g: Path, last: nat, k: nat)
    requires Claimed(d, v, d1, v1, g) && g in v.chain && g in v1.chain && InTable(d1, last) && InTable(d1, k)
             && Cluster0(d1, k)
    requires WfDisk(Grow(d1, last, k)) && TopOk(Grow(d1, last, k).fat, Max(v1.top, k - 1))
             && Max(v1.top, k - 1) <= |d.data|
    requires ChainsOk(Grow(d1, last, k), WithGrowth(v1, g, k).chain, WithGrowth(v1, g, k).owner)
    ensures Claimed(d, v, Grow(d1, last, k), WithGrowth(v1, g, k), g)
  {
    hide ChainsOk, TopOk, WfDisk;
  }

  lemma FreeIsZero(d: Disk, v: View, k: nat)
    requires Inv(d, v) && InVolume(d, k) && k !in v.owner
    ensures Cluster(d, k) == Zeros(512)
  {
  }

  /** One more free cluster goes to the end of the chain of g. */
  lemma ClaimGrowth(d: Disk, v: View, d1: Disk, v1: View, g: Path, k: nat)
    requires Inv(d, v) && Claimed(d, v, d1, v1, g) && g in v.chain && Picked(d1, v1.top, k)
    ensures g in v1.chain && |v1.chain[g]| >= 1 && InVolume(d1, v1.chain[g][|v1.chain[g]| - 1]) && k !in v1.owner
    ensures Claimed(d, v, Grow(d1, v1.chain[g][|v1.chain[g]| - 1], k), WithGrowth(v1, g, k), g)
  {
    hide Inv, ChainsOk, TopOk, MayFind, FarPick, Usable;
    PickedIsFree(d1, v1.top, k);
    ChainIsLinked(d1, v1.chain, v1.owner, g);
    LinkedIsNonZero(d1, v1.chain[g], |v1.chain[g]| - 1);
    LongerChain(d1, v1.chain, v1.owner, g, k);
    var last := v1.chain[g][|v1.chain[g]| - 1];
    GrowKeepsTop(d1, v1.top, last, k);
    FreeIsZero(d, v, k);
    GrowthIsClaimed(d, v, d1, v1, g, last, k);
  }

  /** Claiming a cluster elsewhere does not disturb a chain. */
  lemma DenseAfterClaim(d: Disk, chain: seq<nat>, n: nat, h: nat)
    requires DenseSlots(d, chain, n) && InVolume(d, h) && Next(d, h) == 0
    ensures DenseSlots(SetNext(d, h, END), chain, n)
  {
    var d' := SetNext(d, h, END);
    forall i | 0 <= i < |chain| ensures chain[i] != h && Next(d', chain[i]) == NextIn(chain, i) {
      LinkedIsNonZero(d, chain, i);
    }
    forall i, e | 0 <= i < |chain| && 0 <= e < 8 ensures DirentAt(d', chain[i], e) == DirentAt(d, chain[i], e) {
    }
  }

  /** The directory has a free slot exactly when no second cluster is needed. */
  lemma FullIff(d: Disk, v: View, p: Path)
    requires Inv(d, v) && IsDir(v.fs, p)
    ensures |v.fs[p].names| == 8 * |v.chain[p]| <==> MakeCost(v.fs, p) == 2
    ensures |v.fs[p].names| <= 8 * |v.chain[p]|
  {
    NodeIsLinked(d, v, p);
  }

  /** A new node in a directory with room: the head cluster was claimed, the entry goes in slot n. */
  lemma MadeInPlace(d: Disk, v: View, p: Path, name: Name, node: Node, h: nat)
    requires Inv(d, v) && CanMake(v.fs, p, name) && Picked(d, v.top, h) && MakeCost(v.fs, p) == 1
    requires node == DirNode([]) || node == FileNode([])
    ensures MakesEntry(d, v, SetNext(d, h, END), WithHead(v, p, name, node, h), p, name, node, |v.fs[p].names| / 8,
                       |v.fs[p].names| % 8)
  {
    hide NodeOk, DirOk, FileOk, SlotHolds;
    ClaimHead(d, v, p, name, node, h);
    NodeIsLinked(d, v, p);
  }

  /** A new node in a full directory: its chain grew by k, the entry goes in the first slot there. */
  lemma MadeWithGrowth(d: Disk, v: View, p: Path, name: Name, node: Node, h: nat, k: nat)
    requires Inv(d, v) && CanMake(v.fs, p, name) && Picked(d, v.top, h) && MakeCost(v.fs, p) == 2
    requires Picked(SetNext(d, h, END), Max(v.top, h - 1), k)
    requires node == DirNode([]) || node == FileNode([])
    ensures p in v.chain && |v.chain[p]| >= 1 && InVolume(d, v.chain[p][|v.chain[p]| - 1])
    ensures MakesEntry(d, v, Grow(SetNext(d, h, END), v.chain[p][|v.chain[p]| - 1], k),
                       WithGrowth(WithHead(v, p, name, node, h), p, k), p, name, node, |v.chain[p]|, 0)
  {
    hide NodeOk, ChainsOk, TopOk, MayFind, FarPick, Usable, Claimed, FreeZero, ParentOk;
    ClaimHead(d, v, p, name, node, h);
    NodeIsLinked(d, v, p);
    ClaimGrowth(d, v, SetNext(d, h, END), WithHead(v, p, name, node, h), p, k);
  }

  /** The tree and layout after a new node, k being the growth cluster if one was needed. */
  function MadeView(v: View, p: Path, name: Name, node: Node, h: nat, k: nat): View
    requires IsDir(v.fs, p) && p in v.chain && h >= 2 && (MakeCost(v.fs, p) == 2 ==> k >= 2)
  {
    if MakeCost(v.fs, p) == 1 then WithHead(v, p, name, node, h) else WithGrowth(WithHead(v, p, name, node, h), p, k)
  }

  /** d' is the volume after the head was claimed and the entry written. */
  ghost predicate EntryWritten(d: Disk, v: View, p: Path, h: nat, k: nat, entry: seq<Byte>, d': Disk)
    requires Inv(d, v) && IsDir(v.fs, p) && Picked(d, v.top, h)
  {
    PickedIsFree(d, v.top, h);
    NodeIsLinked(d, v, p);
    FullIff(d, v, p);
    var d1, chain, n := SetNext(d, h, END), v.chain[p], |v.fs[p].names|;
    && |entry| == 64
    && if MakeCost(v.fs, p) == 1 then
         d' == Patch(d1, chain[n / 8], 64 * (n % 8), entry)
       else
         && Picked(d1, Max(v.top, h - 1), k) && WfDisk(Grow(d1, chain[|chain| - 1], k))
         && d' == Patch(Grow(d1, chain[|chain| - 1], k), k, 0, entry)
  }

  lemma RoomAfterMake(d: Disk, v: View, p: Path, name: Name, node: Node, h: nat, k: nat)
    requires IsDir(v.fs, p) && p in v.chain && Picked(d, v.top, h)
    requires MakeCost(v.fs, p) == 2 ==> Picked(SetNext(d, h, END), Max(v.top, h - 1), k)
    ensures Usable(|d.data|, MadeView(v, p, name, node, h, k).top) + MakeCost(v.fs, p) >= Usable(|d.data|, v.top)
  {
    hide TopOk, MayFind, FarPick, Usable, MakeNode;
    PickedIsFree(d, v.top, h);
    if MakeCost(v.fs, p) == 2 {
      PickedIsFree(SetNext(d, h, END), Max(v.top, h - 1), k);
    }
  }

  function NewEntry(node: Node, name: Name, h: nat): Dirent
    requires |name| <= 23
  {
    Dirent(if node.DirNode? then NORMAL_DIR else NORMAL_FILE, 0, NameField(name), h, 0, Zeros(23))
  }

  /** The new node's entry is the one the tree asks for, with or without growth. */
  lemma EntryOfMade(v: View, p: Path, name: Name, node: Node, h: nat, k: nat)
    requires CanMake(v.fs, p, name) && p in v.chain && h >= 2 && k >= 2 && (node == DirNode([]) || node == FileNode([]))
    ensures EntryFor(WithHead(v, p, name, node, h), p, name) == NewEntry(node, name, h)
    ensures EntryFor(WithGrowth(WithHead(v, p, name, node, h), p, k), p, name) == NewEntry(node, name, h)
  {
    hide NameField;
  }

  lemma EntryPutInPlace(d: Disk, v: View, p: Path, name: Name, node: Node, h: nat, entry: Dirent)
    requires Inv(d, v) && CanMake(v.fs, p, name) && Picked(d, v.top, h) && MakeCost(v.fs, p) == 1
    requires (node == DirNode([]) || node == FileNode([])) && entry == NewEntry(node, name, h) && Fits(entry)
    ensures p in v.chain && |v.fs[p].names| / 8 < |v.chain[p]|
    ensures var d1, x, at := SetNext(d, h, END), v.chain[p][|v.fs[p].names| / 8], 64 * (|v.fs[p].names| % 8);
            Patchable(d1, x, at, Encode(entry)) && Inv(Patch(d1, x, at, Encode(entry)), WithHead(v, p, name, node, h))
  {
    hide NodeOk, Inv, TopOk, MayFind, FarPick, Usable, Encode, EntryFor, NewEntry;
    NodeIsLinked(d, v, p);
    EntryOfMade(v, p, name, node, h, 2);
    MadeInPlace(d, v, p, name, node, h);
    FullIff(d, v, p);
    MakeKeepsInv(d, v, SetNext(d, h, END), WithHead(v, p, name, node, h), p, name, node, |v.fs[p].names| / 8,
                 |v.fs[p].names| % 8);
  }

  lemma EntryPutInGrowth(d: Disk, v: View, p: Path, name: Name, node: Node, h: nat, k: nat, entry: Dirent)
    requires Inv(d, v) && CanMake(v.fs, p, name) && Picked(d, v.top, h) && MakeCost(v.fs, p) == 2
    requires Picked(SetNext(d, h, END), Max(v.top, h - 1), k)
    requires (node == DirNode([]) || node == FileNode([])) && entry == NewEntry(node, name, h) && Fits(entry)
    ensures p in v.chain && |v.chain[p]| >= 1 && InVolume(d, v.chain[p][|v.chain[p]| - 1])
    ensures var d1 := Grow(SetNext(d, h, END), v.chain[p][|v.chain[p]| - 1], k);
            Patchable(d1, k, 0, Encode(entry))
              && Inv(Patch(d1, k, 0, Encode(entry)), WithGrowth(WithHead(v, p, name, node, h), p, k))
  {
    hide NodeOk, Inv, TopOk, MayFind, FarPick, Usable, Encode, EntryFor, NewEntry;
    NodeIsLinked(d, v, p);
    EntryOfMade(v, p, name, node, h, k);
    MadeWithGrowth(d, v, p, name, node, h, k);
    MakeKeepsInv(d, v, Grow(SetNext(d, h, END), v.chain[p][|v.chain[p]| - 1], k),
                 WithGrowth(WithHead(v, p, name, node, h), p, k),
                 p, name, node, |v.chain[p]|, 0);
  }

  lemma NodeMade(d: Disk, v: View, p: Path, name: Name, node: Node, h: nat, k: nat, entry: Dirent, d': Disk)
    requires Inv(d, v) && CanMake(v.fs, p, name) && Picked(d, v.top, h) && (node == DirNode([]) || node == FileNode([]))
    requires entry == NewEntry(node, name, h)
    requires Fits(entry) && EntryWritten(d, v, p, h, k, Encode(entry), d')
    ensures Inv(d', MadeView(v, p, name, node, h, k))
    ensures Usable(|d'.data|, MadeView(v, p, name, node, h, k).top) + MakeCost(v.fs, p) >= Usable(|d.data|, v.top)
  {
    hide NodeOk, Inv, TopOk, MayFind, FarPick, Usable, Encode, EntryFor, NewEntry, Linked, MakeCost, WithHead,
      WithGrowth;
    NodeIsLinked(d, v, p);
    RoomAfterMake(d, v, p, name, node, h, k);
    if MakeCost(v.fs, p) == 1 {
      EntryPutInPlace(d, v, p, name, node, h, entry);
    } else {
      EntryPutInGrowth(d, v, p, name, node, h, k, entry);
    }
  }

  // ----- unbroken runs of allocated slots

  /** Allocation.KeepsRun for two states of a volume. */
  ghost predicate RunKept(d: Disk, v: View, d': Disk, v': View, cost: nat, clean: bool) {
    KeepsRun(d.fat, v.top, d'.fat, v'.top, cost, clean)
  }

  /** Rewriting a non-zero link and claiming the scanned slot. */
  lemma GrowKeepsRun(d: Disk, top: nat, last: nat, k: nat, clean: bool)
    requires Picked(d, top, k) && (clean ==> FindsClean(d.fat, k)) && InTable(d, last) && Next(d, last) != 0
    ensures KeepsRun(d.fat, top, Grow(d, last, k).fat, Max(top, k - 1), 1, clean)
  {
    PickedIsFree(d, top, k);
    ClaimKeepsRun(d.fat, top, k, END, clean);
  }

  lemma PickedScan(d: Disk, top: nat, x: nat)
    requires Picked(d, top, x)
    ensures TopOk(d.fat, top) && FarPick(top) < |d.fat| && MayFind(d.fat, x)
  {
  }

  /** The last cluster of a chain keeps a non-zero entry when another cluster is claimed. */
  lemma LastIsUsed(d: Disk, chain: seq<nat>, h: nat)
    requires Linked(d, chain) && InTable(d, h) && |d.data| <= |d.fat|
    ensures var last := chain[|chain| - 1];
            InTable(SetNext(d, h, END), last) && Next(SetNext(d, h, END), last) != 0 && Next(d, last) != 0
  {
    LinkedIsNonZero(d, chain, |chain| - 1);
  }

  /** The allocations of mkdir and create. */
  lemma NodeKeepsRun(d: Disk, v: View, p: Path, name: Name, node: Node, h: nat, clean: bool, k: nat, clean2: bool,
                     entry: seq<Byte>, d': Disk)
    requires Inv(d, v) && IsDir(v.fs, p) && Picked(d, v.top, h) && EntryWritten(d, v, p, h, k, entry, d')
    requires clean ==> FindsClean(d.fat, h)
    requires MakeCost(v.fs, p) == 2 && clean2 ==> FindsClean(SetNext(d, h, END).fat, k)
    ensures p in v.chain && RunKept(d, v, d', MadeView(v, p, name, node, h, k), MakeCost(v.fs, p), clean && clean2)
  {
    hide NodeOk, Inv, TopOk, MayFind, FindsClean, FarPick, Usable, KeepsRun, Linked, MakeCost, MakeNode;
    var d1, top1 := SetNext(d, h, END), Max(v.top, h - 1);
    NodeIsLinked(d, v, p);
    PickedScan(d, v.top, h);
    ClaimKeepsRun(d.fat, v.top, h, END, clean);
    KeepsRunIfBoth(d.fat, v.top, d1.fat, top1, 1, clean, clean2);
    if MakeCost(v.fs, p) == 2 {
      var last := v.chain[p][|v.chain[p]| - 1];
      LastIsUsed(d, v.chain[p], h);
      GrowKeepsRun(d1, top1, last, k, clean2);
      KeepsRunThen(d.fat, v.top, d1.fat, top1, 1, clean, Grow(d1, last, k).fat, Max(top1, k - 1), 1, clean2);
    }
  }

  // ----- appending

  lemma BlocksAppend(size: nat, n: nat)
    requires 1 <= n && size % 512 + n <= 512
    ensures Blocks(size + n, 512) == Blocks(size, 512) + AppendCost(size)
    ensures AppendCost(size) == 1 ==> size / 512 == Blocks(size, 512) && size % 512 == 0
    ensures AppendCost(size) == 0 ==> size / 512 == Blocks(size, 512) - 1
  {
  }

  function AppendView(v: View, q: Path, bs: seq<Byte>, k: nat): View
    requires IsFile(v.fs, q) && q in v.chain && (AppendCost(|v.fs[q].bytes|) == 1 ==> k >= 2)
  {
    var v0 := v.(fs := AppendBytes(v.fs, q, bs));
    if AppendCost(|v.fs[q].bytes|) == 0 then v0 else WithGrowth(v0, q, k)
  }

  /** d2 is the volume after write_file, before the directory entry is updated. */
  ghost predicate BytesWritten(d: Disk, v: View, q: Path, k: nat, bs: seq<Byte>, d2: Disk)
    requires Inv(d, v) && IsFile(v.fs, q)
  {
    NodeIsLinked(d, v, q);
    var chain, size := v.chain[q], |v.fs[q].bytes|;
    if AppendCost(size) == 0 then
      size / 512 < |chain| && Patchable(d, chain[size / 512], size % 512, bs)
        && d2 == Patch(d, chain[size / 512], size % 512, bs)
    else
      && Picked(d, v.top, k) && Patchable(Grow(d, chain[|chain| - 1], k), k, 0, bs)
      && d2 == Patch(Grow(d, chain[|chain| - 1], k), k, 0, bs)
  }

  /** The disk with the chain already grown, no byte of data written yet. */
  ghost function GrownDisk(d: Disk, v: View, q: Path, k: nat): Disk
    requires Inv(d, v) && IsFile(v.fs, q) && (AppendCost(|v.fs[q].bytes|) == 1 ==> Picked(d, v.top, k))
  {
    NodeIsLinked(d, v, q);
    if AppendCost(|v.fs[q].bytes|) == 0 then d else Grow(d, v.chain[q][|v.chain[q]| - 1], k)
  }

  lemma WrittenInPlace(d: Disk, v: View, p: Path, name: Name, bs: seq<Byte>, d2: Disk)
    requires Inv(d, v) && IsFile(v.fs, Sub(p, name)) && 1 <= |bs| && |v.fs[Sub(p, name)].bytes| % 512 + |bs| <= 512
    requires BytesWritten(d, v, Sub(p, name), 0, bs, d2) && AppendCost(|v.fs[Sub(p, name)].bytes|) == 0
    ensures DataWritten(d, v, d, v.(fs := AppendBytes(v.fs, Sub(p, name), bs)), p, name, bs, d2) && v.top <= |d.data|
  {
    hide NodeOk, ParentOk, TopOk, ChainsOk, FreeZero;
    var q := Sub(p, name);
    var b, v0 := v.fs[q].bytes, v.(fs := AppendBytes(v.fs, q, bs));
    NodeIsLinked(d, v, q);
    BlocksAppend(|b|, |bs|);
    hide Inv, Claimed, Blocks;
  }

  lemma WrittenWithGrowth(d: Disk, v: View, p: Path, name: Name, k: nat, bs: seq<Byte>, d2: Disk)
    requires Inv(d, v) && IsFile(v.fs, Sub(p, name)) && 1 <= |bs| && |v.fs[Sub(p, name)].bytes| % 512 + |bs| <= 512
    requires BytesWritten(d, v, Sub(p, name), k, bs, d2) && AppendCost(|v.fs[Sub(p, name)].bytes|) == 1
    ensures DataWritten(d, v, GrownDisk(d, v, Sub(p, name), k), AppendView(v, Sub(p, name), bs, k), p, name, bs, d2)
  {
    hide NodeOk, ParentOk, TopOk, MayFind, FarPick, Usable, ChainsOk, FreeZero;
    var q := Sub(p, name);
    var b, v0 := v.fs[q].bytes, v.(fs := AppendBytes(v.fs, q, bs));
    NodeIsLinked(d, v, q);
    BlocksAppend(|b|, |bs|);
    ClaimGrowth(d, v, d, v0, q, k);
    hide Inv, Claimed, Blocks, Linked;
  }

  lemma BytesAreWritten(d: Disk, v: View, p: Path, name: Name, k: nat, bs: seq<Byte>, d2: Disk)
    requires Inv(d, v) && IsFile(v.fs, Sub(p, name)) && 1 <= |bs| && |v.fs[Sub(p, name)].bytes| % 512 + |bs| <= 512
    requires BytesWritten(d, v, Sub(p, name), k, bs, d2)
    ensures DataWritten(d, v, GrownDisk(d, v, Sub(p, name), k), AppendView(v, Sub(p, name), bs, k), p, name, bs, d2)
    ensures AppendView(v, Sub(p, name), bs, k).top <= |d.data|
    ensures Usable(|d.data|, AppendView(v, Sub(p, name), bs, k).top)
            + AppendCost(|v.fs[Sub(p, name)].bytes|) >= Usable(|d.data|, v.top)
  {
    hide Inv, DataWritten, TopOk, MayFind, FarPick, Usable, BytesWritten;
    var q := Sub(p, name);
    if AppendCost(|v.fs[q].bytes|) == 0 {
      AnyGrowth(d, v, q, k, bs, d2);
      WrittenInPlace(d, v, p, name, bs, d2);
    } else {
      WrittenWithGrowth(d, v, p, name, k, bs, d2);
      RoomAfterGrowth(d, v, q, k, bs, d2);
    }
  }

  lemma AnyGrowth(d: Disk, v: View, q: Path, k: nat, bs: seq<Byte>, d2: Disk)
    requires Inv(d, v) && IsFile(v.fs, q) && AppendCost(|v.fs[q].bytes|) == 0 && BytesWritten(d, v, q, k, bs, d2)
    ensures q in v.chain && BytesWritten(d, v, q, 0, bs, d2)
  {
  }

  lemma RoomAfterGrowth(d: Disk, v: View, q: Path, k: nat, bs: seq<Byte>, d2: Disk)
    requires Inv(d, v) && IsFile(v.fs, q) && AppendCost(|v.fs[q].bytes|) == 1 && BytesWritten(d, v, q, k, bs, d2)
    ensures q in v.chain && k >= 2 && AppendView(v, q, bs, k).top <= |d.data|
    ensures Usable(|d.data|, AppendView(v, q, bs, k).top) + 1 >= Usable(|d.data|, v.top)
  {
    hide TopOk, MayFind, FarPick, Usable, NodeOk;
    NodeIsLinked(d, v, q);
    PickedIsFree(d, v.top, k);
  }


  /** The allocation of an append, if there is one. */
  lemma BytesKeepRun(d: Disk, v: View, q: Path, k: nat, bs: seq<Byte>, d2: Disk, clean: bool)
    requires Inv(d, v) && IsFile(v.fs, q) && BytesWritten(d, v, q, k, bs, d2)
    requires AppendCost(|v.fs[q].bytes|) == 1 && clean ==> FindsClean(d.fat, k)
    ensures q in v.chain && RunKept(d, v, d2, AppendView(v, q, bs, k), AppendCost(|v.fs[q].bytes|), clean)
  {
    hide NodeOk, DirOk, FileOk, SlotHolds, ParentOk;
    NodeIsLinked(d, v, q);
    if AppendCost(|v.fs[q].bytes|) == 1 {
      LinkedIsNonZero(d, v.chain[q], |v.chain[q]| - 1);
      GrowKeepsRun(d, v.top, v.chain[q][|v.chain[q]| - 1], k, clean);
    }
  }

  /** After the entry update too, the volume stands for the tree with bs appended. */
  lemma FileAppended(d: Disk, v: View, p: Path, name: Name, k: nat, bs: seq<Byte>, d2: Disk, i: nat, e: nat,
                     entry: Dirent, d3: Disk)
    requires Inv(d, v) && IsFile(v.fs, Sub(p, name)) && 1 <= |bs| && |v.fs[Sub(p, name)].bytes| % 512 + |bs| <= 512
    requires BytesWritten(d, v, Sub(p, name), k, bs, d2) && EntrySlot(v, p, name, i, e)
    requires GoodName(name) && p in v.chain && |v.chain[Sub(p, name)]| >= 1
    requires entry == EntryFor(v, p, name).(size := |v.fs[Sub(p, name)].bytes| + |bs|)
    requires WfDisk(d2) && InVolume(d2, v.chain[p][i]) && Fits(entry)
             && d3 == Patch(d2, v.chain[p][i], 64 * e, Encode(entry))
    ensures Inv(d3, AppendView(v, Sub(p, name), bs, k))
  {
    hide NodeOk, DirOk, FileOk, SlotHolds;
    var q := Sub(p, name);
    var v' := AppendView(v, q, bs, k);
    BytesAreWritten(d, v, p, name, k, bs, d2);
    NodeIsLinked(d, v, q);
    assert EntryFor(v', p, name) == entry;
    AppendKeepsInv(d, v, GrownDisk(d, v, q, k), v', p, name, bs, d2, i, e, d3);
  }

  lemma ParentKept(d: Disk, v: View, d': Disk, v': View, p: Path, name: Name, bs: seq<Byte>, d2: Disk)
    requires DataWritten(d, v, d', v', p, name, bs, d2) && p in v.chain && WfDisk(d)
    ensures WfDisk(d2) && |d2.data| == |d.data| && Linked(d, v.chain[p]) && Linked(d2, v.chain[p])
    ensures forall j :: 0 <= j < |v.chain[p]| ==> Cluster(d2, v.chain[p][j]) == Cluster(d, v.chain[p][j])
  {
    hide NodeOk, TopOk, FreeZero, ParentOk, ChainsOk, Blocks;
    ChainIsLinked(d, v.chain, v.owner, p);
    UntouchedChain(d, v, d', v', p, name, bs, d2, p);
    SameTableSameChains(d', d2, v'.chain, v'.owner);
    ChainIsLinked(d2, v'.chain, v'.owner, p);
  }

  /** The data write leaves the parent directory's clusters alone. */
  lemma ParentUntouched(d: Disk, v: View, p: Path, name: Name, k: nat, bs: seq<Byte>, d2: Disk)
    requires Inv(d, v) && IsFile(v.fs, Sub(p, name)) && 1 <= |bs| && |v.fs[Sub(p, name)].bytes| % 512 + |bs| <= 512
    requires BytesWritten(d, v, Sub(p, name), k, bs, d2) && p in v.chain
    ensures WfDisk(d2) && |d2.data| == |d.data| && Linked(d, v.chain[p]) && Linked(d2, v.chain[p])
    ensures forall j :: 0 <= j < |v.chain[p]| ==> Cluster(d2, v.chain[p][j]) == Cluster(d, v.chain[p][j])
  {
    BytesAreWritten(d, v, p, name, k, bs, d2);
    hide Inv, DataWritten;
    ParentKept(d, v, GrownDisk(d, v, Sub(p, name), k), AppendView(v, Sub(p, name), bs, k), p, name, bs, d2);
  }

  /** A search of the same directory clusters stops at the same entry. */
  lemma SameFirstMatch(d: Disk, d2: Disk, chain: seq<nat>, want: Want, i: nat, e: nat, i2: nat, e2: nat)
    requires WfDisk(d) && WfDisk(d2) && Linked(d, chain) && Linked(d2, chain)
    requires forall j :: 0 <= j < |chain| ==> Cluster(d2, chain[j]) == Cluster(d, chain[j])
    requires FirstMatch(d, chain, want, i, e) && FirstMatch(d2, chain, want, i2, e2)
    ensures i == i2 && e == e2
  {
    SameDirents(d, d2, chain, i, e);
    SameDirents(d, d2, chain, i2, e2);
  }

  lemma SameDirents(d: Disk, d2: Disk, chain: seq<nat>, i: nat, e: nat)
    requires WfDisk(d) && WfDisk(d2) && i < |chain| && e < 8 && InVolume(d, chain[i]) && InVolume(d2, chain[i])
    requires Cluster(d2, chain[i]) == Cluster(d, chain[i])
    ensures DirentAt(d2, chain[i], e) == DirentAt(d, chain[i], e)
  {
  }
}
