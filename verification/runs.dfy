// Any sequence of operations on a formatted volume behaves like the same
// sequence on the tree.
module Runs {
  import opened Bytes
  import opened Disks
  import opened Dirents
  import opened Views
  import opened Claims
  import opened Volumes
  import opened Strtok
  import opened Routes
  import opened Files
  import opened Dirs
  import opened SqliteIo
  import opened Mkfs
  import opened Allocation

  datatype Op =
    | MakeDir(route: seq<Name>, name: Name)
    | MakeFile(route: seq<Name>, name: Name)
    | Append(route: seq<Name>, name: Name, bytes: seq<Byte>, offset: nat)
    | LookUp(route: seq<Name>, name: Name)
    | ReadAt(route: seq<Name>, name: Name, len: nat, offset: nat)
    | List(route: seq<Name>)

  datatype Answer = Done | Wrote(count: nat) | Kind(kind: int) | Bytes(bytes: seq<Byte>) | Names(names: seq<Listed>)

  predicate GoodRoute(names: seq<Name>) {
    forall k :: 0 <= k < |names| ==> names[k] != [] && 0 !in names[k] && 47 !in names[k]
  }

  /** What the callers of the source guarantee for one operation, said of the tree. */
  predicate Allowed(fs: Tree, op: Op) {
    GoodRoute(op.route) &&
    match op
    case MakeDir(route, name) => CanMake(fs, Walk(Root, route), name)
    case MakeFile(route, name) => CanMake(fs, Walk(Root, route), name)
    case Append(route, name, bytes, offset) =>
      var q := Sub(Walk(Root, route), name);
      IsFile(fs, q) && offset == |fs[q].bytes| && |bytes| < 0x8000_0000
        && (offset % 512 == 0 || offset % 512 + |bytes| <= 512)
    case LookUp(route, name) => IsDir(fs, Walk(Root, route)) && name != []
    case ReadAt(route, name, len, offset) =>
      IsFile(fs, Sub(Walk(Root, route), name)) && len < 0x8000_0000 && offset < 0x1_0000_0000
    case List(route) => |Joined(route, 47)| < PATH_BUFFER
  }

  /** The same operation on the tree. */
  function Step(fs: Tree, op: Op): (Tree, Answer)
    requires Allowed(fs, op)
  {
    match op
    case MakeDir(route, name) => (MakeNode(fs, Walk(Root, route), name, DirNode([])), Done)
    case MakeFile(route, name) => (MakeNode(fs, Walk(Root, route), name, FileNode([])), Done)
    case Append(route, name, bytes, offset) =>
      var q := Sub(Walk(Root, route), name);
      var n := Min(|bytes|, 512 - offset % 512);
      (AppendBytes(fs, q, bytes[..n]), Wrote(n))
    case LookUp(route, name) => (fs, Kind(KindOf(fs, Sub(Walk(Root, route), name))))
    case ReadAt(route, name, len, offset) =>
      var b := fs[Sub(Walk(Root, route), name)].bytes;
      (fs, Bytes(if offset > |b| then [] else b[offset..offset + ReadLen(len, offset, |b|)]))
    case List(route) =>
      var p := Walk(Root, route);
      (fs, Names(if IsDir(fs, p) then ListingOf(fs, p, |fs[p].names|) else []))
  }

  /** Descent goes down one component at a time. */
  lemma {:induction false} WalkSnoc(p: Path, names: seq<Name>, last: Name)
    ensures Walk(p, names + [last]) == Sub(Walk(p, names), last)
    decreases |names|
  {
    if names != [] {
      assert (names + [last])[1..] == names[1..] + [last];
      WalkSnoc(Sub(p, names[0]), names[1..], last);
    }
  }

  /** fs1 is fs with one more node, last in the listing of p, and nothing else. */
  ghost predicate Adds(fs: Tree, p: Path, name: Name, node: Node, fs1: Tree)
    requires IsDir(fs, p)
  {
    && fs1.Keys == fs.Keys + {Sub(p, name)} && fs1[Sub(p, name)] == node
    && fs1[p] == DirNode(fs[p].names + [name])
    && forall r :: r in fs && r != p ==> fs1[r] == fs[r]
  }

  /** fs1 is fs with the first n of the bytes after those of the file q: all of them or up to the end of a
      512-byte cluster. */
  ghost predicate Appends(fs: Tree, q: Path, bytes: seq<Byte>, n: nat, fs1: Tree)
    requires IsFile(fs, q)
  {
    var b := fs[q].bytes;
    && n <= |bytes| && |b| % 512 + n <= 512 && (n < |bytes| ==> |b| % 512 + n == 512)
    && fs1.Keys == fs.Keys && fs1[q] == FileNode(b + bytes[..n])
    && forall r :: r in fs && r != q ==> fs1[r] == fs[r]
  }

  /** What an operation changes and answers, said of the tree alone. */
  ghost predicate Means(fs: Tree, op: Op, fs1: Tree, answer: Answer)
    requires Allowed(fs, op)
  {
    var p := Walk(Root, op.route);
    match op
    case MakeDir(_, name) => answer == Done && Adds(fs, p, name, DirNode([]), fs1)
    case MakeFile(_, name) => answer == Done && Adds(fs, p, name, FileNode([]), fs1)
    case Append(_, name, bytes, _) => answer.Wrote? && Appends(fs, Sub(p, name), bytes, answer.count, fs1)
    case LookUp(_, name) =>
      var q := Sub(p, name);
      && fs1 == fs && answer.Kind? && (q !in fs ==> answer.kind == 0)
      && (q in fs && fs[q].FileNode? ==> answer.kind == 1) && (q in fs && fs[q].DirNode? ==> answer.kind == 2)
    case ReadAt(_, name, len, offset) =>
      fs1 == fs && answer.Bytes? && ReadGives(fs[Sub(p, name)].bytes, len, offset, answer.bytes)
    case List(_) =>
      fs1 == fs && answer.Names? && if p in fs && fs[p].DirNode? then Lists(fs, p, answer.names) else answer.names == []
  }

  lemma AddsIff(fs: Tree, p: Path, name: Name, node: Node, fs1: Tree)
    requires CanMake(fs, p, name)
    ensures Adds(fs, p, name, node, fs1) <==> fs1 == MakeNode(fs, p, name, node)
  {
  }

  lemma AppendsIff(fs: Tree, q: Path, bytes: seq<Byte>, n: nat, fs1: Tree)
    requires IsFile(fs, q)
    ensures Appends(fs, q, bytes, n, fs1)
       <==> n == Min(|bytes|, 512 - |fs[q].bytes| % 512) && fs1 == AppendBytes(fs, q, bytes[..n])
  {
  }

  lemma GivesIff(b: seq<Byte>, len: nat, offset: nat, buf: seq<Byte>)
    ensures ReadGives(b, len, offset, buf)
       <==> buf == if offset > |b| then [] else b[offset..offset + ReadLen(len, offset, |b|)]
  {
    ReadLenGives(b, len, offset);
    if offset <= |b| && ReadGives(b, len, offset, buf) {
      assert |buf| == ReadLen(len, offset, |b|);
    }
  }

  lemma ListsIff(fs: Tree, p: Path, out: seq<Listed>)
    requires IsDir(fs, p)
    ensures Lists(fs, p, out) <==> out == ListingOf(fs, p, |fs[p].names|)
  {
    ListingIs(fs, p, |fs[p].names|);
  }

  /** The tree's step is the one and only step with that meaning. */
  lemma StepIff(fs: Tree, op: Op, fs1: Tree, answer: Answer)
    requires Allowed(fs, op)
    ensures Means(fs, op, fs1, answer) <==> (fs1, answer) == Step(fs, op)
  {
    hide Adds, Appends, ReadGives, Lists, ReadLen, ListingOf, MakeNode, AppendBytes;
    var p := Walk(Root, op.route);
    match op
    case MakeDir(_, name) => AddsIff(fs, p, name, DirNode([]), fs1);
    case MakeFile(_, name) => AddsIff(fs, p, name, FileNode([]), fs1);
    case Append(_, name, bytes, _) =>
      if answer.Wrote? {
        AppendsIff(fs, Sub(p, name), bytes, answer.count, fs1);
      }
    case LookUp(_, _) =>
    case ReadAt(_, name, len, offset) =>
      if answer.Bytes? {
        GivesIff(fs[Sub(p, name)].bytes, len, offset, answer.bytes);
      }
    case List(_) =>
      if IsDir(fs, p) && answer.Names? {
        ListsIff(fs, p, answer.names);
      }
  }

  /** Clusters the operation can take. */
  function Cost(fs: Tree, op: Op): nat
    requires Allowed(fs, op)
  {
    match op
    case MakeDir(route, _) => MakeCost(fs, Walk(Root, route))
    case MakeFile(route, _) => MakeCost(fs, Walk(Root, route))
    case Append(route, name, bytes, offset) => if bytes == [] then 0 else AppendCost(offset)
    case _ => 0
  }

  /** Clusters that n units fill, u to a cluster; there is always one. */
  function Filling(n: nat, u: nat): nat
    requires u > 0
  {
    if n <= u then 1 else (n + u - 1) / u
  }

  /** The cost is exactly the growth of the tree in clusters: the new node's own one and those its parent's
      entries or the file's bytes fill in addition. */
  lemma CostIsGrowth(fs: Tree, op: Op)
    requires Allowed(fs, op)
    ensures var p, cost := Walk(Root, op.route), Cost(fs, op);
            match op
            case MakeDir(_, _) => cost == 1 + Filling(|fs[p].names| + 1, 8) - Filling(|fs[p].names|, 8)
            case MakeFile(_, _) => cost == 1 + Filling(|fs[p].names| + 1, 8) - Filling(|fs[p].names|, 8)
            case Append(_, name, bytes, _) =>
              var b, n := fs[Sub(p, name)].bytes, Step(fs, op).1.count;
              cost == Filling(|b| + n, 512) - Filling(|b|, 512)
            case _ => cost == 0
  {
    var p := Walk(Root, op.route);
    match op
    case MakeDir(_, _) => GrowsByOne(|fs[p].names|);
    case MakeFile(_, _) => GrowsByOne(|fs[p].names|);
    case Append(_, name, bytes, offset) => GrowsWithin(offset, |bytes|);
    case _ =>
  }

  lemma GrowsByOne(n: nat)
    ensures Filling(n + 1, 8) == Filling(n, 8) + if n > 0 && n % 8 == 0 then 1 else 0
  {
  }

  lemma GrowsWithin(size: nat, len: nat)
    ensures var n := Min(len, 512 - size % 512);
            Filling(size + n, 512) == Filling(size, 512) + if len == 0 then 0 else AppendCost(size)
  {
  }

  predicate AllAllowed(fs: Tree, ops: seq<Op>)
    decreases |ops|
  {
    ops != [] ==> Allowed(fs, ops[0]) && AllAllowed(Step(fs, ops[0]).0, ops[1..])
  }

  function TreeRun(fs: Tree, ops: seq<Op>): (Tree, seq<Answer>)
    requires AllAllowed(fs, ops)
    decreases |ops|
  {
    if ops == [] then (fs, []) else
      var (fs1, answer) := Step(fs, ops[0]);
      var (fs2, answers) := TreeRun(fs1, ops[1..]);
      (fs2, [answer] + answers)
  }

  function TotalCost(fs: Tree, ops: seq<Op>): nat
    requires AllAllowed(fs, ops)
    decreases |ops|
  {
    if ops == [] then 0 else Cost(fs, ops[0]) + TotalCost(Step(fs, ops[0]).0, ops[1..])
  }

  /** A route buffer as a caller writes it: each component after a slash, then NUL. */
  method WriteRoute(names: seq<Name>) returns (route: array<Byte>)
    requires GoodRoute(names)
    ensures fresh(route) && 0 in route[..] && CString(route[..]) == Joined(names, 47)
    ensures RouteNames(route[..]) == names && RoutePath(route[..]) == Walk(Root, names)
  {
    var s := Joined(names, 47);
    JoinedHasNoNul(names);
    route := new Byte[|s| + 1](i requires 0 <= i < |s| + 1 => if i < |s| then s[i] else 0);
    assert route[..] == s + [0];
    CStringIs(route[..], s);
    TokensOfJoined(names, 47);
  }

  lemma {:induction false} JoinedHasNoNul(names: seq<Name>)
    requires GoodRoute(names)
    ensures 0 !in Joined(names, 47)
  {
    if names != [] {
      JoinedHasNoNul(names[1..]);
    }
  }

  /** One operation on the volume is the same operation on the tree. */
  method Perform(volume: Volume, op: Op) returns (answer: Answer, ghost clean: bool)
    requires volume.Valid() && Allowed(volume.view.fs, op) && Spare(volume) >= Cost(volume.view.fs, op)
    modifies volume
    ensures volume.Valid() && |volume.bytes| == |old(volume.bytes)|
    ensures (volume.view.fs, answer) == Step(old(volume.view.fs), op)
    ensures Spare(volume) + Cost(old(volume.view.fs), op) >= old(Spare(volume))
    ensures RunKept(old(volume.D()), old(volume.view), volume.D(), volume.view, Cost(old(volume.view.fs), op), clean)
  {
    hide Inv, RouteNames, RoutePath, DiskOf, SbOf, Compact;
    clean := true;
    var ok;
    var route := WriteRoute(op.route);
    match op {
      case MakeDir(_, name) =>
        ok, clean := Mkdir(volume, route, name);
        answer := Done;
      case MakeFile(_, name) =>
        ok, clean := Create(volume, route, name);
        answer := Done;
      case Append(_, name, bytes, offset) =>
        var n;
        n, clean := WriteSqliteFile(volume, route, name, bytes, |bytes|, offset);
        answer := Wrote(n);
      case LookUp(_, name) =>
        var kind := Lookup(volume, route, name);
        answer := Kind(kind);
      case ReadAt(_, name, len, offset) =>
        var bytes := ReadSqliteFile(volume, route, name, len, offset);
        answer := Bytes(bytes);
      case List(_) =>
        var names := Readdir(volume, route);
        answer := Names(names);
    }
  }

  /** Every run on the disk gives the tree's answers and ends in the tree's state. The
      allocated slots stay one unbroken run if every scan read zeros past its buffer
      (clean), or if the run fits in what is left of the current sector of the table. */
  method Run(volume: Volume, ops: seq<Op>) returns (answers: seq<Answer>, ghost clean: bool)
    requires volume.Valid() && AllAllowed(volume.view.fs, ops) && Spare(volume) >= TotalCost(volume.view.fs, ops)
    modifies volume
    ensures volume.Valid() && (volume.view.fs, answers) == TreeRun(old(volume.view.fs), ops)
    ensures RunKept(old(volume.D()), old(volume.view), volume.D(), volume.view, TotalCost(old(volume.view.fs), ops),
                    clean)
    decreases |ops|
  {
    hide Inv, DiskOf, SbOf, Step, Allowed, Cost, Compact;
    if ops == [] {
      return [], true;
    }
    ghost var fs, fat, top := volume.view.fs, volume.D().fat, volume.view.top;
    var answer;
    answer, clean := Perform(volume, ops[0]);
    ghost var fs1, fat1, top1 := volume.view.fs, volume.D().fat, volume.view.top;
    var rest;
    ghost var later;
    rest, later := Run(volume, ops[1..]);
    KeepsRunThen(fat, top, fat1, top1, Cost(fs, ops[0]), clean, volume.D().fat, volume.view.top,
                 TotalCost(fs1, ops[1..]), later);
    clean := clean && later;
    answers := [answer] + rest;
  }

  /** From mkfs on: format a new file, then run. Up to 254 clusters are always taken in
      one unbroken run, whatever lies past the sector buffers. */
  method FormatAndRun(volume: Volume, identity: seq<Byte>, volumeSize: nat, clusterSize: nat, ops: seq<Op>)
    returns (answers: seq<Answer>, ghost clean: bool)
    requires volume.bytes == [] && volume.pos == 0 && |identity| == 19
    requires clusterSize > 0 && volumeSize % clusterSize == 0 && GoodCount(volumeSize / 512)
    requires var fs := map[Root := DirNode([])];
             AllAllowed(fs, ops) && TotalCost(fs, ops) <= Usable(DataCount(volumeSize / 512), 1)
    modifies volume
    ensures volume.Valid() && (volume.view.fs, answers) == TreeRun(map[Root := DirNode([])], ops)
    ensures clean || TotalCost(map[Root := DirNode([])], ops) <= 254 ==> Compact(volume.D().fat, volume.view.top)
  {
    CreateVolume(volume, identity, volumeSize, clusterSize);
    answers, clean := Run(volume, ops);
  }
}
