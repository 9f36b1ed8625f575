// The allocation scan of fat.c on table values. The scan reads a 32-bit word at
// every 2-byte slot, so a slot counts as empty when it and its successor are
// zero. At the last slot of a 256-slot sector the second half of the word lies
// past the sector buffer; nothing is assumed about what it holds.
module Allocation {
  import opened Disks

  function Max(a: nat, b: nat): nat {
    if a < b then b else a
  }

  predicate LastInSector(s: nat) {
    s % 256 == 255
  }

  /** Slot s certainly reads as empty. */
  predicate CertainlyEmpty(fat: seq<nat>, s: nat)
    requires s < |fat| && |fat| % 256 == 0
  {
    fat[s] == 0 && !LastInSector(s) && fat[s + 1] == 0
  }

  /** Slot s reads as empty for some contents of the bytes past the buffer. */
  predicate PossiblyEmpty(fat: seq<nat>, s: nat)
    requires s < |fat| && |fat| % 256 == 0
  {
    fat[s] == 0 && (LastInSector(s) || fat[s + 1] == 0)
  }

  /** The scan may return cluster number x. */
  ghost predicate MayFind(fat: seq<nat>, x: nat) {
    && 2 <= x < |fat| + 2 && |fat| % 256 == 0
    && PossiblyEmpty(fat, x - 2)
    && (forall t :: 0 <= t < x - 2 ==> !CertainlyEmpty(fat, t))
  }

  /** The scan returns x when every byte pair past a sector buffer is zero. */
  ghost predicate FindsClean(fat: seq<nat>, x: nat) {
    MayFind(fat, x) && (forall t :: 0 <= t < x - 2 ==> !PossiblyEmpty(fat, t))
  }

  /** Every slot from top on is free; below top only last slots of a sector can be. */
  ghost predicate TopOk(fat: seq<nat>, top: nat) {
    && (forall s :: top <= s < |fat| ==> fat[s] == 0)
    && (forall s :: 0 <= s < top && s < |fat| && !LastInSector(s) ==> fat[s] != 0)
  }

  /** The allocated slots are exactly those below top. */
  ghost predicate Compact(fat: seq<nat>, top: nat) {
    TopOk(fat, top) && (forall s :: 0 <= s < top && s < |fat| ==> fat[s] != 0)
  }

  /** The highest slot the scan can return. */
  function FarPick(top: nat): nat {
    if LastInSector(top) then top + 1 else top
  }

  /** Allocations that succeed inside n clusters whatever lies past the buffer:
      the slots in top..n that are not the last of their sector. */
  function Usable(n: nat, top: nat): nat {
    if top >= n then 0 else (n - top) - (n / 256 - top / 256)
  }

  lemma PickBounds(fat: seq<nat>, top: nat, x: nat)
    requires TopOk(fat, top) && FarPick(top) < |fat| && MayFind(fat, x)
    ensures fat[x - 2] == 0 && x - 2 <= FarPick(top)
    ensures x - 2 >= top || LastInSector(x - 2)
  {
    assert CertainlyEmpty(fat, FarPick(top));
  }

  lemma ClaimKeepsTop(fat: seq<nat>, top: nat, x: nat, value: nat)
    requires TopOk(fat, top) && FarPick(top) < |fat| && MayFind(fat, x) && value != 0
    ensures TopOk(fat[x - 2 := value], Max(top, x - 1))
  {
    PickBounds(fat, top, x);
  }

  /** One allocation uses up at most one usable cluster. */
  lemma UsableDrops(n: nat, top: nat, s: nat)
    requires s <= FarPick(top) && (s >= top || LastInSector(s))
    ensures Usable(n, Max(top, s + 1)) + 1 >= Usable(n, top)
  {
  }

  lemma UsableIff(n: nat, top: nat)
    ensures Usable(n, top) >= 1 <==> FarPick(top) < n
  {
  }

  /** The scan stays inside the volume for every content of the bytes past the
      buffer exactly when a usable cluster is left. */
  lemma ScanStaysInsideIff(d: Disk, top: nat)
    requires WfDisk(d) && TopOk(d.fat, top) && top <= |d.data|
    ensures (forall x :: MayFind(d.fat, x) ==> InVolume(d, x)) <==> Usable(|d.data|, top) >= 1
  {
    UsableIff(|d.data|, top);
    if FarPick(top) < |d.data| {
      forall x | MayFind(d.fat, x) ensures InVolume(d, x) {
        PickBounds(d.fat, top, x);
      }
    } else {
      assert MayFind(d.fat, FarPick(top) + 2) && !InVolume(d, FarPick(top) + 2);
    }
  }

  // ----- when the allocated slots stay one run

  /** With zero bytes past the buffer the allocated slots stay one unbroken run. */
  lemma CleanScanIsCompact(fat: seq<nat>, top: nat, x: nat, value: nat)
    requires Compact(fat, top) && FarPick(top) < |fat| && FindsClean(fat, x) && value != 0
    ensures x - 2 == top && Compact(fat[x - 2 := value], top + 1)
  {
    PickBounds(fat, top, x);
    assert PossiblyEmpty(fat, top);
  }

  /** Away from the last slot of a sector the bytes past the buffer do not matter. */
  lemma MidSectorScanIsCompact(fat: seq<nat>, top: nat, x: nat, value: nat)
    requires Compact(fat, top) && FarPick(top) < |fat| && MayFind(fat, x) && value != 0 && !LastInSector(top)
    ensures x - 2 == top && Compact(fat[x - 2 := value], top + 1)
  {
    PickBounds(fat, top, x);
  }

  /** The allocated slots are not the first so and so many. */
  ghost predicate Broken(fat: seq<nat>) {
    forall t :: !Compact(fat, t)
  }

  /** At the last slot of a sector the scan can skip it, and then no run is left at all. */
  lemma ScanCanLeaveAHole(fat: seq<nat>, top: nat, value: nat)
    requires Compact(fat, top) && FarPick(top) < |fat| && |fat| % 256 == 0 && value != 0 && LastInSector(top)
    ensures MayFind(fat, top + 3) && Broken(fat[top + 1 := value])
  {
    var fat' := fat[top + 1 := value];
    assert CertainlyEmpty(fat, top + 1);
    assert fat'[top] == 0 && fat'[top + 1] != 0;
  }

  /** One allocation keeps the run, whatever lies past the buffer, exactly when
      it does not start at the last slot of a sector. */
  lemma ScanKeepsRunIff(fat: seq<nat>, top: nat, value: nat)
    requires Compact(fat, top) && FarPick(top) < |fat| && |fat| % 256 == 0 && value != 0
    ensures (forall x {:trigger MayFind(fat, x)} :: MayFind(fat, x) ==> Compact(fat[x - 2 := value], top + 1))
            <==> !LastInSector(top)
  {
    if LastInSector(top) {
      ScanCanLeaveAHole(fat, top, value);
      assert !Compact(fat[top + 3 - 2 := value], top + 1);
    } else {
      forall x {:trigger MayFind(fat, x)} | MayFind(fat, x) ensures Compact(fat[x - 2 := value], top + 1) {
        MidSectorScanIsCompact(fat, top, x, value);
      }
    }
  }

  lemma UsableIsRoom(n: nat, top: nat)
    ensures Usable(n, top) > 0 ==> top + Usable(n, top) <= n
  {
  }

  /** Cluster numbers that successive scans can return, each claimed before the next scan. */
  ghost predicate Picks(fat: seq<nat>, xs: seq<nat>)
    decreases |xs|
  {
    xs == [] || (MayFind(fat, xs[0]) && Picks(fat[xs[0] - 2 := END], xs[1..]))
  }

  /** The table once they are all claimed. */
  ghost function AfterPicks(fat: seq<nat>, xs: seq<nat>): seq<nat>
    requires Picks(fat, xs)
    decreases |xs|
  {
    if xs == [] then fat else AfterPicks(fat[xs[0] - 2 := END], xs[1..])
  }

  /** The next n slots from top on lie inside one sector, its last slot not among them. */
  predicate InsideSector(top: nat, n: nat) {
    top % 256 + n <= 255
  }

  lemma NextInside(top: nat, n: nat)
    requires InsideSector(top, n) && n > 0
    ensures !LastInSector(top) && FarPick(top) == top && InsideSector(top + 1, n - 1)
  {
  }

  lemma {:induction false} PicksInsideSector(fat: seq<nat>, top: nat, xs: seq<nat>)
    requires Compact(fat, top) && |fat| % 256 == 0 && InsideSector(top, |xs|) && Picks(fat, xs)
    requires xs != [] ==> top + |xs| <= |fat|
    ensures Compact(AfterPicks(fat, xs), top + |xs|)
    decreases |xs|
  {
    hide Compact, TopOk, MayFind, FarPick, InsideSector, LastInSector;
    if xs != [] {
      NextInside(top, |xs|);
      MidSectorScanIsCompact(fat, top, xs[0], END);
      PicksInsideSector(fat[xs[0] - 2 := END], top + 1, xs[1..]);
    }
  }

  lemma NextSlotMayBeFound(fat: seq<nat>, top: nat)
    requires TopOk(fat, top) && |fat| % 256 == 0 && FarPick(top) < |fat|
    ensures MayFind(fat, FarPick(top) + 2)
  {
    assert CertainlyEmpty(fat, FarPick(top));
  }

  /** n scans that skip every last slot of a sector: a hole below the old top stays one. */
  lemma {:induction false} FarPicks(fat: seq<nat>, top: nat, n: nat) returns (xs: seq<nat>)
    requires TopOk(fat, top) && |fat| % 256 == 0 && Usable(|fat|, top) >= n
    ensures |xs| == n && Picks(fat, xs) && |AfterPicks(fat, xs)| == |fat|
    ensures forall s :: 0 <= s < |fat| && fat[s] == 0 && (s < top || (LastInSector(s) && s == top))
                        ==> AfterPicks(fat, xs)[s] == 0
    decreases n
  {
    if n == 0 {
      return [];
    }
    UsableIff(|fat|, top);
    var s := FarPick(top);
    NextSlotMayBeFound(fat, top);
    ClaimKeepsTop(fat, top, s + 2, END);
    UsableDrops(|fat|, top, s);
    hide Usable, MayFind;
    var rest := FarPicks(fat[s := END], s + 1, n - 1);
    xs := [s + 2] + rest;
    assert xs[1..] == rest;
  }

  /** n allocations from an unbroken run keep it unbroken, whatever lies past the
      sector buffers, exactly when none of them starts at the last slot of a sector. */
  lemma {:induction false} RunStaysCompactIff(fat: seq<nat>, top: nat, n: nat)
    requires Compact(fat, top) && |fat| % 256 == 0 && Usable(|fat|, top) >= n
    ensures (forall xs :: |xs| == n && Picks(fat, xs) ==> Compact(AfterPicks(fat, xs), top + n))
            <==> InsideSector(top, n)
  {
    if InsideSector(top, n) {
      UsableIsRoom(|fat|, top);
      forall xs | |xs| == n && Picks(fat, xs) ensures Compact(AfterPicks(fat, xs), top + n) {
        PicksInsideSector(fat, top, xs);
      }
    } else {
      var xs := PicksWithHole(fat, top, n);
      assert !Compact(AfterPicks(fat, xs), top + n);
    }
  }

  lemma StillNotInside(n: nat, top: nat, size: nat)
    requires !LastInSector(top) && !InsideSector(top, n) && Usable(size, top) >= n
    ensures n > 0 && !InsideSector(top + 1, n - 1) && Usable(size, top + 1) >= n - 1 && top + 1 < size
  {
    UsableDrops(size, top, top);
  }

  lemma FreeSlotBreaksRun(fat: seq<nat>, top: nat, s: nat)
    requires s < top && s < |fat| && fat[s] == 0
    ensures !Compact(fat, top)
  {
  }

  /** Claim slot after slot up to the end of the sector, then skip. */
  lemma {:induction false} PicksWithHole(fat: seq<nat>, top: nat, n: nat) returns (xs: seq<nat>)
    requires Compact(fat, top) && |fat| % 256 == 0 && Usable(|fat|, top) >= n && !InsideSector(top, n)
    ensures |xs| == n && Picks(fat, xs) && !Compact(AfterPicks(fat, xs), top + n)
    decreases n
  {
    UsableIff(|fat|, top);
    hide Usable, MayFind, InsideSector;
    if LastInSector(top) {
      assert n > 0 by { LastIsNotInside(top, n); }
      xs := FarPicks(fat, top, n);
      FreeSlotBreaksRun(AfterPicks(fat, xs), top + n, top);
    } else {
      StillNotInside(n, top, |fat|);
      NextSlotMayBeFound(fat, top);
      MidSectorScanIsCompact(fat, top, top + 2, END);
      hide Compact, TopOk;
      var rest := PicksWithHole(fat[top := END], top + 1, n - 1);
      xs := [top + 2] + rest;
      assert xs[1..] == rest;
    }
  }

  lemma LastIsNotInside(top: nat, n: nat)
    requires LastInSector(top) && !InsideSector(top, n)
    ensures n > 0
  {
  }

  /** What an operation that makes at most cost allocations does to an unbroken run:
      it stays one if every byte past a buffer was zero (clean), or if the sector of
      the next slot has that many slots left before its last. */
  ghost predicate KeepsRun(fat: seq<nat>, top: nat, fat': seq<nat>, top': nat, cost: nat, clean: bool) {
    Compact(fat, top) && (clean || InsideSector(top, cost)) ==> Compact(fat', top') && top <= top' <= top + cost
  }

  lemma ClaimKeepsRun(fat: seq<nat>, top: nat, x: nat, value: nat, clean: bool)
    requires TopOk(fat, top) && FarPick(top) < |fat| && MayFind(fat, x) && (clean ==> FindsClean(fat, x)) && value != 0
    ensures KeepsRun(fat, top, fat[x - 2 := value], Max(top, x - 1), 1, clean)
  {
    if Compact(fat, top) && clean {
      CleanScanIsCompact(fat, top, x, value);
    } else if Compact(fat, top) && InsideSector(top, 1) {
      MidSectorScanIsCompact(fat, top, x, value);
    }
  }

  lemma KeepsRunIfBoth(fat: seq<nat>, top: nat, fat': seq<nat>, top': nat, cost: nat, c1: bool, c2: bool)
    requires KeepsRun(fat, top, fat', top', cost, c1)
    ensures KeepsRun(fat, top, fat', top', cost, c1 && c2)
  {
  }

  lemma KeepsRunThen(fat: seq<nat>, top: nat, fat1: seq<nat>, top1: nat, m: nat, c1: bool, fat2: seq<nat>, top2: nat,
                     n: nat, c2: bool)
    requires KeepsRun(fat, top, fat1, top1, m, c1) && KeepsRun(fat1, top1, fat2, top2, n, c2)
    ensures KeepsRun(fat, top, fat2, top2, m + n, c1 && c2)
  {
  }
}
