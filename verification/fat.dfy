// fat.c: reading, writing and scanning the allocation table on the volume.
module Fat {
  import opened Bytes
  import opened Disks
  import opened Allocation
  import opened Volumes

  /** The first index past the table is let through: its two bytes are the first of cluster 2. */
  lemma PastTheTable(bytes: seq<Byte>, c: nat, s: seq<Byte>)
    requires GoodCount(c) && 512 * c <= |bytes| && |s| == 2
    ensures WfDisk(DiskOf(bytes, c)) && InVolume(DiskOf(bytes, c), 2) && |Cluster(DiskOf(bytes, c), 2)| == 512
    ensures 512 + 2 * Slots(c) + 512 <= |bytes|
    ensures bytes[512 + 2 * Slots(c)..514 + 2 * Slots(c)] == Cluster(DiskOf(bytes, c), 2)[..2]
    ensures DiskOf(Splice(bytes, 512 + 2 * Slots(c), s), c) == Patch(DiskOf(bytes, c), 2, 0, s)
    ensures Splice(bytes, 512 + 2 * Slots(c), s)[..512] == bytes[..512]
  {
    SpliceCluster(bytes, c, 2, 0, s);
    SliceOfSlice(bytes, DataStart(c), DataStart(c) + 512, 0, 2);
  }

  /** What read_fat_index answers: the two bytes at an index, refused only from the second index past the table on. */
  ghost predicate ReadAnswer(bytes: seq<Byte>, c: nat, index: nat, value: nat) {
    if index > Slots(c) + 2 then value == 0
    else 510 + 2 * index <= |bytes| && value == FromLe(bytes[508 + 2 * index..510 + 2 * index])
  }

  method ReadFatIndex(volume: Volume, index: nat) returns (value: nat)
    requires volume.Formatted()
    modifies volume`pos
    ensures InTable(volume.D(), index) ==> value == Next(volume.D(), index)
    ensures ReadAnswer(volume.bytes, |volume.bytes| / 512, index, value)
  {
    hide FromLe, SbOf;
    var sb := ReadSb(volume);
    var startPosition := sb.fatSector * sb.bytesPerSector;
    var endPosition := (sb.fatSector + sb.sectorsOfFat * sb.copiesOfFat) * sb.bytesPerSector;
    var readPosition := startPosition + sb.fatIndexSize * (index - 2);
    PastTheTable(volume.bytes, |volume.bytes| / 512, [0, 0]);
    if readPosition > endPosition {
      return 0;
    }
    volume.Seek(readPosition);
    var s := volume.Read(sb.fatIndexSize);
    value := FromLe(s);
  }

  lemma LeTwo(n: nat)
    ensures Le(n, 2) == [n % 256, n / 256 % 256]
  {
    assert Le(n / 256 / 256, 0) == [];
    assert Le(n / 256, 1) == [n / 256 % 256] + [];
    assert Le(n, 2) == [n % 256] + Le(n / 256, 1);
  }

  lemma LowDigits(value: nat)
    ensures value % 0x1_0000 % 256 == value % 256 && value % 0x1_0000 / 256 % 256 == value / 256 % 256
  {
    var q, r := value / 0x1_0000, value % 0x1_0000;
    assert value == 256 * (256 * q + r / 256) + r % 256;
    assert value / 256 == 256 * q + r / 256;
  }

  lemma LowBytes(value: nat)
    ensures Le(value, 2) == Le(value % 0x1_0000, 2)
  {
    hide Le;
    LeTwo(value);
    LeTwo(value % 0x1_0000);
    LowDigits(value);
  }

  /** The address write_in_fat_index computes, in 32-bit arithmetic. */
  function WritePosition(index: nat): nat {
    (512 + 2 * (index - 2)) % 0x1_0000_0000
  }

  /** What write_in_fat_index does: the low 16 bits of value go to the index's address.
      Refused is only an address past the end of the table. */
  ghost predicate WriteEffect(was: seq<Byte>, now: seq<Byte>, index: nat, value: nat, ok: bool) {
    var p := WritePosition(index);
    && (ok <==> p <= DataStart(|was| / 512))
    && if ok then p + 2 <= |was| && now == Splice(was, p, Le(value % 0x1_0000, 2)) else now == was
  }

  method WriteInFatIndex(volume: Volume, index: nat, value: nat) returns (ok: bool)
    requires volume.Formatted() && index < 0x1_0000_0000
    modifies volume`pos, volume`bytes
    ensures InTable(old(volume.D()), index) ==>
              ok && volume.Formatted() && |volume.bytes| == |old(volume.bytes)|
              && volume.D() == SetNext(old(volume.D()), index, value % 0x1_0000)
    ensures WriteEffect(old(volume.bytes), volume.bytes, index, value, ok)
  {
    hide DiskOf, SbOf, Le;
    var sb := ReadSb(volume);
    var startPosition := sb.fatSector * sb.bytesPerSector;
    var endPosition := (sb.fatSector + sb.sectorsOfFat * sb.copiesOfFat) * sb.bytesPerSector;
    var writePosition := (startPosition + sb.fatIndexSize * (index - 2)) % 0x1_0000_0000;
    if writePosition > endPosition {
      return false;
    }
    volume.Seek(writePosition);
    LowBytes(value);
    ghost var c := |volume.bytes| / 512;
    PastTheTable(volume.bytes, c, [0, 0]);
    if InTable(volume.D(), index) {
      SpliceEntry(volume.bytes, c, index, value % 0x1_0000);
    }
    volume.Write(Le(value, 2));
    ok := true;
  }

  /** Below 2^31 - 254 the guards of both refuse exactly the indices above |fat| + 2. The first
      index past the table is let through: it reads the first two bytes of the root directory's
      cluster, and writing it changes those two and nothing else. */
  lemma GuardsLetOneThrough(bytes: seq<Byte>, now: seq<Byte>, index: nat, value: nat, ok: bool, answer: nat)
    requires GoodCount(|bytes| / 512) && 2 <= index < 0x7FFF_FF02
    requires WriteEffect(bytes, now, index, value, ok) && ReadAnswer(bytes, |bytes| / 512, index, answer)
    ensures var d := DiskOf(bytes, |bytes| / 512);
            && (ok <==> index <= |d.fat| + 2) && (index > |d.fat| + 2 ==> answer == 0 && now == bytes)
            && WfDisk(d) && InVolume(d, 2) && |Cluster(d, 2)| == 512
            && (index == |d.fat| + 2 ==>
                  answer == FromLe(Cluster(d, 2)[..2]) && |now| == |bytes| && now[..512] == bytes[..512]
                  && DiskOf(now, |bytes| / 512) == Patch(d, 2, 0, Le(value % 0x1_0000, 2)))
  {
    hide Le, FromLe, DiskOf;
    PastTheTable(bytes, |bytes| / 512, Le(value % 0x1_0000, 2));
  }

  lemma {:induction false} FromLeZero(s: seq<Byte>)
    ensures FromLe(s) == 0 <==> forall i :: 0 <= i < |s| ==> s[i] == 0
  {
    if s != [] {
      FromLeZero(s[1..]);
      assert forall i :: 1 <= i < |s| ==> s[i] == s[1..][i - 1];
    }
  }

  /** A 32-bit word is zero exactly when both its halves are. */
  lemma WordIsZero(word: seq<Byte>)
    requires |word| == 4
    ensures FromLe(word) == 0 <==> FromLe(word[..2]) == 0 && FromLe(word[2..]) == 0
  {
    hide FromLe;
    FromLeZero(word);
    FromLeZero(word[..2]);
    FromLeZero(word[2..]);
    assert forall i :: 0 <= i < 2 ==> word[i] == word[..2][i];
    assert forall i :: 2 <= i < 4 ==> word[i] == word[2..][i - 2];
    assert forall i :: 0 <= i < 2 ==> word[2..][i] == word[i + 2];
  }

  /** fat is the table stored in bytes. */
  ghost predicate TableOf(bytes: seq<Byte>, fat: seq<nat>) {
    |fat| % 256 == 0 && 512 + 2 * |fat| <= |bytes| && forall t :: 0 <= t < |fat| ==> fat[t] == FatValue(bytes, t)
  }

  lemma HalfOf(n: nat)
    ensures 2 * n / 2 == n
  {
  }

  lemma SlotInSector(m: nat, h: nat)
    requires h <= 255
    ensures LastInSector(256 * m + h) <==> h == 255
  {
    assert (256 * m + h) % 256 == h;
  }

  lemma SlotAddress(position: nat, offset: nat, n: nat)
    requires 512 <= position && position % 512 == 0 && position + 512 <= 512 + 2 * n && offset <= 510 && offset % 2 == 0
    ensures var s := (position - 512 + offset) / 2;
            s < n && 512 + 2 * s == position + offset && (LastInSector(s) <==> offset == 510)
  {
    hide LastInSector;
    var m, h := position / 512 - 1, offset / 2;
    assert position == 512 * m + 512 && offset == 2 * h;
    HalfOf(256 * m + h);
    assert position - 512 + offset == 2 * (256 * m + h);
    SlotInSector(m, h);
  }

  /** Two bytes of a sector buffer are one slot of the table. */
  lemma SectorSlot(bytes: seq<Byte>, fat: seq<nat>, sector: seq<Byte>, position: nat, offset: nat)
    requires TableOf(bytes, fat) && 512 <= position && position % 512 == 0 && position + 512 <= 512 + 2 * |fat|
    requires sector == bytes[position..position + 512] && offset <= 510 && offset % 2 == 0
    ensures var s := (position - 512 + offset) / 2;
            s < |fat| && FromLe(sector[offset..offset + 2]) == fat[s] && (LastInSector(s) <==> offset == 510)
  {
    hide FromLe, LastInSector;
    SlotAddress(position, offset, |fat|);
    SliceOfSlice(bytes, position, position + 512, offset, offset + 2);
  }

  lemma WordParts(sector: seq<Byte>, offset: nat, stray0: Byte, stray1: Byte)
    requires |sector| == 512 && offset <= 510
    ensures var word := (sector + [stray0, stray1])[offset..offset + 4];
            word[..2] == sector[offset..offset + 2] && word[2..] == if offset == 510 then [stray0, stray1]
              else (sector + [stray0, stray1])[offset + 2..offset + 4]
    ensures offset <= 508 ==> (sector + [stray0, stray1])[offset + 2..offset + 4] == sector[offset + 2..offset + 4]
  {
  }

  /** What the 32-bit test at one offset of a sector buffer says about the slot there. */
  lemma WordTest(bytes: seq<Byte>, fat: seq<nat>, sector: seq<Byte>, position: nat, offset: nat, stray0: Byte,
                 stray1: Byte)
    requires TableOf(bytes, fat) && 512 <= position && position % 512 == 0 && position + 512 <= 512 + 2 * |fat|
    requires sector == bytes[position..position + 512] && offset < 512 && offset % 2 == 0
    ensures (position - 512 + offset) / 2 < |fat|
    ensures var s := (position - 512 + offset) / 2;
            if FromLe((sector + [stray0, stray1])[offset..offset + 4]) == 0 then PossiblyEmpty(fat, s)
            else !CertainlyEmpty(fat, s) && (stray0 == 0 && stray1 == 0 ==> !PossiblyEmpty(fat, s))
  {
    WordIsZero((sector + [stray0, stray1])[offset..offset + 4]);
    WordParts(sector, offset, stray0, stray1);
    SectorSlot(bytes, fat, sector, position, offset);
    if offset < 510 {
      SectorSlot(bytes, fat, sector, position, offset + 2);
      assert (position - 512 + (offset + 2)) / 2 == (position - 512 + offset) / 2 + 1;
    } else {
      FromLeZero([stray0, stray1]);
    }
    hide FromLe, TableOf;
  }

  /** No slot before n was taken for empty; clean says that no non-zero stray byte was read. */
  ghost predicate Passed(fat: seq<nat>, n: int, clean: bool) {
    |fat| % 256 == 0 && n <= |fat| && forall t :: 0 <= t < n
                                                  ==> !CertainlyEmpty(fat, t) && (clean ==> !PossiblyEmpty(fat, t))
  }

  /** The scan of the table in bytes has come to this offset of the sector at this position. */
  ghost predicate ScanReached(bytes: seq<Byte>, fat: seq<nat>, position: nat, offset: nat, clean: bool) {
    && TableOf(bytes, fat) && 512 <= position && position % 512 == 0 && offset % 2 == 0
    && position + offset <= 512 + 2 * |fat| && Passed(fat, (position - 512 + offset) / 2, clean)
  }

  /** One word of a sector is tested. */
  lemma WordTested(bytes: seq<Byte>, fat: seq<nat>, sector: seq<Byte>, position: nat, offset: nat, stray0: Byte,
                   stray1: Byte, clean: bool)
    requires ScanReached(bytes, fat, position, offset, clean) && offset < 512 && position + 512 <= 512 + 2 * |fat|
             && position + 512 <= |bytes|
    requires sector == bytes[position..position + 512] && (clean ==> stray0 == 0 && stray1 == 0)
    ensures var x := (position - 512) / 2 + offset / 2 + 2;
            if FromLe((sector + [stray0, stray1])[offset..offset + 4]) == 0 then MayFind(fat, x)
              && (clean ==> FindsClean(fat, x))
            else ScanReached(bytes, fat, position, offset + 2, clean)
  {
    hide TableOf, PossiblyEmpty, CertainlyEmpty, FromLe;
    WordTest(bytes, fat, sector, position, offset, stray0, stray1);
    SlotNumber(position, offset);
    SlotNumber(position, offset + 2);
    assert (offset + 2) / 2 == offset / 2 + 1;
  }

  lemma SlotNumber(position: nat, offset: nat)
    requires 512 <= position && position % 512 == 0 && offset % 2 == 0
    ensures (position - 512) / 2 + offset / 2 == (position - 512 + offset) / 2
  {
  }

  /** The inner loop: the offset of the first zero word in one sector buffer, or 512. */
  method ScanSector(ghost bytes: seq<Byte>, ghost fat: seq<nat>, sector: seq<Byte>, ghost position: nat,
                    stray0: Byte, stray1: Byte, fatIndexSize: nat, ghost clean: bool)
    returns (offset: nat)
    requires ScanReached(bytes, fat, position, 0, clean) && position + 512 <= 512 + 2 * |fat|
             && position + 512 <= |bytes|
    requires sector == bytes[position..position + 512] && fatIndexSize == 2 && (clean ==> stray0 == 0 && stray1 == 0)
    ensures offset <= 512
    ensures offset < 512 ==> var x := (position - 512) / 2 + offset / 2 + 2; MayFind(fat, x)
                                                                             && (clean ==> FindsClean(fat, x))
    ensures offset == 512 ==> ScanReached(bytes, fat, position, 512, clean)
  {
    hide ScanReached, MayFind, FindsClean, FromLe;
    offset := 0;
    while offset < 512
      invariant offset % 2 == 0 && offset <= 512 && ScanReached(bytes, fat, position, offset, clean)
    {
      var word := (sector + [stray0, stray1])[offset..offset + 4];
      WordTested(bytes, fat, sector, position, offset, stray0, stray1, clean);
      if FromLe(word) == 0 {
        return;
      }
      offset := offset + fatIndexSize;
    }
  }

  lemma ScanStarts(bytes: seq<Byte>, fat: seq<nat>)
    requires TableOf(bytes, fat)
    ensures ScanReached(bytes, fat, 512, 0, true)
  {
  }

  lemma NextSector(bytes: seq<Byte>, fat: seq<nat>, position: nat, clean: bool)
    requires ScanReached(bytes, fat, position, 512, clean)
    ensures ScanReached(bytes, fat, position + 512, 0, clean)
  {
  }

  lemma ScanIsAt(bytes: seq<Byte>, fat: seq<nat>, position: nat, clean: bool, clean': bool)
    requires ScanReached(bytes, fat, position, 0, clean) && (clean' ==> clean)
    ensures ScanReached(bytes, fat, position, 0, clean') && position % 512 == 0
            && 512 <= position <= 512 + 2 * |fat| <= |bytes|
    ensures position < 512 + 2 * |fat| ==> position + 512 <= 512 + 2 * |fat|
    ensures position == 512 + 2 * |fat| ==> Passed(fat, |fat|, clean')
  {
    assert |fat| == 256 * (|fat| / 256) && position == 512 * (position / 512);
  }

  /** The sector-by-sector scan. The two bytes past each sector buffer are
      arbitrary; clean reports that they were zero throughout. */
  method FindEmptyFatIndex(volume: Volume) returns (index: nat, ghost clean: bool)
    requires volume.Formatted()
    modifies volume`pos
    ensures index == 0 ==> Passed(volume.D().fat, |volume.D().fat|, clean)
    ensures index != 0 ==> MayFind(volume.D().fat, index) && (clean ==> FindsClean(volume.D().fat, index))
  {
    var sb := ReadSb(volume);
    ghost var bytes, fat := volume.bytes, volume.D().fat;
    assert TableOf(bytes, fat);
    hide ScanReached, TableOf, Passed, DiskOf, SbOf, MayFind, FindsClean;
    ScanStarts(bytes, fat);
    clean := true;
    var startPosition := sb.fatSector * sb.bytesPerSector;
    var endPosition := (sb.fatSector + sb.sectorsOfFat * sb.copiesOfFat) * sb.bytesPerSector;
    var readPosition := startPosition;
    ScanIsAt(bytes, fat, readPosition, clean, clean);
    while readPosition < endPosition
      invariant 512 <= readPosition <= endPosition && ScanReached(bytes, fat, readPosition, 0, clean)
    {
      volume.Seek(readPosition);
      var sector := volume.Read(512);
      var stray0: Byte, stray1: Byte := *, *;
      ghost var still := clean && stray0 == 0 && stray1 == 0;
      ScanIsAt(bytes, fat, readPosition, clean, still);
      clean := still;
      var offset := ScanSector(bytes, fat, sector, readPosition, stray0, stray1, sb.fatIndexSize, clean);
      if offset < 512 {
        index := (readPosition - startPosition) / sb.fatIndexSize + offset / sb.fatIndexSize + 2;
        return;
      }
      NextSector(bytes, fat, readPosition, clean);
      readPosition := readPosition + 512;
      ScanIsAt(bytes, fat, readPosition, clean, clean);
    }
    ScanIsAt(bytes, fat, readPosition, clean, clean);
    index := 0;
  }
}
