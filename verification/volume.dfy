// The volume file: its bytes, the stream position, and the superblock every
// operation rereads. The ghost field view is the tree the bytes stand for.
module Volumes {
  import opened Bytes
  import opened Disks
  import opened Views

  /** The superblock fields that are read again after formatting. */
  datatype SbInfo = SbInfo(bytesPerSector: nat, copiesOfFat: nat, sectorsOfFat: nat, fatSector: nat,
                           dataClusterSector: nat, fatIndexSize: nat)

  /** The fields at their offsets in the unpacked struct of super.h. */
  function SbOf(s: seq<Byte>): SbInfo
    requires |s| == 512
  {
    SbInfo(FromLe(s[20..22]), FromLe(s[23..24]), FromLe(s[24..26]), FromLe(s[36..40]), FromLe(s[40..44]),
           FromLe(s[44..46]))
  }

  function SbFor(c: nat): SbInfo {
    SbInfo(512, 2, c / 256, 1, 1 + 2 * (c / 256), 2)
  }

  class Volume {
    var bytes: seq<Byte>
    var pos: nat
    ghost var view: View

    constructor ()
      ensures bytes == [] && pos == 0
    {
      bytes, pos := [], 0;
    }

    /** The superblock is in place and its geometry is that of the volume's size. */
    ghost predicate Formatted()
      reads this`bytes
    {
      GoodCount(|bytes| / 512) && SbOf(bytes[..512]) == SbFor(|bytes| / 512)
    }

    ghost function D(): (d: Disk)
      requires Formatted()
      reads this`bytes
      ensures WfDisk(d) && |d.fat| == Slots(|bytes| / 512)
    {
      DiskOfWf(bytes, |bytes| / 512);
      DiskOf(bytes, |bytes| / 512)
    }

    /** The volume stands for view.fs. */
    ghost predicate Valid()
      reads this`bytes, this`view
    {
      Formatted() && Inv(D(), view)
    }

    method Seek(p: nat)
      modifies this`pos
      ensures pos == p
    {
      pos := p;
    }

    /** fread: fewer than n bytes come back at the end of the file. */
    method Read(n: nat) returns (s: seq<Byte>)
      modifies this`pos
      ensures s == if old(pos) >= |bytes| then [] else if old(pos) + n <= |bytes| then bytes[old(pos)..old(pos) + n]
              else bytes[old(pos)..]
      ensures pos == old(pos) + |s|
    {
      if pos >= |bytes| {
        s := [];
      } else if pos + n <= |bytes| {
        s := bytes[pos..pos + n];
      } else {
        s := bytes[pos..];
      }
      pos := pos + |s|;
    }

    /** fwrite: overwrites in place; past the end the file grows, a gap reads as zeros. */
    method Write(s: seq<Byte>)
      modifies this`pos, this`bytes
      ensures pos == old(pos) + |s|
      ensures var was, at := old(bytes), old(pos);
              bytes ==
                if s == [] then was
                else if at + |s| <= |was| then Splice(was, at, s)
                else if at <= |was| then was[..at] + s
                else was + Zeros(at - |was|) + s
    {
      if s == [] {
      } else if pos + |s| <= |bytes| {
        bytes := Splice(bytes, pos, s);
      } else {
        if pos > |bytes| {
          bytes := bytes + Zeros(pos - |bytes|);
        }
        bytes := bytes[..pos] + s;
      }
      pos := pos + |s|;
    }
  }

  method ReadSb(volume: Volume) returns (sb: SbInfo)
    requires volume.Formatted()
    modifies volume`pos
    ensures sb == SbFor(|volume.bytes| / 512)
  {
    volume.Seek(0);
    var s := volume.Read(512);
    assert s == volume.bytes[..512];
    sb := SbOf(s);
  }

  function EndClusterFor(fatIndexSize: nat): nat {
    match fatIndexSize
    case 1 => 0xFF
    case 2 => 0xFFFF
    case 4 => 0xFFFF_FFFF
    case _ => 0xFFFF_FFFF_FFFF_FFFF
  }

  /** The end-of-chain marker for the volume's entry width. */
  method GetEndCluster(volume: Volume) returns (end: nat)
    requires volume.Formatted()
    modifies volume`pos
    ensures end == END == 0xFFFF
  {
    var sb := ReadSb(volume);
    end := EndClusterFor(sb.fatIndexSize);
  }
}
