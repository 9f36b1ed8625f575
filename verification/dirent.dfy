// The packed 64-byte directory entry of dir.h.
module Dirents {
  import opened Bytes

  const DELETED_FILE: Byte := 0
  const NORMAL_FILE: Byte := 1
  const DELETED_DIR: Byte := 2
  const NORMAL_DIR: Byte := 3

  datatype Dirent = Dirent(attribute: Byte, extended: nat, name: seq<Byte>, head: nat, size: nat, reserved: seq<Byte>)

  predicate Fits(e: Dirent) {
    && e.extended < 0x1_0000_0000 && |e.name| == 24 && e.head < 0x1_0000_0000
    && e.size < 0x1_0000_0000_0000_0000 && |e.reserved| == 23
  }

  function Encode(e: Dirent): (s: seq<Byte>)
    requires Fits(e)
    ensures |s| == 64
  {
    [e.attribute] + Le(e.extended, 4) + e.name + Le(e.head, 4) + Le(e.size, 8) + e.reserved
  }

  function Decode(s: seq<Byte>): Dirent
    requires |s| == 64
  {
    Dirent(s[0], FromLe(s[1..5]), s[5..29], FromLe(s[29..33]), FromLe(s[33..41]), s[41..])
  }

  lemma DecodeEncode(e: Dirent)
    requires Fits(e)
    ensures Decode(Encode(e)) == e
  {
    Pow256Values();
    FromLeOfLe(e.extended, 4);
    FromLeOfLe(e.head, 4);
    FromLeOfLe(e.size, 8);
    var s := Encode(e);
    assert s[1..5] == Le(e.extended, 4);
    assert s[5..29] == e.name;
    assert s[29..33] == Le(e.head, 4);
    assert s[33..41] == Le(e.size, 8);
    assert s[41..] == e.reserved;
  }

  /** The packed layout: where each field stands. */
  lemma Layout(e: Dirent)
    requires Fits(e)
    ensures var s := Encode(e);
            && |s| == 64 && s[0] == e.attribute && FromLe(s[1..5]) == e.extended && s[5..29] == e.name
            && FromLe(s[29..33]) == e.head && FromLe(s[33..41]) == e.size && s[41..64] == e.reserved
  {
    Pow256Values();
    FromLeOfLe(e.extended, 4);
    FromLeOfLe(e.head, 4);
    FromLeOfLe(e.size, 8);
    hide Le, FromLe;
    var s := Encode(e);
    assert s[1..5] == Le(e.extended, 4);
    assert s[5..29] == e.name;
    assert s[29..33] == Le(e.head, 4);
    assert s[33..41] == Le(e.size, 8);
    assert s[41..64] == e.reserved;
  }

  /** The attribute codes of the four kinds of entries. */
  lemma AttributeCodes(a: Byte)
    ensures IsDeletedFile(a) <==> a == 0
    ensures IsNormalFile(a) <==> a == 1
    ensures IsDeletedDir(a) <==> a == 2
    ensures IsNormalDir(a) <==> a == 3
  {
  }

  lemma EncodeDecode(s: seq<Byte>)
    requires |s| == 64
    ensures Fits(Decode(s)) && Encode(Decode(s)) == s
  {
    Pow256Values();
    LeOfFromLe(s[1..5]);
    LeOfFromLe(s[29..33]);
    LeOfFromLe(s[33..41]);
  }

  predicate IsNormalFile(attribute: Byte) { attribute == NORMAL_FILE }
  predicate IsNormalDir(attribute: Byte) { attribute == NORMAL_DIR }
  predicate IsDeletedFile(attribute: Byte) { attribute == DELETED_FILE }
  predicate IsDeletedDir(attribute: Byte) { attribute == DELETED_DIR }

  /** A name fits the 24-byte field with its terminating NUL, and can be a path component. */
  type Name = seq<Byte>

  predicate GoodName(name: Name) {
    1 <= |name| <= 23 && 0 !in name && 47 !in name
  }

  /** strcpy into the zeroed name field. */
  function NameField(name: Name): (s: seq<Byte>)
    requires |name| <= 23
    ensures |s| == 24
  {
    name + Zeros(24 - |name|)
  }

  lemma NameFieldReads(name: Name)
    requires |name| <= 23 && 0 !in name
    ensures CString(NameField(name)) == name
  {
    CStringIs(NameField(name), name);
  }
}
