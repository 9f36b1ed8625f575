// The shell's CSV format as functions: what the reader makes of any bytes, what
// the printer writes, and that reading undoes printing (section 2 of RFC 4180).
module Csv {
  import opened Bytes
  import opened Texts
  import Quoting

  const QUOTE: Byte := 34
  const CR: Byte := 13
  const LF: Byte := 10
  const EOF: int := -1

  // ----- reading one field

  /** A field's text, the character that ended it, and the input after that. */
  datatype Field = Field(text: Text, term: int, rest: seq<Byte>)

  function Peek(s: seq<Byte>): int {
    if s == [] then EOF else s[0]
  }

  function Drop(s: seq<Byte>): seq<Byte> {
    if s == [] then s else s[1..]
  }

  /** The stored bytes before the last quote among them. */
  function StripBack(s: Text): (r: Text)
    requires QUOTE in s
    ensures |r| < |s| && r == s[..|r|] && s[|r|] == QUOTE && QUOTE !in s[|r| + 1..]
  {
    var n := |s| - 1;
    if s[n] == QUOTE then s[..n] else
      assert s == s[..n] + [s[n]];
      StripBack(s[..n])
  }

  /** pc and ppc are the last two stored bytes whenever their being a quote matters. */
  ghost predicate Tied(stored: Text, pc: int, ppc: int) {
    && (pc == QUOTE ==> |stored| >= 1 && stored[|stored| - 1] == QUOTE)
    && (pc == CR && ppc == QUOTE ==> |stored| >= 2 && stored[|stored| - 1] == CR && stored[|stored| - 2] == QUOTE)
  }

  /** The character c ends a quoted field. */
  predicate Ends(c: int, sep: int, row: int, pc: int, ppc: int) {
    || (c == sep && pc == QUOTE) || (c == row && pc == QUOTE)
    || (c == row && pc == CR && ppc == QUOTE) || (c == EOF && pc == QUOTE)
  }

  /** The rest of a quoted field, after its opening quote. */
  function Quoted(s: seq<Byte>, sep: int, row: int, stored: Text, pc: int, ppc: int): Field
    requires Tied(stored, pc, ppc)
    decreases |s|
  {
    var c := Peek(s);
    if c == QUOTE && pc == QUOTE then Quoted(Drop(s), sep, row, stored, 0, ppc)
    else if Ends(c, sep, row, pc, ppc) then Field(StripBack(stored), c, Drop(s))
    else if c == EOF then Field(stored, c, s)
    else Quoted(Drop(s), sep, row, stored + [s[0]], c, pc)
  }

  /** The bytes of s before the first separator or end of row. */
  function Plain(s: seq<Byte>, sep: int, row: int): (t: Text)
    ensures |t| <= |s| && t == s[..|t|]
    ensures |t| < |s| ==> s[|t|] == sep || s[|t|] == row
    ensures forall k :: 0 <= k < |t| ==> t[k] != sep && t[k] != row
  {
    if s == [] || s[0] == sep || s[0] == row then [] else [s[0]] + Plain(s[1..], sep, row)
  }

  function ReadField(s: seq<Byte>, sep: int, row: int): Field
    requires s != []
  {
    if s[0] == QUOTE then Quoted(s[1..], sep, row, [], 0, 0)
    else
      var t := Plain(s, sep, row);
      var c := Peek(s[|t|..]);
      Field(if c == row && t != [] && t[|t| - 1] == CR then t[..|t| - 1] else t, c, Drop(s[|t|..]))
  }

  lemma {:induction false} QuotedConsumes(s: seq<Byte>, sep: int, row: int, stored: Text, pc: int, ppc: int)
    requires Tied(stored, pc, ppc)
    ensures |Quoted(s, sep, row, stored, pc, ppc).rest| <= |s|
    decreases |s|
  {
    var c := Peek(s);
    if c == QUOTE && pc == QUOTE {
      QuotedConsumes(Drop(s), sep, row, stored, 0, ppc);
    } else if !Ends(c, sep, row, pc, ppc) && c != EOF {
      QuotedConsumes(Drop(s), sep, row, stored + [s[0]], c, pc);
    }
  }

  /** Every read makes progress, whatever the bytes. */
  lemma ReadConsumes(s: seq<Byte>, sep: int, row: int)
    requires s != []
    ensures |ReadField(s, sep, row).rest| < |s|
  {
    if s[0] == QUOTE {
      QuotedConsumes(s[1..], sep, row, [], 0, 0);
    }
  }

  // ----- reading records

  /** The fields up to the first one not ended by the separator. A read at the
      end of the input yields no field: that is the None after a final separator. */
  datatype Record = Record(fields: seq<Option<Text>>, term: int, rest: seq<Byte>)

  function ReadRecord(s: seq<Byte>, sep: int, row: int): (r: Record)
    requires sep != EOF
    ensures |r.fields| >= 1 && r.term != sep
    ensures |r.rest| <= |s| && (s != [] ==> |r.rest| < |s|)
    decreases |s|
  {
    if s == [] then Record([None], EOF, []) else
      ReadConsumes(s, sep, row);
      var f := ReadField(s, sep, row);
      if f.term != sep then Record([Some(CString(f.text))], f.term, f.rest) else
        var more := ReadRecord(f.rest, sep, row);
        Record([Some(CString(f.text))] + more.fields, more.term, more.rest)
  }

  /** A record is its first field and, if the separator ended that, another record. */
  lemma RecordStep(s: seq<Byte>, sep: int, row: int)
    requires s != [] && sep != EOF
    ensures var f := ReadField(s, sep, row);
            if f.term != sep then ReadRecord(s, sep, row) == Record([Some(CString(f.text))], f.term, f.rest)
            else
              var more := ReadRecord(f.rest, sep, row);
              ReadRecord(s, sep, row) == Record([Some(CString(f.text))] + more.fields, more.term, more.rest)
  {
    hide ReadField, CString;
  }

  function Nulls(n: nat): (r: seq<Option<Text>>)
    ensures |r| == n
  {
    seq(n, i => None)
  }

  /** Short records are padded with NULL, extra fields dropped. */
  function Shaped(fields: seq<Option<Text>>, nCol: nat): (r: seq<Option<Text>>)
    ensures |r| == nCol
  {
    if |fields| >= nCol then fields[..nCol] else fields + Nulls(nCol - |fields|)
  }

  /** Value k of an inserted row is field k of the record, NULL where the record has none. */
  lemma ShapedMeans(fields: seq<Option<Text>>, nCol: nat, k: nat)
    requires k < nCol
    ensures Shaped(fields, nCol)[k] == if k < |fields| then fields[k] else None
  {
  }

  /** The rows the import loop inserts. */
  function Rows(s: seq<Byte>, sep: int, row: int, nCol: nat): seq<seq<Option<Text>>>
    requires sep != EOF
    decreases |s|
  {
    if s == [] then [] else
      var r := ReadRecord(s, sep, row);
      [Shaped(r.fields, nCol)] + if r.term == EOF then [] else Rows(r.rest, sep, row, nCol)
  }

  lemma RowsStep(s: seq<Byte>, sep: int, row: int, nCol: nat)
    requires sep != EOF
    ensures s == [] ==> Rows(s, sep, row, nCol) == []
    ensures s != [] ==>
              var r := ReadRecord(s, sep, row);
              |r.rest| < |s| && Rows(s, sep, row, nCol)
              == [Shaped(r.fields, nCol)] + if r.term == EOF then [] else Rows(r.rest, sep, row, nCol)
  {
  }

  // ----- printing

  /** The table needCsvQuote. */
  predicate NeedCsvQuote(b: Byte) {
    b <= 32 || b == 34 || b == 39 || b >= 127
  }

  /** The byte t[i] makes output_csv quote the field. The separator is compared
      with the front of the field, not with what follows t[i]. */
  predicate Forces(t: Text, i: nat, sep: seq<Byte>)
    requires i < |t|
  {
    NeedCsvQuote(t[i]) || (sep != [] && t[i] == sep[0] && (|sep| == 1 || sep <= t))
  }

  predicate NeedsQuotes(t: Text, sep: seq<Byte>) {
    t == [] || exists i :: 0 <= i < |t| && Forces(t, i, sep)
  }

  function CsvField(t: Text, sep: seq<Byte>): seq<Byte> {
    if NeedsQuotes(t, sep) then [QUOTE] + Quoting.Doubled(t, QUOTE) + [QUOTE] else t
  }

  /** A byte that stands bare in a field: '!' to '~' except the two quotes. */
  predicate BareByte(b: Byte) {
    33 <= b <= 126 && b != 34 && b != 39
  }

  /** A text is printed bare, for a separator of any length. */
  predicate PrintsBare(t: Text, sep: seq<Byte>) {
    && t != [] && (forall k :: 0 <= k < |t| ==> BareByte(t[k]))
    && (|sep| == 1 ==> forall k :: 0 <= k < |t| ==> t[k] != sep[0])
    && (|sep| >= 2 ==> !(sep <= t))
  }

  /** Which texts are printed bare; all others are put in quotes with quotes inside doubled. */
  lemma FieldIsBareIff(t: Text, sep: seq<Byte>)
    ensures CsvField(t, sep) == if PrintsBare(t, sep) then t else [34] + Quoting.Doubled(t, 34) + [34]
    ensures CsvField(t, sep) == t <==> PrintsBare(t, sep)
  {
    assert forall k :: 0 <= k < |t| ==> (BareByte(t[k]) <==> !NeedCsvQuote(t[k]));
    if |sep| >= 2 && sep <= t {
      assert t[0] == sep[0] && Forces(t, 0, sep);
    }
    if !PrintsBare(t, sep) && t != [] {
      if k :| 0 <= k < |t| && !BareByte(t[k]) {
        assert Forces(t, k, sep);
      } else if |sep| == 1 {
        var k :| 0 <= k < |t| && t[k] == sep[0];
        assert Forces(t, k, sep);
      }
    }
    assert |[34] + Quoting.Doubled(t, 34) + [34]| > |t|;
  }

  /** output_csv's term: NULL is the null text, never quoted. */
  function CsvCell(z: Option<Text>, sep: seq<Byte>, nullValue: Text): seq<Byte> {
    match z
    case None => nullValue
    case Some(t) => CsvField(t, sep)
  }

  /** The separator goes after every field but the last. */
  function CsvRow(cells: seq<Option<Text>>, sep: seq<Byte>, nullValue: Text): seq<Byte> {
    if cells == [] then []
    else if |cells| == 1 then CsvCell(cells[0], sep, nullValue)
    else CsvCell(cells[0], sep, nullValue) + sep + CsvRow(cells[1..], sep, nullValue)
  }

  /** Between two parts of a row stands one separator. */
  lemma {:induction false} CsvRowJoins(a: seq<Option<Text>>, b: seq<Option<Text>>, sep: seq<Byte>, nullValue: Text)
    requires a != [] && b != []
    ensures CsvRow(a + b, sep, nullValue) == CsvRow(a, sep, nullValue) + sep + CsvRow(b, sep, nullValue)
    ensures |a| == 1 ==> CsvRow(a, sep, nullValue) == CsvCell(a[0], sep, nullValue)
    decreases |a|
  {
    hide CsvCell;
    assert (a + b)[1..] == a[1..] + b;
    if |a| == 1 {
      assert a[1..] + b == b;
    } else {
      CsvRowJoins(a[1..], b, sep, nullValue);
      var one, rest, last := CsvCell(a[0], sep, nullValue), CsvRow(a[1..], sep, nullValue), CsvRow(b, sep, nullValue);
      Assoc(one + sep, rest, sep);
      Assoc(one + sep, rest + sep, last);
    }
  }

  function CsvTable(rows: seq<seq<Option<Text>>>, sep: seq<Byte>, rowSep: seq<Byte>, nullValue: Text): seq<Byte> {
    if rows == [] then [] else CsvRow(rows[0], sep, nullValue) + rowSep + CsvTable(rows[1..], sep, rowSep, nullValue)
  }

  // ----- reading undoes printing

  /** Between the pieces of a printed quoted field no terminator can be seen. */
  ghost predicate Neutral(pc: int, ppc: int) {
    pc != QUOTE && !(pc == CR && ppc == QUOTE)
  }

  /** Doubled quotes come back single, everything else as it is. */
  lemma {:induction false} ReadDoubled(t: Text, tail: seq<Byte>, sep: int, row: int, stored: Text, pc: int, ppc: int)
    returns (pc': int, ppc': int)
    requires Neutral(pc, ppc) && sep != QUOTE && row != QUOTE
    ensures Neutral(pc', ppc')
    ensures Quoted(Quoting.Doubled(t, QUOTE) + tail, sep, row, stored, pc, ppc)
            == Quoted(tail, sep, row, stored + t, pc', ppc')
  {
    if t == [] {
      assert Quoting.Doubled(t, QUOTE) + tail == tail && stored + t == stored;
      return pc, ppc;
    }
    var s := Quoting.Doubled(t, QUOTE) + tail;
    var next := Quoting.Doubled(t[1..], QUOTE) + tail;
    assert stored + [t[0]] + t[1..] == stored + t;
    if t[0] == QUOTE {
      assert s == [QUOTE, QUOTE] + next;
      assert Drop(s) == [QUOTE] + next && Drop(Drop(s)) == next;
      assert Quoted(s, sep, row, stored, pc, ppc) == Quoted(Drop(s), sep, row, stored + [QUOTE], QUOTE, pc);
      assert Quoted(Drop(s), sep, row, stored + [QUOTE], QUOTE, pc) == Quoted(next, sep, row, stored + [QUOTE], 0, pc);
      pc', ppc' := ReadDoubled(t[1..], tail, sep, row, stored + [QUOTE], 0, pc);
    } else {
      assert s == [t[0]] + next;
      assert Drop(s) == next;
      assert Quoted(s, sep, row, stored, pc, ppc) == Quoted(next, sep, row, stored + [t[0]], t[0], pc);
      pc', ppc' := ReadDoubled(t[1..], tail, sep, row, stored + [t[0]], t[0], pc);
    }
  }

  /** One byte of a quoted field that does not end it. */
  lemma QuotedStep(b: Byte, rest: seq<Byte>, sep: int, row: int, stored: Text, pc: int, ppc: int)
    requires Tied(stored, pc, ppc)
    ensures b == QUOTE && pc == QUOTE
            ==> Quoted([b] + rest, sep, row, stored, pc, ppc) == Quoted(rest, sep, row, stored, 0, ppc)
    ensures !(b == QUOTE && pc == QUOTE) && !Ends(b, sep, row, pc, ppc) ==>
              Quoted([b] + rest, sep, row, stored, pc, ppc) == Quoted(rest, sep, row, stored + [b], b, pc)
  {
    assert Drop([b] + rest) == rest;
  }

  lemma CloseBySep(t: Text, tail: seq<Byte>, sep: Byte, row: Byte, pc: int, ppc: int)
    requires Neutral(pc, ppc) && sep != QUOTE && row != QUOTE
    ensures Quoted([QUOTE, sep] + tail, sep, row, t, pc, ppc) == Field(t, sep, tail)
  {
    var s, stored := [QUOTE, sep] + tail, t + [QUOTE];
    assert Drop(s) == [sep] + tail && Drop([sep] + tail) == tail;
    assert Quoted(s, sep, row, t, pc, ppc) == Quoted([sep] + tail, sep, row, stored, QUOTE, pc);
    assert stored[..|t|] == t;
    assert StripBack(stored) == t;
  }

  lemma CloseByRow(t: Text, tail: seq<Byte>, sep: Byte, row: Byte, pc: int, ppc: int)
    requires Neutral(pc, ppc) && sep != QUOTE && row != QUOTE && sep != CR && row != CR
    ensures Quoted([QUOTE, CR, row] + tail, sep, row, t, pc, ppc) == Field(t, row, tail)
  {
    var s, stored := [QUOTE, CR, row] + tail, t + [QUOTE];
    assert Drop(s) == [CR, row] + tail && Drop([CR, row] + tail) == [row] + tail && Drop([row] + tail) == tail;
    assert Quoted(s, sep, row, t, pc, ppc) == Quoted([CR, row] + tail, sep, row, stored, QUOTE, pc);
    assert Quoted([CR, row] + tail, sep, row, stored, QUOTE, pc)
           == Quoted([row] + tail, sep, row, stored + [CR], CR, QUOTE);
    assert (stored + [CR])[..|t| + 1] == stored && stored[..|t|] == t;
    assert StripBack(stored + [CR]) == StripBack(stored) == t;
  }

  lemma CloseByBareRow(t: Text, tail: seq<Byte>, sep: Byte, row: Byte, pc: int, ppc: int)
    requires Neutral(pc, ppc) && sep != QUOTE && row != QUOTE
    ensures Quoted([QUOTE] + [row] + tail, sep, row, t, pc, ppc) == Field(t, row, tail)
  {
    assert [QUOTE] + [row] + tail == [QUOTE] + ([row] + tail);
    QuotedStep(QUOTE, [row] + tail, sep, row, t, pc, ppc);
    assert Drop([row] + tail) == tail;
    assert StripBack(t + [QUOTE]) == t by { assert (t + [QUOTE])[..|t|] == t; }
  }

  lemma CloseAtEnd(t: Text, sep: Byte, row: Byte, pc: int, ppc: int)
    requires Neutral(pc, ppc) && sep != QUOTE && row != QUOTE
    ensures Quoted([QUOTE], sep, row, t, pc, ppc) == Field(t, EOF, [])
    ensures Quoted([], sep, row, t, pc, ppc) == Field(t, EOF, [])
  {
    assert [QUOTE] + [] == [QUOTE];
    QuotedStep(QUOTE, [], sep, row, t, pc, ppc);
    assert StripBack(t + [QUOTE]) == t by { assert (t + [QUOTE])[..|t|] == t; }
  }

  /** A quoted field also ends at a bare row end and at the end of the input; without its closing
      quote it runs to the end of the input. */
  lemma ReadQuotedFieldToo(t: Text, tail: seq<Byte>, sep: Byte, row: Byte)
    requires sep != QUOTE && row != QUOTE
    ensures ReadField([QUOTE] + Quoting.Doubled(t, QUOTE) + [QUOTE] + [row] + tail, sep, row) == Field(t, row, tail)
    ensures ReadField([QUOTE] + Quoting.Doubled(t, QUOTE) + [QUOTE], sep, row) == Field(t, EOF, [])
    ensures ReadField([QUOTE] + Quoting.Doubled(t, QUOTE), sep, row) == Field(t, EOF, [])
  {
    hide Quoted, Quoting.Doubled;
    var d, a := Quoting.Doubled(t, QUOTE), [QUOTE] + [row] + tail;
    assert ([QUOTE] + d + [QUOTE] + [row] + tail)[1..] == d + a;
    assert ([QUOTE] + d + [QUOTE])[1..] == d + [QUOTE] && ([QUOTE] + d)[1..] == d + [];
    assert [] + t == t;
    var pc, ppc := ReadDoubled(t, a, sep, row, [], 0, 0);
    CloseByBareRow(t, tail, sep, row, pc, ppc);
    pc, ppc := ReadDoubled(t, [QUOTE], sep, row, [], 0, 0);
    CloseAtEnd(t, sep, row, pc, ppc);
    pc, ppc := ReadDoubled(t, [], sep, row, [], 0, 0);
    CloseAtEnd(t, sep, row, pc, ppc);
  }

  /** A quote that is followed by another byte does not end the field: both are kept. */
  lemma StrayQuoteIsKept(t: Text, b: Byte, tail: seq<Byte>, sep: Byte, row: Byte)
    requires sep != QUOTE && row != QUOTE && b != QUOTE && b != sep && b != row && b != CR
    ensures ReadField([QUOTE] + Quoting.Doubled(t, QUOTE) + [QUOTE, b] + tail, sep, row)
            == Quoted(tail, sep, row, t + [QUOTE, b], b, QUOTE)
  {
    hide Quoted, Quoting.Doubled;
    var d, a := Quoting.Doubled(t, QUOTE), [QUOTE] + ([b] + tail);
    assert ([QUOTE] + d + [QUOTE, b] + tail)[1..] == d + a;
    assert [] + t == t;
    var pc, ppc := ReadDoubled(t, a, sep, row, [], 0, 0);
    QuotedStep(QUOTE, [b] + tail, sep, row, t, pc, ppc);
    QuotedStep(b, tail, sep, row, t + [QUOTE], QUOTE, pc);
    assert t + [QUOTE] + [b] == t + [QUOTE, b];
  }

  /** A quoted field ended by the separator, or by CR LF. */
  lemma ReadQuotedField(t: Text, tail: seq<Byte>, sep: Byte, row: Byte)
    requires sep != QUOTE && row != QUOTE && row != CR
    ensures ReadField([QUOTE] + Quoting.Doubled(t, QUOTE) + [QUOTE] + [sep] + tail, sep, row) == Field(t, sep, tail)
    ensures sep != CR ==>
              ReadField([QUOTE] + Quoting.Doubled(t, QUOTE) + [QUOTE] + [CR, row] + tail, sep, row)
                == Field(t, row, tail)
  {
    hide Quoted, Quoting.Doubled;
    var a, b := [QUOTE, sep] + tail, [QUOTE, CR, row] + tail;
    assert ([QUOTE] + Quoting.Doubled(t, QUOTE) + [QUOTE] + [sep] + tail)[1..] == Quoting.Doubled(t, QUOTE) + a;
    assert ([QUOTE] + Quoting.Doubled(t, QUOTE) + [QUOTE] + [CR, row] + tail)[1..] == Quoting.Doubled(t, QUOTE) + b;
    assert [] + t == t;
    var pc, ppc := ReadDoubled(t, a, sep, row, [], 0, 0);
    CloseBySep(t, tail, sep, row, pc, ppc);
    if sep != CR {
      pc, ppc := ReadDoubled(t, b, sep, row, [], 0, 0);
      CloseByRow(t, tail, sep, row, pc, ppc);
    }
  }

  lemma {:induction false} PlainIs(t: Text, tail: seq<Byte>, sep: int, row: int)
    requires forall k :: 0 <= k < |t| ==> t[k] != sep && t[k] != row
    requires tail == [] || tail[0] == sep || tail[0] == row
    ensures Plain(t + tail, sep, row) == t
  {
    if t == [] {
      assert t + tail == tail;
    } else {
      assert (t + tail)[1..] == t[1..] + tail;
      PlainIs(t[1..], tail, sep, row);
    }
  }

  /** Text without special bytes ended by the separator, or by CR LF with the CR dropped. */
  lemma ReadPlainField(t: Text, tail: seq<Byte>, sep: Byte, row: Byte)
    requires sep != QUOTE && row != CR && row != sep
    requires forall k :: 0 <= k < |t| ==> !NeedCsvQuote(t[k]) && t[k] != sep && t[k] != row
    ensures ReadField(t + [sep] + tail, sep, row) == Field(t, sep, tail)
    ensures sep != CR ==> ReadField(t + [CR, row] + tail, sep, row) == Field(t, row, tail)
  {
    hide Plain, Quoted;
    var s := t + [sep] + tail;
    assert s == t + ([sep] + tail) && s[|t|..] == [sep] + tail;
    PlainIs(t, [sep] + tail, sep, row);
    if sep != CR {
      var u := t + [CR];
      assert t + [CR, row] + tail == u + ([row] + tail) && (u + ([row] + tail))[|u|..] == [row] + tail;
      PlainIs(u, [row] + tail, sep, row);
      assert u[..|u| - 1] == t;
    }
  }

  /** The same text ended by a bare row end, or by the end of the input. */
  lemma ReadPlainFieldToo(t: Text, tail: seq<Byte>, sep: Byte, row: Byte)
    requires row != QUOTE && row != sep
    requires forall k :: 0 <= k < |t| ==> !NeedCsvQuote(t[k]) && t[k] != sep && t[k] != row
    ensures ReadField(t + [row] + tail, sep, row) == Field(t, row, tail)
    ensures t != [] ==> ReadField(t, sep, row) == Field(t, EOF, [])
  {
    hide Plain, Quoted;
    assert t + [row] + tail == t + ([row] + tail) && (t + ([row] + tail))[|t|..] == [row] + tail;
    PlainIs(t, [row] + tail, sep, row);
    assert t + [] == t && t[|t|..] == [];
    PlainIs(t, [], sep, row);
  }

  // ----- separators

  /** A char as an int in C, where char may be signed. */
  function CharToInt(b: Byte, signedChar: bool): int {
    if signedChar && b >= 128 then b - 256 else b
  }

  /** The import command takes the separator (it is not the empty string) and the
      reader can leave a record (it is not taken for the end of the file). */
  predicate Importable(sep: Byte, signedChar: bool) {
    sep != 0 && !(signedChar && sep == 255)
  }

  /** A separator with which import reads back what was printed: no quote, no line feed,
      and below 128 where char is signed, so that the reader compares with the byte that was printed. */
  predicate GoodSep(sep: Byte, signedChar: bool) {
    sep != 0 && sep != 34 && sep != 10 && (signedChar ==> sep < 128)
  }

  /** A null text that is read back as itself. */
  predicate GoodNull(nullValue: Text, sep: Byte) {
    forall k :: 0 <= k < |nullValue| ==> !NeedCsvQuote(nullValue[k]) && nullValue[k] != sep
  }

  /** One printed value comes back with its terminator. */
  lemma FieldRoundTrip(z: Option<Text>, nullValue: Text, tail: seq<Byte>, sep: Byte)
    requires sep != QUOTE && sep != LF && GoodNull(nullValue, sep)
    ensures ReadField(CsvCell(z, [sep], nullValue) + [sep] + tail, sep, LF) == Field(Shown(z, nullValue), sep, tail)
    ensures sep != CR ==>
              ReadField(CsvCell(z, [sep], nullValue) + [CR, LF] + tail, sep, LF) == Field(Shown(z, nullValue), LF, tail)
    ensures ReadField(CsvCell(z, [sep], nullValue) + [LF] + tail, sep, LF) == Field(Shown(z, nullValue), LF, tail)
    ensures CsvCell(z, [sep], nullValue) != [] ==>
              ReadField(CsvCell(z, [sep], nullValue), sep, LF) == Field(Shown(z, nullValue), EOF, [])
  {
    hide ReadField, Quoting.Doubled;
    if z.Some? && NeedsQuotes(z.value, [sep]) {
      ReadQuotedField(z.value, tail, sep, LF);
      ReadQuotedFieldToo(z.value, tail, sep, LF);
    } else {
      var t := Shown(z, nullValue);
      forall k | 0 <= k < |t| ensures !NeedCsvQuote(t[k]) && t[k] != sep && t[k] != LF {
        assert z.Some? ==> !Forces(t, k, [sep]);
      }
      ReadPlainField(t, tail, sep, LF);
      ReadPlainFieldToo(t, tail, sep, LF);
    }
  }

  /** The row ends import with row separator LF understands: LF, and the CR LF that the shell prints. */
  predicate RowEnd(end: seq<Byte>) {
    end == [10] || end == [13, 10]
  }

  /** With CR as the separator the LF of a CR LF is one more, empty field. */
  function Extra(sep: Byte, end: seq<Byte>): seq<Option<Text>> {
    if sep == CR && end == [CR, LF] then [Some([])] else []
  }

  lemma LoneLineFeed(tail: seq<Byte>, sep: Byte)
    requires sep != LF
    ensures ReadRecord([LF] + tail, sep, LF) == Record([Some([])], LF, tail)
  {
    var s := [LF] + tail;
    assert s[0] == LF && s[0..] == s && s[1..] == tail;
    assert ReadField(s, sep, LF) == Field([], LF, tail);
  }

  lemma CsvRowStarts(cells: seq<Option<Text>>, sep: seq<Byte>, nullValue: Text, after: seq<Byte>)
    requires cells != []
    ensures var one := CsvCell(cells[0], sep, nullValue);
            CsvRow(cells, sep, nullValue) + after
            == if |cells| == 1 then one + after else one + sep + (CsvRow(cells[1..], sep, nullValue) + after)
  {
    hide CsvCell;
    var one, rest := CsvCell(cells[0], sep, nullValue), CsvRow(cells[1..], sep, nullValue);
    Assoc(one + sep, rest, after);
  }

  /** The last value of a row, with its row end. */
  lemma LastValue(z: Option<Text>, nullValue: Text, tail: seq<Byte>, sep: Byte, end: seq<Byte>)
    requires sep != QUOTE && sep != LF && GoodNull(nullValue, sep) && RowEnd(end) && 0 !in Shown(z, nullValue)
    ensures ReadRecord(CsvCell(z, [sep], nullValue) + (end + tail), sep, LF)
            == Record([Some(Shown(z, nullValue))] + Extra(sep, end), LF, tail)
  {
    hide ReadField, ReadRecord, CsvCell, GoodNull, CString;
    var t, one := Shown(z, nullValue), CsvCell(z, [sep], nullValue);
    CStringOfNulFree(t);
    Assoc(one, end, tail);
    if sep == CR && end == [CR, LF] {
      assert one + [CR, LF] + tail == one + [sep] + ([LF] + tail);
      FieldRoundTrip(z, nullValue, [LF] + tail, sep);
      LoneLineFeed(tail, sep);
    } else {
      FieldRoundTrip(z, nullValue, tail, sep);
    }
    RecordStep(one + (end + tail), sep, LF);
    assert [Some(t)] + [] == [Some(t)];
  }

  /** A printed row is one record with its values as shown. */
  lemma {:induction false} RecordRoundTrip(cells: seq<Option<Text>>, nullValue: Text, tail: seq<Byte>, sep: Byte,
                                           end: seq<Byte>)
    requires sep != QUOTE && sep != LF && GoodNull(nullValue, sep) && RowEnd(end)
    requires cells != [] && NulFree(ShownAll(cells, nullValue))
    ensures ReadRecord(CsvRow(cells, [sep], nullValue) + (end + tail), sep, LF)
            == Record(Values(ShownAll(cells, nullValue)) + Extra(sep, end), LF, tail)
    decreases |cells|
  {
    hide ReadField, ReadRecord, CsvCell, CsvRow, GoodNull, CString, RowEnd, Extra;
    var t, shown := Shown(cells[0], nullValue), ShownAll(cells, nullValue);
    assert t == shown[0];
    CsvRowStarts(cells, [sep], nullValue, end + tail);
    if |cells| == 1 {
      assert Values(shown) == [Some(t)];
      LastValue(cells[0], nullValue, tail, sep, end);
    } else {
      var rest := CsvRow(cells[1..], [sep], nullValue) + (end + tail);
      CStringOfNulFree(t);
      FieldRoundTrip(cells[0], nullValue, rest, sep);
      RecordStep(CsvCell(cells[0], [sep], nullValue) + [sep] + rest, sep, LF);
      assert ShownAll(cells[1..], nullValue) == shown[1..];
      RecordRoundTrip(cells[1..], nullValue, tail, sep, end);
      assert Values(shown) + Extra(sep, end) == [Some(t)] + (Values(shown[1..]) + Extra(sep, end));
    }
  }

  /** What a last row without a row end gives: its values, except that a last value of which nothing
      is printed is no field at all. */
  function Unended(cells: seq<Option<Text>>, nullValue: Text): (r: seq<Option<Text>>)
    requires cells != []
    ensures |r| == |cells|
  {
    var n := |cells| - 1;
    Values(ShownAll(cells[..n], nullValue))
      + [if cells[n] == None && nullValue == [] then None else Some(Shown(cells[n], nullValue))]
  }

  lemma PrintsNothingIff(z: Option<Text>, sep: seq<Byte>, nullValue: Text)
    ensures CsvCell(z, sep, nullValue) == [] <==> z == None && nullValue == []
  {
  }

  lemma {:induction false} LastRecord(cells: seq<Option<Text>>, nullValue: Text, sep: Byte)
    requires sep != QUOTE && sep != LF && GoodNull(nullValue, sep) && cells != [] && NulFree(ShownAll(cells, nullValue))
    ensures ReadRecord(CsvRow(cells, [sep], nullValue), sep, LF) == Record(Unended(cells, nullValue), EOF, [])
    decreases |cells|
  {
    hide ReadField, ReadRecord, CsvCell, CsvRow, GoodNull, CString;
    var t, shown := Shown(cells[0], nullValue), ShownAll(cells, nullValue);
    var one := CsvCell(cells[0], [sep], nullValue);
    assert t == shown[0];
    CStringOfNulFree(t);
    CsvRowStarts(cells, [sep], nullValue, []);
    assert CsvRow(cells, [sep], nullValue) + [] == CsvRow(cells, [sep], nullValue) && one + [] == one;
    PrintsNothingIff(cells[0], [sep], nullValue);
    if |cells| == 1 {
      assert Unended(cells, nullValue) == [if one == [] then None else Some(t)];
      if one == [] {
        NoRecord(sep, LF);
      } else {
        FieldRoundTrip(cells[0], nullValue, [], sep);
        RecordStep(one, sep, LF);
      }
    } else {
      var rest := CsvRow(cells[1..], [sep], nullValue);
      assert rest + [] == rest;
      FieldRoundTrip(cells[0], nullValue, rest, sep);
      RecordStep(one + [sep] + rest, sep, LF);
      assert ShownAll(cells[1..], nullValue) == shown[1..];
      LastRecord(cells[1..], nullValue, sep);
      UnendedStarts(cells, nullValue);
    }
  }

  lemma NoRecord(sep: int, row: int)
    requires sep != EOF
    ensures ReadRecord([], sep, row) == Record([None], EOF, [])
  {
  }

  lemma UnendedStarts(cells: seq<Option<Text>>, nullValue: Text)
    requires |cells| > 1
    ensures Unended(cells, nullValue) == [Some(Shown(cells[0], nullValue))] + Unended(cells[1..], nullValue)
  {
    var n := |cells| - 1;
    assert cells[1..][..n - 1] == cells[..n][1..];
    assert Values(ShownAll(cells[..n], nullValue))
           == [Some(Shown(cells[0], nullValue))] + Values(ShownAll(cells[1..][..n - 1], nullValue));
  }

  /** The rows import should insert: every value as it was shown. */
  function TableShown(rows: seq<seq<Option<Text>>>, nullValue: Text): (r: seq<seq<Option<Text>>>)
    ensures |r| == |rows|
  {
    seq(|rows|, i requires 0 <= i < |rows| => Values(ShownAll(rows[i], nullValue)))
  }

  /** A table of nCol columns whose values the shell can print. */
  predicate Printable(rows: seq<seq<Option<Text>>>, nCol: nat, nullValue: Text) {
    nCol >= 1 && forall k :: 0 <= k < |rows| ==> |rows[k]| == nCol && NulFree(ShownAll(rows[k], nullValue))
  }

  /** The extra field, if any, is dropped. */
  lemma ShapedShown(shown: seq<Option<Text>>, extra: seq<Option<Text>>, nCol: nat)
    requires |shown| == nCol
    ensures Shaped(shown + extra, nCol) == shown
  {
    assert (shown + extra)[..nCol] == shown;
  }

  /** Printed rows are imported as they were shown, whatever follows them. */
  lemma {:induction false} RowsThen(rows: seq<seq<Option<Text>>>, nullValue: Text, sep: Byte, end: seq<Byte>, nCol: nat,
                                    tail: seq<Byte>)
    requires sep != QUOTE && sep != LF && GoodNull(nullValue, sep) && RowEnd(end) && Printable(rows, nCol, nullValue)
    ensures Rows(CsvTable(rows, [sep], end, nullValue) + tail, sep, LF, nCol)
            == TableShown(rows, nullValue) + Rows(tail, sep, LF, nCol)
  {
    hide Rows, ReadRecord, CsvRow, Shaped, GoodNull, NulFree, RowEnd, Extra;
    if rows == [] {
      assert CsvTable(rows, [sep], end, nullValue) + tail == tail;
      assert TableShown(rows, nullValue) + Rows(tail, sep, LF, nCol) == Rows(tail, sep, LF, nCol);
    } else {
      var line, more := CsvRow(rows[0], [sep], nullValue), CsvTable(rows[1..], [sep], end, nullValue);
      var shown := Values(ShownAll(rows[0], nullValue));
      Assoc(line + end, more, tail);
      Assoc(line, end, more + tail);
      EndIsSome(end);
      RowsStep(line + (end + (more + tail)), sep, LF, nCol);
      RecordRoundTrip(rows[0], nullValue, more + tail, sep, end);
      RowsThen(rows[1..], nullValue, sep, end, nCol, tail);
      ShapedShown(shown, Extra(sep, end), nCol);
      assert TableShown(rows, nullValue) == [shown] + TableShown(rows[1..], nullValue);
    }
  }

  lemma EndIsSome(end: seq<Byte>)
    requires RowEnd(end)
    ensures end != []
  {
  }

  /** Printing a table and importing the text inserts exactly its rows, in order, with either row end. */
  lemma TableRoundTrip(rows: seq<seq<Option<Text>>>, nullValue: Text, sep: Byte, end: seq<Byte>, nCol: nat)
    requires sep != QUOTE && sep != LF && GoodNull(nullValue, sep) && RowEnd(end) && Printable(rows, nCol, nullValue)
    ensures Rows(CsvTable(rows, [sep], end, nullValue), sep, LF, nCol) == TableShown(rows, nullValue)
  {
    hide Rows, CsvTable, GoodNull, RowEnd, Printable;
    var s := CsvTable(rows, [sep], end, nullValue);
    assert s + [] == s;
    RowsThen(rows, nullValue, sep, end, nCol, []);
    RowsStep([], sep, LF, nCol);
    assert TableShown(rows, nullValue) + [] == TableShown(rows, nullValue);
  }

  /** The same with one more row that has no row end: it is inserted too, unless nothing of it is printed. */
  lemma UnendedTable(rows: seq<seq<Option<Text>>>, last: seq<Option<Text>>, nullValue: Text, sep: Byte, end: seq<Byte>,
                     nCol: nat)
    requires sep != QUOTE && sep != LF && GoodNull(nullValue, sep) && RowEnd(end)
    requires Printable(rows, nCol, nullValue) && Printable([last], nCol, nullValue)
    ensures Rows(CsvTable(rows, [sep], end, nullValue) + CsvRow(last, [sep], nullValue), sep, LF, nCol)
            == TableShown(rows, nullValue) + if CsvRow(last, [sep], nullValue) == [] then []
              else [Unended(last, nullValue)]
    ensures CsvRow(last, [sep], nullValue) == [] <==> last == [None] && nullValue == []
  {
    assert |[last][0]| == nCol && NulFree(ShownAll([last][0], nullValue));
    hide Rows, CsvTable, GoodNull, RowEnd, Printable, CsvCell, Unended, ReadRecord;
    var s := CsvRow(last, [sep], nullValue);
    RowsThen(rows, nullValue, sep, end, nCol, s);
    RowsStep(s, sep, LF, nCol);
    LastRecord(last, nullValue, sep);
    PrintsNothingIff(last[0], [sep], nullValue);
    assert Unended(last, nullValue) + [] == Unended(last, nullValue);
    ShapedShown(Unended(last, nullValue), [], nCol);
  }

  /** Every printable table comes back. */
  ghost predicate RoundTrips(sep: Byte, signedChar: bool)
    requires Importable(sep, signedChar)
  {
    forall rows, nCol {:trigger Printable(rows, nCol, [])} :: Printable(rows, nCol, []) ==>
      Rows(CsvTable(rows, [sep], [CR, LF], []), CharToInt(sep, signedChar), LF, nCol) == TableShown(rows, [])
  }

  /** Every read ends at the separator, the end of a row or the end of the input. */
  lemma {:induction false} QuotedTerm(s: seq<Byte>, sep: int, row: int, stored: Text, pc: int, ppc: int)
    requires Tied(stored, pc, ppc)
    ensures var c := Quoted(s, sep, row, stored, pc, ppc).term; c == sep || c == row || c == EOF
    decreases |s|
  {
    var c := Peek(s);
    if c == QUOTE && pc == QUOTE {
      QuotedTerm(Drop(s), sep, row, stored, 0, ppc);
    } else if !Ends(c, sep, row, pc, ppc) && c != EOF {
      QuotedTerm(Drop(s), sep, row, stored + [s[0]], c, pc);
    }
  }

  /** Where the separator is the row end, the first record is the whole input. */
  lemma {:induction false} OneRecord(s: seq<Byte>, row: int)
    requires row != EOF
    ensures ReadRecord(s, row, row).term == EOF
    decreases |s|
  {
    if s != [] {
      ReadConsumes(s, row, row);
      if s[0] == QUOTE {
        QuotedTerm(s[1..], row, row, [], 0, 0);
      }
      OneRecord(ReadField(s, row, row).rest, row);
    }
  }

  /** A LF separator: of two rows only one is inserted. */
  lemma LineFeedFails()
    ensures !RoundTrips(LF, true) && !RoundTrips(LF, false)
  {
    var rows: seq<seq<Option<Text>>> := [[None], [None]];
    assert Printable(rows, 1, []);
    var s := CsvTable(rows, [LF], [CR, LF], []);
    OneRecord(s, LF);
    assert |Rows(s, LF, LF, 1)| <= 1 && |TableShown(rows, [])| == 2;
  }

  lemma OneRowOfTwo(a: Option<Text>, b: Option<Text>, sep: seq<Byte>)
    ensures CsvTable([[a, b]], sep, [CR, LF], []) == CsvCell(a, sep, []) + sep + CsvCell(b, sep, []) + [CR, LF]
  {
    var rows := [[a, b]];
    assert rows[1..] == [] && rows[0][1..] == [b];
    assert CsvRow([a, b], sep, []) == CsvCell(a, sep, []) + sep + CsvRow([b], sep, []);
  }

  /** A quote as separator: an empty text before it opens a quoted field that never closes. */
  lemma QuoteFails()
    ensures !RoundTrips(QUOTE, true) && !RoundTrips(QUOTE, false)
  {
    var rows: seq<seq<Option<Text>>> := [[Some([]), Some([65])]];
    assert Printable(rows, 2, []);
    var s := CsvTable(rows, [QUOTE], [CR, LF], []);
    assert CsvField([65], [QUOTE]) == [65];
    assert CsvField([], [QUOTE]) == [QUOTE, QUOTE];
    OneRowOfTwo(Some([]), Some([65]), [QUOTE]);
    assert s == [QUOTE, QUOTE, QUOTE, 65, CR, LF];
    UnclosedQuote(s);
    assert Rows(s, QUOTE, LF, 2)[0][0] == Some([QUOTE, 65, CR, LF]);
    assert TableShown(rows, [])[0][0] == Some([]);
  }

  lemma QuotedAtEnd(sep: int, row: int, stored: Text, pc: int, ppc: int)
    requires Tied(stored, pc, ppc) && sep != EOF && row != EOF && pc != QUOTE
    ensures Quoted([], sep, row, stored, pc, ppc) == Field(stored, EOF, [])
  {
  }

  lemma UnclosedQuote(s: seq<Byte>)
    requires s == [QUOTE, QUOTE, QUOTE, 65, CR, LF]
    ensures ReadRecord(s, QUOTE, LF) == Record([Some([QUOTE, 65, CR, LF])], EOF, [])
  {
    hide Quoted;
    var t: Text := [QUOTE, 65, CR, LF];
    assert s[1..] == [QUOTE] + ([QUOTE] + [65, CR, LF]);
    QuotedStep(QUOTE, [QUOTE] + [65, CR, LF], QUOTE, LF, [], 0, 0);
    QuotedStep(QUOTE, [65, CR, LF], QUOTE, LF, [QUOTE], QUOTE, 0);
    assert [65, CR, LF] == [65] + ([CR] + [LF]);
    QuotedStep(65, [CR] + [LF], QUOTE, LF, [QUOTE], 0, 0);
    QuotedStep(CR, [LF], QUOTE, LF, [QUOTE] + [65], 65, 0);
    assert [LF] == [LF] + [];
    QuotedStep(LF, [], QUOTE, LF, [QUOTE] + [65] + [CR], CR, 65);
    assert [] + [QUOTE] == [QUOTE] && [QUOTE] + [65] + [CR] + [LF] == t;
    QuotedAtEnd(QUOTE, LF, t, LF, CR);
    CStringOfNulFree(t);
  }

  /** A byte from 128 on where char is signed: the reader never sees the separator. */
  lemma NegativeCharFails(sep: Byte)
    requires 128 <= sep && Importable(sep, true)
    ensures !RoundTrips(sep, true)
  {
    var rows: seq<seq<Option<Text>>> := [[Some([65]), Some([65])]];
    assert Printable(rows, 2, []);
    var s := CsvTable(rows, [sep], [CR, LF], []);
    assert CsvField([65], [sep]) == [65];
    OneRowOfTwo(Some([65]), Some([65]), [sep]);
    assert s == [65, sep, 65] + [CR] + [LF];
    var t: Text, c := [65, sep, 65], CharToInt(sep, true);
    PlainIs(t + [CR], [LF], c, LF);
    assert s[|t + [CR]|..] == [LF] && (t + [CR])[..3] == t;
    assert ReadField(s, c, LF) == Field(t, LF, []);
    CStringOfNulFree(t);
    assert ReadRecord(s, c, LF) == Record([Some(t)], LF, []);
    assert Rows(s, c, LF, 2)[0][0] == Some(t);
    assert TableShown(rows, [])[0][0] == Some([65]);
  }

  /** Of the separators import accepts, exactly the good ones bring every table back. */
  lemma SeparatorIff(sep: Byte, signedChar: bool)
    requires Importable(sep, signedChar)
    ensures RoundTrips(sep, signedChar) <==> GoodSep(sep, signedChar)
  {
    if GoodSep(sep, signedChar) {
      forall rows, nCol | Printable(rows, nCol, [])
        ensures Rows(CsvTable(rows, [sep], [CR, LF], []), CharToInt(sep, signedChar), LF, nCol) == TableShown(rows, [])
      {
        TableRoundTrip(rows, [], sep, [CR, LF], nCol);
      }
    } else if sep == LF {
      LineFeedFails();
    } else if sep == QUOTE {
      QuoteFails();
    } else {
      NegativeCharFails(sep);
    }
  }

  /** With a separator of several bytes a field that contains it is left bare
      exactly when it does not start with it and holds no other special byte. */
  lemma LongSeparatorIff(a: Text, b: Text, sep: seq<Byte>)
    requires |sep| >= 2 && forall k :: 0 <= k < |sep| ==> !NeedCsvQuote(sep[k])
    requires forall k :: 0 <= k < |a + b| ==> !NeedCsvQuote((a + b)[k])
    ensures CsvField(a + sep + b, sep) == a + sep + b <==> !(sep <= a + sep + b)
  {
    var t := a + sep + b;
    forall k | 0 <= k < |t| ensures !NeedCsvQuote(t[k]) {
      assert t[k] == if k < |a| then (a + b)[k] else if k < |a| + |sep| then sep[k - |a|] else (a + b)[k - |sep|];
    }
    assert t[|a|] == sep[0];
    assert sep <= t ==> Forces(t, |a|, sep);
  }
}
