// The stateful CSV reader, the import loop and the CSV printer of progs/shell.c.
module CsvIo {
  import opened Bytes
  import opened Texts
  import opened Csv
  import Quoting

  /** The walk back goes on while it is past the last quote. */
  lemma StripStep(stored: Text, n: nat)
    requires QUOTE in stored && |StripBack(stored)| <= n < |stored|
    ensures stored[n] == QUOTE ==> stored[..n] == StripBack(stored)
    ensures stored[n] != QUOTE ==> |StripBack(stored)| < n
  {
    hide StripBack;
    var r := StripBack(stored);
    assert n > |r| ==> stored[|r| + 1..][n - |r| - 1] == stored[n];
  }

  /** In the plain-field loop: the n bytes of s before c are neither separator nor row end, input follows c. */
  ghost predicate PlainAt(s: seq<Byte>, n: nat, c: int, input: seq<Byte>, sep: int, row: int) {
    && n <= |s| && c == Peek(s[n..]) && input == Drop(s[n..])
    && forall k :: 0 <= k < n ==> s[k] != sep && s[k] != row
  }

  lemma PlainStarts(s: seq<Byte>, sep: int, row: int)
    ensures PlainAt(s, 0, Peek(s), Drop(s), sep, row)
  {
    assert s[0..] == s;
  }

  lemma PlainAtMeans(s: seq<Byte>, n: nat, c: int, input: seq<Byte>, sep: int, row: int)
    requires PlainAt(s, n, c, input, sep, row)
    ensures n <= |s|
  {
  }

  lemma PlainNext(s: seq<Byte>, n: nat, c: int, input: seq<Byte>, sep: int, row: int)
    requires PlainAt(s, n, c, input, sep, row) && c != EOF && c != sep && c != row
    ensures n < |s| && c == s[n] && s[..n] + [s[n]] == s[..n + 1]
    ensures PlainAt(s, n + 1, Peek(input), Drop(input), sep, row)
  {
    assert s[n..] != [] && s[n..][1..] == s[n + 1..];
  }

  /** What the loop has read when it stops. */
  lemma PlainEnds(s: seq<Byte>, n: nat, c: int, input: seq<Byte>, sep: int, row: int)
    requires PlainAt(s, n, c, input, sep, row) && s != [] && s[0] != QUOTE && (c == EOF || c == sep || c == row)
    ensures n <= |s|
    ensures ReadField(s, sep, row)
            == Field(if c == row && n > 0 && s[n - 1] == CR then s[..n][..n - 1] else s[..n], c, input)
  {
    hide Quoted, Plain;
    assert s == s[..n] + s[n..];
    PlainIs(s[..n], s[n..], sep, row);
  }

  lemma NothingStored()
    ensures Tied([], 0, 0)
  {
  }

  /** One turn of the quoted-field loop. */
  lemma ReadOn(s: seq<Byte>, sep: int, row: int, stored: Text, pc: int, ppc: int)
    requires Tied(stored, pc, ppc)
    ensures var c, f := Peek(s), Quoted(s, sep, row, stored, pc, ppc);
            if c == QUOTE && pc == QUOTE then s != [] && Tied(stored, 0, ppc)
              && f == Quoted(Drop(s), sep, row, stored, 0, ppc)
            else if Ends(c, sep, row, pc, ppc) then QUOTE in stored && f == Field(StripBack(stored), c, Drop(s))
            else if c == EOF then f == Field(stored, c, s) && s == []
            else s != [] && c == s[0] && Tied(stored + [s[0]], c, pc)
                 && f == Quoted(Drop(s), sep, row, stored + [s[0]], c, pc)
  {
    hide StripBack;
  }

  /** The index of the last quote before n0. */
  method LastQuote(z: array<Byte>, n0: nat) returns (n: nat)
    requires n0 <= z.Length && QUOTE in z[..n0]
    ensures n < n0 && z[..n] == StripBack(z[..n0])
  {
    hide StripBack;
    ghost var stored := z[..n0];
    n := n0 - 1;
    while z[n] != QUOTE
      invariant |StripBack(stored)| <= n < n0
      decreases n
    {
      StripStep(stored, n);
      n := n - 1;
    }
    StripStep(stored, n);
    assert stored[..n] == z[..n];
  }

  class ImportCtx {
    var input: seq<Byte>   // what fgetc has not returned yet
    var z: array<Byte>
    var n: nat
    var cTerm: int
    const cColSep: int
    const cRowSep: int

    ghost predicate Valid()
      reads this
    {
      n < z.Length
    }

    /** The accumulated text of the field. */
    function Stored(): Text
      reads this, z
      requires Valid()
    {
      z[..n]
    }

    /** The context .import sets up, with one byte appended so that the buffer exists. */
    constructor (input: seq<Byte>, cColSep: int, cRowSep: int)
      ensures Valid() && fresh(z) && this.input == input && this.cColSep == cColSep && this.cRowSep == cRowSep
              && cTerm == 0
    {
      this.input, this.cColSep, this.cRowSep := input, cColSep, cRowSep;
      n, cTerm := 0, 0;
      z := new Byte[0];
      new;
      AppendChar(0);
    }

    method GetC() returns (c: int)
      modifies this`input
      ensures c == Peek(old(input)) && input == Drop(old(input))
    {
      c := Peek(input);
      input := Drop(input);
    }

    /** import_append_char: a slot stays free for the terminating NUL. */
    method AppendChar(c: Byte)
      requires n <= z.Length
      modifies this`z, this`n, z
      ensures Valid() && n == old(n) + 1 && (z == old(z) || fresh(z))
      ensures Stored() == old(z[..n]) + [c]
    {
      if n + 1 >= z.Length {
        var bigger := new Byte[z.Length + z.Length + 100];
        for i := 0 to n
          invariant n == old(n) && z == old(z) && z[..] == old(z[..])
          invariant bigger[..i] == z[..i]
        {
          bigger[i] := z[i];
        }
        z := bigger;
      }
      z[n] := c;
      n := n + 1;
    }

    /** The do-while that walks back to the last stored quote. */
    method StripBackToQuote()
      requires Valid() && QUOTE in Stored()
      modifies this`n
      ensures Valid() && Stored() == StripBack(old(Stored()))
    {
      n := LastQuote(z, n);
    }

    /** csv_read_one_field on any bytes: false at the end of the input, else one field. */
    method CsvReadOneField() returns (ok: bool)
      requires Valid()
      modifies this, z
      ensures Valid() && (z == old(z) || fresh(z)) && (ok ==> z[n] == 0)
      ensures ok <==> old(input) != []
      ensures !ok ==> cTerm == EOF && input == []
      ensures ok ==> Field(Stored(), cTerm, input) == ReadField(old(input), cColSep, cRowSep)
    {
      n := 0;
      var c := GetC();
      if c == EOF {
        cTerm := EOF;
        return false;
      }
      ok := true;
      if c == QUOTE {
        ReadQuoted();
      } else {
        ReadPlain(c, old(input));
      }
      z[n] := 0;
    }

    /** The loop for any other field; c is its first character. */
    method ReadPlain(c0: int, ghost s: seq<Byte>)
      requires Valid() && n == 0 && s != [] && c0 == Peek(s) && c0 != QUOTE && input == Drop(s)
      modifies this, z
      ensures Valid() && (z == old(z) || fresh(z))
      ensures Field(Stored(), cTerm, input) == ReadField(s, cColSep, cRowSep)
    {
      hide ReadField, PlainAt;
      var c := c0;
      PlainStarts(s, cColSep, cRowSep);
      PlainAtMeans(s, n, c, input, cColSep, cRowSep);
      while c != EOF && c != cColSep && c != cRowSep
        invariant Valid() && (z == old(z) || fresh(z))
        invariant n <= |s| && Stored() == s[..n] && PlainAt(s, n, c, input, cColSep, cRowSep)
        decreases |s| - n
      {
        PlainNext(s, n, c, input, cColSep, cRowSep);
        AppendChar(c);
        c := GetC();
      }
      PlainEnds(s, n, c, input, cColSep, cRowSep);
      assert n > 0 ==> z[..n][..n - 1] == z[..n - 1] && z[n - 1] == s[..n][n - 1];
      if c == cRowSep {
        if n > 0 && z[n - 1] == CR {
          n := n - 1;
        }
      }
      cTerm := c;
    }

    /** The loop for a field that starts with a quote. */
    method ReadQuoted()
      requires Valid() && n == 0
      modifies this, z
      ensures Valid() && (z == old(z) || fresh(z))
      ensures Field(Stored(), cTerm, input) == Quoted(old(input), cColSep, cRowSep, [], 0, 0)
    {
      hide Quoted, Tied, Ends, StripBack;
      var pc, ppc := 0, 0;
      NothingStored();
      while true
        invariant Valid() && (z == old(z) || fresh(z)) && Tied(Stored(), pc, ppc)
        invariant Quoted(input, cColSep, cRowSep, Stored(), pc, ppc) == Quoted(old(input), cColSep, cRowSep, [], 0, 0)
        decreases |input|
      {
        ReadOn(input, cColSep, cRowSep, Stored(), pc, ppc);
        var c := GetC();
        if c == QUOTE && pc == QUOTE {
          pc := 0;
          continue;
        }
        if Ends(c, cColSep, cRowSep, pc, ppc) {
          StripBackToQuote();
          cTerm := c;
          break;
        }
        if c == EOF {
          cTerm := c;
          break;
        }
        AppendChar(c);
        ppc := pc;
        pc := c;
      }
    }
  }

  /** 1, 2, ..., n. */
  function Numbers(n: nat): (r: seq<nat>)
    ensures |r| == n
  {
    seq(n, i => i + 1)
  }

  /** Parameters k + 1 to nCol are bound to NULL. */
  method BindNulls(params0: seq<Option<Text>>, bound0: seq<nat>, k: nat, nCol: nat)
    returns (params: seq<Option<Text>>, bound: seq<nat>, i: nat)
    requires |params0| == nCol && k < nCol && bound0 == Numbers(k)
    ensures params == params0[..k] + Nulls(nCol - k) && bound == Numbers(nCol) && i == nCol + 1
  {
    params, bound, i := params0, bound0, k + 1;
    while i <= nCol
      invariant k < i <= nCol + 1 && |params| == nCol && bound == Numbers(i - 1)
      invariant params[..k] == params0[..k] && (forall j :: k <= j < i - 1 ==> params[j] == None)
    {
      params := params[i - 1 := None];
      bound := bound + [i];
      i := i + 1;
    }
  }

  /** The fields read so far and the record that is still to come. */
  ghost predicate Partial(r: Record, got: seq<Option<Text>>, input: seq<Byte>, sep: int, row: int)
    requires sep != EOF
  {
    var m := ReadRecord(input, sep, row);
    r.fields == got + m.fields && r.term == m.term && r.rest == m.rest
  }

  /** One more field read. */
  lemma PartialStep(r: Record, got: seq<Option<Text>>, input: seq<Byte>, sep: int, row: int, value: Option<Text>,
                    term: int, rest: seq<Byte>)
    requires sep != EOF && Partial(r, got, input, sep, row)
    requires input == [] ==> value == None && term == EOF && rest == []
    requires input != [] ==> var f := ReadField(input, sep, row); value == Some(CString(f.text)) && term == f.term
                                                                  && rest == f.rest
    ensures term == sep ==> Partial(r, got + [value], rest, sep, row)
    ensures term != sep ==> r == Record(got + [value], term, rest)
  {
    var m := ReadRecord(input, sep, row);
    if input != [] && term == sep {
      ReadConsumes(input, sep, row);
      var more := ReadRecord(rest, sep, row);
      assert got + ([value] + more.fields) == got + [value] + more.fields;
    }
  }

  /** In the field loop of .import: i fields of the record r are bound, or (over) the record has ended
      and every parameter is bound. */
  ghost predicate RowAt(r: Record, s: seq<Byte>, nCol: nat, i: int, params: seq<Option<Text>>, bound: seq<nat>,
                        input: seq<Byte>, term: int, over: bool, sep: int, row: int)
  {
    && sep != EOF && |params| == nCol && 0 <= i && (i > 0 ==> s != []) && (i == 0 ==> input == s)
    && if over then
         && i >= nCol && bound == Numbers(nCol) && params == Shaped(r.fields, nCol)
         && term == r.term != sep && input == r.rest
       else
         i <= nCol && (i > 0 ==> term == sep) && bound == Numbers(i) && Partial(r, params[..i], input, sep, row)
  }

  lemma RowStarts(s: seq<Byte>, nCol: nat, params: seq<Option<Text>>, term: int, sep: int, row: int)
    requires sep != EOF && |params| == nCol && nCol >= 1
    ensures RowAt(ReadRecord(s, sep, row), s, nCol, 0, params, [], s, term, false, sep, row)
  {
    hide ReadRecord;
    assert params[..0] == [] && [] + ReadRecord(s, sep, row).fields == ReadRecord(s, sep, row).fields;
  }

  /** One field read and bound. */
  lemma RowOn(r: Record, s: seq<Byte>, nCol: nat, i: int, params: seq<Option<Text>>, bound: seq<nat>, input: seq<Byte>,
              term0: int, over: bool, sep: int, row: int, value: Option<Text>, term: int, rest: seq<Byte>)
    requires RowAt(r, s, nCol, i, params, bound, input, term0, over, sep, row) && i < nCol && (i == 0 ==> s != [])
    requires input == [] ==> value == None && term == EOF && rest == []
    requires input != [] ==> var f := ReadField(input, sep, row); value == Some(CString(f.text)) && term == f.term
                                                                  && rest == f.rest
    ensures |params| == nCol && 0 <= i && bound + [i + 1] == Numbers(i + 1)
    ensures var params', bound' := params[i := value], bound + [i + 1];
            if term == sep then RowAt(r, s, nCol, i + 1, params', bound', rest, term, false, sep, row)
            else if i == nCol - 1 then RowAt(r, s, nCol, i + 1, params', bound', rest, term, true, sep, row)
            else RowAt(r, s, nCol, nCol + 2, params'[..i + 1] + Nulls(nCol - (i + 1)), Numbers(nCol), rest, term, true,
                       sep, row)
  {
    hide ReadField, ReadRecord, CString, Partial;
    PartialStep(r, params[..i], input, sep, row, value, term, rest);
    assert params[i := value][..i + 1] == params[..i] + [value];
    hide Nulls;
    if term != sep && i == nCol - 1 {
      assert params[i := value] == params[i := value][..nCol];
    }
  }

  lemma RowDone(r: Record, s: seq<Byte>, nCol: nat, i: int, params: seq<Option<Text>>, bound: seq<nat>,
                input: seq<Byte>, term: int, over: bool, sep: int, row: int)
    requires RowAt(r, s, nCol, i, params, bound, input, term, over, sep, row) && i >= nCol >= 1
    ensures 0 <= i && s != [] && params == Shaped(r.fields, nCol) && bound == Numbers(nCol)
    ensures term != sep ==> term == r.term && input == r.rest
    ensures term == sep ==> ReadRecord(input, sep, row).term == r.term && ReadRecord(input, sep, row).rest == r.rest
  {
    hide ReadRecord;
    if !over {
      assert params[..i] == params;
      assert (params + ReadRecord(input, sep, row).fields)[..nCol] == params;
    }
  }

  lemma RowSize(r: Record, s: seq<Byte>, nCol: nat, i: int, params: seq<Option<Text>>, bound: seq<nat>,
                input: seq<Byte>, term: int, over: bool, sep: int, row: int)
    requires RowAt(r, s, nCol, i, params, bound, input, term, over, sep, row)
    ensures |params| == nCol && 0 <= i && (i == 0 ==> input == s)
  {
  }

  /** One turn of the .import loop: bound lists the parameter numbers in the order they were bound. */
  method ImportRow(ctx: ImportCtx, nCol: nat, params0: seq<Option<Text>>)
    returns (insert: bool, params: seq<Option<Text>>, bound: seq<nat>)
    requires ctx.Valid() && nCol >= 1 && |params0| == nCol && ctx.cColSep != EOF
    modifies ctx, ctx.z
    ensures ctx.Valid() && (ctx.z == old(ctx.z) || fresh(ctx.z))
    ensures insert <==> old(ctx.input) != []
    ensures !insert ==> ctx.cTerm == EOF && |params| == nCol
    ensures insert ==>
              var r := ReadRecord(old(ctx.input), ctx.cColSep, ctx.cRowSep);
              params == Shaped(r.fields, nCol) && bound == Numbers(nCol) && ctx.cTerm == r.term && ctx.input == r.rest
  {
    hide ReadRecord, ReadField, CString, RowAt, Shaped;
    ghost var s, sep, row := old(ctx.input), ctx.cColSep, ctx.cRowSep;
    ghost var r := ReadRecord(s, sep, row);
    var i := 0;
    params, bound := params0, [];
    ghost var over := false;
    RowStarts(s, nCol, params, ctx.cTerm, sep, row);
    while i < nCol
      invariant ctx.Valid() && (ctx.z == old(ctx.z) || fresh(ctx.z)) && |params| == nCol && 0 <= i
      invariant RowAt(r, s, nCol, i, params, bound, ctx.input, ctx.cTerm, over, sep, row)
      decreases if i < nCol then nCol - i else 0
    {
      RowSize(r, s, nCol, i, params, bound, ctx.input, ctx.cTerm, over, sep, row);
      ghost var cur, term0 := ctx.input, ctx.cTerm;
      var ok := ctx.CsvReadOneField();
      if !ok && i == 0 {
        return false, params, bound;
      }
      var value := if ok then Some(CString(ctx.Stored())) else None;
      RowOn(r, s, nCol, i, params, bound, cur, term0, over, sep, row, value, ctx.cTerm, ctx.input);
      params := params[i := value];
      bound := bound + [i + 1];
      over := ctx.cTerm != sep;
      if i < nCol - 1 && ctx.cTerm != ctx.cColSep {
        params, bound, i := BindNulls(params, bound, i + 1, nCol);
      }
      i := i + 1;
    }
    RowDone(r, s, nCol, i, params, bound, ctx.input, ctx.cTerm, over, sep, row);
    if ctx.cTerm == ctx.cColSep {
      i := DropExtras(ctx, i);
    }
    insert := true;
  }

  /** Extra fields are read and dropped. */
  method DropExtras(ctx: ImportCtx, i0: nat) returns (i: nat)
    requires ctx.Valid() && ctx.cColSep != EOF && ctx.cTerm == ctx.cColSep
    modifies ctx, ctx.z
    ensures ctx.Valid() && (ctx.z == old(ctx.z) || fresh(ctx.z)) && i > i0
    ensures var m := ReadRecord(old(ctx.input), ctx.cColSep, ctx.cRowSep); ctx.cTerm == m.term && ctx.input == m.rest
  {
    ghost var m := ReadRecord(ctx.input, ctx.cColSep, ctx.cRowSep);
    i := i0;
    while true
      invariant ctx.Valid() && (ctx.z == old(ctx.z) || fresh(ctx.z)) && i >= i0
      invariant ReadRecord(ctx.input, ctx.cColSep, ctx.cRowSep).term == m.term
      invariant ReadRecord(ctx.input, ctx.cColSep, ctx.cRowSep).rest == m.rest
      decreases |ctx.input|
    {
      if ctx.input != [] {
        ReadConsumes(ctx.input, ctx.cColSep, ctx.cRowSep);
      }
      var _ := ctx.CsvReadOneField();
      i := i + 1;
      if ctx.cTerm != ctx.cColSep {
        break;
      }
    }
  }

  /** The .import loop on any bytes: it ends, and inserts the rows of the input.
      Each inserted row binds every parameter exactly once, in order. */
  method Import(ctx: ImportCtx, nCol: nat) returns (rows: seq<seq<Option<Text>>>, bindings: seq<seq<nat>>)
    requires ctx.Valid() && nCol >= 1 && ctx.cColSep != EOF
    modifies ctx, ctx.z
    ensures rows == Rows(old(ctx.input), ctx.cColSep, ctx.cRowSep, nCol)
    ensures |bindings| == |rows| && forall k :: 0 <= k < |bindings| ==> bindings[k] == Numbers(nCol)
    ensures forall k :: 0 <= k < |bindings| ==> |bindings[k]| == nCol && forall j :: 0 <= j < nCol
                                                                                     ==> bindings[k][j] == j + 1
  {
    hide Rows, ReadRecord;
    RowsStep([], ctx.cColSep, ctx.cRowSep, nCol);
    rows, bindings := [], [];
    var params := Nulls(nCol);
    while true
      invariant ctx.Valid() && (ctx.z == old(ctx.z) || fresh(ctx.z)) && |params| == nCol
      invariant rows + Rows(ctx.input, ctx.cColSep, ctx.cRowSep, nCol)
                == Rows(old(ctx.input), ctx.cColSep, ctx.cRowSep, nCol)
      invariant |bindings| == |rows| && forall k :: 0 <= k < |bindings| ==> bindings[k] == Numbers(nCol)
      decreases |ctx.input|
    {
      ghost var s := ctx.input;
      var insert, bound;
      insert, params, bound := ImportRow(ctx, nCol, params);
      if insert {
        ghost var r := ReadRecord(s, ctx.cColSep, ctx.cRowSep);
        ghost var later := if r.term == EOF then [] else Rows(r.rest, ctx.cColSep, ctx.cRowSep, nCol);
        RowsStep(s, ctx.cColSep, ctx.cRowSep, nCol);
        assert rows + ([params] + later) == rows + [params] + later;
        rows := rows + [params];
        bindings := bindings + [bound];
      }
      if ctx.cTerm == EOF {
        assert rows + [] == rows;
        break;
      }
    }
  }

  /** Column titles as they are printed: a missing one is empty. */
  function Titles(azCol: seq<Option<Text>>): (r: seq<Option<Text>>)
    ensures |r| == |azCol|
    ensures forall k :: 0 <= k < |r| ==> r[k] == Some(match azCol[k] case None => [] case Some(t) => t)
  {
    Values(ShownAll(azCol, []))
  }

  /** The shell's output settings for CSV; cnt counts the rows of the current statement. */
  class Shell {
    var out: seq<Byte>
    var cnt: nat
    const showHeader: bool
    const colSeparator: seq<Byte>
    const rowSeparator: seq<Byte>
    const nullValue: Text

    constructor (showHeader: bool, colSeparator: seq<Byte>, rowSeparator: seq<Byte>, nullValue: Text)
      ensures out == [] && cnt == 0 && this.showHeader == showHeader
      ensures this.colSeparator == colSeparator && this.rowSeparator == rowSeparator && this.nullValue == nullValue
    {
      out, cnt := [], 0;
      this.showHeader, this.colSeparator, this.rowSeparator, this.nullValue := showHeader, colSeparator, rowSeparator,
        nullValue;
    }

    /** The first loop of output_csv: does a byte force quotes? */
    method ForcesQuotes(t: Text) returns (quoted: bool)
      ensures quoted == NeedsQuotes(t, colSeparator)
    {
      hide Forces;
      var i := 0;
      while i < |t|
        invariant 0 <= i <= |t| && forall k :: 0 <= k < i ==> !Forces(t, k, colSeparator)
      {
        if Forces(t, i, colSeparator) {
          return true;
        }
        i := i + 1;
      }
      quoted := i == 0;
    }

    /** The second loop: every byte, quotes twice. */
    method OutputDoubled(t: Text)
      modifies this`out
      ensures out == old(out) + Quoting.Doubled(t, QUOTE)
    {
      hide Quoting.Doubled;
      var i := 0;
      Quoting.DoubledStep(t, 0, QUOTE);
      while i < |t|
        invariant 0 <= i <= |t| && out == old(out) + Quoting.Doubled(t[..i], QUOTE)
      {
        Quoting.DoubledStep(t, i, QUOTE);
        ghost var was := out;
        if t[i] == QUOTE {
          out := out + [QUOTE];
        }
        out := out + [t[i]];
        assert out == was + if t[i] == QUOTE then [QUOTE, QUOTE] else [t[i]];
        i := i + 1;
      }
      assert t[..i] == t;
    }

    /** output_csv: one term, NULL as the null value, text quoted when it has to be. */
    method OutputCsv(z: Option<Text>, bSep: bool)
      modifies this`out
      ensures out == old(out) + CsvCell(z, colSeparator, nullValue) + if bSep then colSeparator else []
      ensures out == old(out)
                     + (match z
                        case None => nullValue
                        case Some(t) => if PrintsBare(t, colSeparator) then t else [34] + Quoting.Doubled(t, 34) + [34])
                     + if bSep then colSeparator else []
    {
      if z.Some? {
        FieldIsBareIff(z.value, colSeparator);
      }
      hide PrintsBare, CsvField;
      match z {
        case None =>
          out := out + nullValue;
        case Some(t) =>
          var quoted := ForcesQuotes(t);
          if !quoted {
            out := out + t;
          } else {
            out := out + [QUOTE];
            OutputDoubled(t);
            out := out + [QUOTE];
            QuotedAfter(old(out), t);
          }
          assert out == old(out) + CsvField(t, colSeparator);
      }
      if bSep {
        out := out + colSeparator;
      }
    }

    /** One line of terms. */
    method OutputRow(cells: seq<Option<Text>>)
      modifies this`out
      ensures out == old(out) + (CsvRow(cells, colSeparator, nullValue) + rowSeparator)
    {
      hide CsvCell;
      var i := 0;
      while i < |cells|
        invariant 0 <= i <= |cells|
        invariant out + CsvRow(cells[i..], colSeparator, nullValue) == old(out) + CsvRow(cells, colSeparator, nullValue)
      {
        RowStep(cells[i..], colSeparator, nullValue, out);
        assert cells[i..][1..] == cells[i + 1..];
        OutputCsv(cells[i], i < |cells| - 1);
        i := i + 1;
      }
      assert cells[i..] == [];
      assert out == out + CsvRow(cells[i..], colSeparator, nullValue);
      out := out + rowSeparator;
      assert out == old(out) + (CsvRow(cells, colSeparator, nullValue) + rowSeparator);
    }

    /** The CSV case of shell_callback: the titles before the first row if they are wanted, then the row. */
    method Callback(azCol: seq<Option<Text>>, azArg: seq<Option<Text>>)
      requires |azCol| == |azArg|
      modifies this`out, this`cnt
      ensures cnt == old(cnt) + 1
      ensures out == old(out)
                     + (if old(cnt) == 0 && showHeader then CsvRow(Titles(azCol), colSeparator, nullValue)
                        + rowSeparator else [])
                     + (if azArg != [] then CsvRow(azArg, colSeparator, nullValue) + rowSeparator else [])
    {
      hide CsvRow;
      var first := cnt == 0;
      cnt := cnt + 1;
      if first && showHeader {
        OutputRow(Titles(azCol));
      }
      if |azArg| > 0 {
        OutputRow(azArg);
      }
    }
  }

  lemma QuotedAfter(out: seq<Byte>, t: Text)
    ensures out + [QUOTE] + Quoting.Doubled(t, QUOTE) + [QUOTE] == out + ([QUOTE] + Quoting.Doubled(t, QUOTE) + [QUOTE])
  {
    hide Quoting.Doubled;
    Assoc(out, [QUOTE], Quoting.Doubled(t, QUOTE));
    Assoc(out, [QUOTE] + Quoting.Doubled(t, QUOTE), [QUOTE]);
  }

  /** Printing the first value and, if more follow, the separator leaves the rest of the row. */
  lemma RowStep(cells: seq<Option<Text>>, sep: seq<Byte>, nullValue: Text, out: seq<Byte>)
    requires cells != []
    ensures var more := if |cells| > 1 then sep else [];
            out + CsvCell(cells[0], sep, nullValue) + more + CsvRow(cells[1..], sep, nullValue)
              == out + CsvRow(cells, sep, nullValue)
  {
    hide CsvCell;
    var cell, rest := CsvCell(cells[0], sep, nullValue), CsvRow(cells[1..], sep, nullValue);
    if |cells| > 1 {
      assert out + cell + sep + rest == out + (cell + sep + rest);
    } else {
      assert rest == [] && out + cell + [] + rest == out + cell;
    }
  }

  /** Export a table without titles, import the text: the same rows, NULL as the null text. */
  method ExportThenImport(rows: seq<seq<Option<Text>>>, titles: seq<Option<Text>>, nullValue: Text, sep: Byte,
                          end: seq<Byte>, signedChar: bool)
    returns (inserted: seq<seq<Option<Text>>>)
    requires GoodSep(sep, signedChar) && RowEnd(end) && GoodNull(nullValue, sep) && Printable(rows, |titles|, nullValue)
    ensures inserted == TableShown(rows, nullValue)
  {
    hide CsvRow, Rows;
    var nCol := |titles|;
    var shell := new Shell(false, [sep], end, nullValue);
    var k := 0;
    while k < |rows|
      invariant 0 <= k <= |rows|
      invariant shell.out + CsvTable(rows[k..], [sep], end, nullValue)
                == CsvTable(rows, [sep], end, nullValue)
    {
      assert rows[k..][1..] == rows[k + 1..];
      ghost var was, line, later := shell.out, CsvRow(rows[k], [sep], nullValue) + end,
        CsvTable(rows[k + 1..], [sep], end, nullValue);
      shell.Callback(titles, rows[k]);
      assert was + [] + line + later == was + (line + later);
      k := k + 1;
    }
    assert rows[k..] == [];
    assert shell.out == shell.out + CsvTable(rows[k..], [sep], end, nullValue);
    TableRoundTrip(rows, nullValue, sep, end, nCol);
    var ctx := new ImportCtx(shell.out, CharToInt(sep, signedChar), LF);
    var bindings;
    inserted, bindings := Import(ctx, nCol);
  }
}
