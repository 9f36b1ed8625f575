// SQL quoting in progs/shell.c: three writers of one quoted form, and the reader that undoes it.
module Quoting {
  import opened Bytes
  import opened Texts

  const SINGLE: Byte := 39

  /** Every quote byte twice. */
  function Doubled(t: Text, q: Byte): (r: seq<Byte>)
    ensures |t| <= |r|
  {
    if t == [] then [] else (if t[0] == q then [q, q] else [t[0]]) + Doubled(t[1..], q)
  }

  function Quoted(t: Text, q: Byte): seq<Byte> {
    [q] + Doubled(t, q) + [q]
  }

  lemma {:induction false} DoubledConcat(a: Text, b: Text, q: Byte)
    ensures Doubled(a + b, q) == Doubled(a, q) + Doubled(b, q)
  {
    if a == [] {
      assert a + b == b;
    } else {
      assert (a + b)[1..] == a[1..] + b;
      DoubledConcat(a[1..], b, q);
    }
  }

  lemma {:induction false} DoubledPlain(t: Text, q: Byte)
    requires q !in t
    ensures Doubled(t, q) == t
  {
    if t != [] { DoubledPlain(t[1..], q); }
  }

  /** Doubling goes byte by byte, and a byte other than the quote stands for itself. */
  lemma DoubledForms(t: Text, b: Byte, q: Byte)
    ensures Doubled(t + [b], q) == Doubled(t, q) + if b == q then [q, q] else [b]
    ensures Doubled([], q) == []
  {
    DoubledConcat(t, [b], q);
  }

  // ----- reading a quoted literal

  datatype Literal = NoLiteral | Literal(text: Text, rest: seq<Byte>)

  /** The body of a literal: a doubled quote is one quote, a single one ends it. */
  function Body(s: seq<Byte>, q: Byte): Literal
    decreases |s|
  {
    if s == [] then NoLiteral
    else if s[0] != q then
      match Body(s[1..], q)
      case NoLiteral => NoLiteral
      case Literal(text, rest) => Literal([s[0]] + text, rest)
    else if |s| > 1 && s[1] == q then
      match Body(s[2..], q)
      case NoLiteral => NoLiteral
      case Literal(text, rest) => Literal([q] + text, rest)
    else Literal([], s[1..])
  }

  function Unquote(s: seq<Byte>, q: Byte): Literal {
    if s == [] || s[0] != q then NoLiteral else Body(s[1..], q)
  }

  lemma BodyEnds(q: Byte, tail: seq<Byte>)
    requires tail == [] || tail[0] != q
    ensures Body(Doubled([], q) + [q] + tail, q) == Literal([], tail)
  {
    assert Doubled([], q) + [q] + tail == [q] + tail && ([q] + tail)[1..] == tail;
  }

  lemma DoubledStarts(t: Text, q: Byte, tail: seq<Byte>)
    requires t != []
    ensures Doubled(t, q) + tail == (if t[0] == q then [q, q] else [t[0]]) + (Doubled(t[1..], q) + tail)
    ensures t == [t[0]] + t[1..]
  {
    Assoc(if t[0] == q then [q, q] else [t[0]], Doubled(t[1..], q), tail);
  }

  /** A quoted text is read back as that text, and the reader stops right after it. */
  lemma {:induction false} BodyOfDoubled(t: Text, q: Byte, tail: seq<Byte>)
    requires tail == [] || tail[0] != q
    ensures Body(Doubled(t, q) + [q] + tail, q) == Literal(t, tail)
  {
    if t == [] {
      BodyEnds(q, tail);
    } else {
      hide Body, Doubled;
      BodyOfDoubled(t[1..], q, tail);
      DoubledStarts(t, q, [q] + tail);
      Assoc(Doubled(t, q), [q], tail);
      Assoc(Doubled(t[1..], q), [q], tail);
    }
  }

  lemma UnquoteQuoted(t: Text, q: Byte, tail: seq<Byte>)
    requires tail == [] || tail[0] != q
    ensures Unquote(Quoted(t, q) + tail, q) == Literal(t, tail)
  {
    BodyOfDoubled(t, q, tail);
    assert (Quoted(t, q) + tail)[1..] == Doubled(t, q) + [q] + tail;
  }

  // ----- the writers

  /** output_quoted_string: quote-free stretches are written whole. */
  method OutputQuotedString(z: Text) returns (out: seq<Byte>)
    ensures out == [39] + Doubled(z, 39) + [39]
  {
    var nSingle := CountByte(z, SINGLE);
    if nSingle == 0 {
      DoubledPlain(z, SINGLE);
      return [SINGLE] + z + [SINGLE];
    }
    hide Doubled;
    out := [SINGLE];
    var rest := z;
    while rest != []
      invariant out + Doubled(rest, SINGLE) == [SINGLE] + Doubled(z, SINGLE)
      decreases |rest|
    {
      var i := 0;
      while i < |rest| && rest[i] != SINGLE
        invariant 0 <= i <= |rest| && SINGLE !in rest[..i]
      {
        i := i + 1;
      }
      ghost var goal, was := [SINGLE] + Doubled(z, SINGLE), out;
      ChunkDoubled(rest, i);
      if i == 0 {
        out := out + [SINGLE, SINGLE];
        assert rest[..0] == [];
        rest := rest[1..];
        assert out + Doubled(rest, SINGLE) == was + ([SINGLE, SINGLE] + Doubled(rest, SINGLE));
      } else if i < |rest| {
        var chunk := rest[..i] + [SINGLE, SINGLE];
        out := out + chunk;
        rest := rest[i + 1..];
        assert out + Doubled(rest, SINGLE) == was + (chunk + Doubled(rest, SINGLE));
      } else {
        out := out + rest[..i];
        rest := [];
        break;
      }
    }
    DoubledPlain([], SINGLE);
    assert out + [] == out;
    out := out + [SINGLE];
  }

  /** What the doubling does with a quote-free stretch of length i and the quote after it. */
  lemma ChunkDoubled(rest: Text, i: nat)
    requires i <= |rest| && SINGLE !in rest[..i] && (i < |rest| ==> rest[i] == SINGLE)
    ensures Doubled(rest, SINGLE) == rest[..i] + if i < |rest| then [SINGLE, SINGLE] + Doubled(rest[i + 1..], SINGLE)
            else []
  {
    hide Doubled;
    var a, b := rest[..i], rest[i..];
    assert rest == a + b;
    DoubledPlain(a, SINGLE);
    DoubledConcat(a, b, SINGLE);
    if i < |rest| {
      assert b[0] == rest[i] && b[1..] == rest[i + 1..];
      HeadDoubled(b, SINGLE);
    } else {
      assert b == [];
      DoubledPlain(b, SINGLE);
    }
  }

  lemma HeadDoubled(s: Text, q: Byte)
    requires s != [] && s[0] == q
    ensures Doubled(s, q) == [q, q] + Doubled(s[1..], q)
  {
  }

  function CountOf(t: Text, q: Byte): nat {
    if t == [] then 0 else (if t[0] == q then 1 else 0) + CountOf(t[1..], q)
  }

  method CountByte(t: Text, q: Byte) returns (n: nat)
    ensures n == CountOf(t, q) && (n == 0 <==> q !in t) && |Doubled(t, q)| == |t| + n
  {
    n := 0;
    var i := 0;
    while i < |t|
      invariant 0 <= i <= |t| && n + CountOf(t[i..], q) == CountOf(t, q)
    {
      assert t[i..][1..] == t[i + 1..];
      if t[i] == q {
        n := n + 1;
      }
      i := i + 1;
    }
    LengthOfDoubled(t, q);
  }

  /** The first pass counts exactly what the second pass stores. */
  lemma {:induction false} LengthOfDoubled(t: Text, q: Byte)
    ensures |Doubled(t, q)| == |t| + CountOf(t, q) && (CountOf(t, q) == 0 <==> q !in t)
  {
    if t != [] { LengthOfDoubled(t[1..], q); }
  }

  /** One more byte of t doubled. */
  lemma DoubledStep(t: Text, i: nat, q: Byte)
    requires i <= |t|
    ensures Doubled(t[..0], q) == []
    ensures |Doubled(t[..i], q)| <= |Doubled(t, q)|
    ensures i < |t| ==> Doubled(t[..i + 1], q) == Doubled(t[..i], q) + if t[i] == q then [q, q] else [t[i]]
    ensures i < |t| ==> |Doubled(t[..i + 1], q)| <= |Doubled(t, q)|
  {
    assert Doubled(t[..0], q) == [];
    PrefixDoubled(t, i, q);
    if i < |t| {
      PrefixDoubled(t, i + 1, q);
      DoubledConcat(t[..i], [t[i]], q);
      assert t[..i] + [t[i]] == t[..i + 1];
    }
  }

  lemma PrefixDoubled(t: Text, i: nat, q: Byte)
    requires i <= |t|
    ensures |Doubled(t[..i], q)| <= |Doubled(t, q)|
  {
    DoubledConcat(t[..i], t[i..], q);
    assert t[..i] + t[i..] == t;
  }

  /** Stores t at offset at, quote bytes twice, and returns the offset after it. */
  method StoreDoubled(z: array<Byte>, at: nat, t: Text, q: Byte) returns (n: nat)
    requires at + |Doubled(t, q)| <= z.Length
    modifies z
    ensures n == at + |Doubled(t, q)|
    ensures z[..n] == old(z[..at]) + Doubled(t, q)
  {
    hide Doubled;
    ghost var front := z[..at];
    n := at;
    var i := 0;
    DoubledStep(t, 0, q);
    while i < |t|
      invariant 0 <= i <= |t| && n == at + |Doubled(t[..i], q)| <= z.Length
      invariant z[..n] == front + Doubled(t[..i], q)
    {
      DoubledStep(t, i, q);
      ghost var was := z[..n];
      z[n] := t[i];
      n := n + 1;
      assert z[..n] == was + [t[i]];
      if t[i] == q {
        z[n] := q;
        n := n + 1;
        assert z[..n] == was + [t[i]] + [q] == was + [q, q];
      }
      i := i + 1;
    }
    assert t[..i] == t;
  }

  /** realloc: the old text at the start of a buffer of len bytes. */
  method Reallocated(zIn: Text, len: nat) returns (z: array<Byte>)
    requires |zIn| < len
    ensures fresh(z) && z.Length == len && z[..|zIn|] == zIn
  {
    z := new Byte[len];
    forall i | 0 <= i < |zIn| {
      z[i] := zIn[i];
    }
  }

  /** appendText: zIn with zAppend after it, quoted unless quote is NUL; the buffer is exactly full. */
  method AppendText(zIn: Text, zAppend: Text, quote: Byte) returns (z: array<Byte>)
    ensures fresh(z) && z[..] == zIn + (if quote != 0 then Quoted(zAppend, quote) else zAppend) + [0]
  {
    hide Doubled, CountOf;
    var len := |zAppend| + |zIn| + 1;
    if quote != 0 {
      len := len + 2;
      var more := CountByte(zAppend, quote);
      len := len + more;
    }
    z := Reallocated(zIn, len);
    var n := |zIn|;
    if quote != 0 {
      n := PutByte(z, n, quote);
      n := StoreDoubled(z, n, zAppend, quote);
      n := PutByte(z, n, quote);
      QuotedText(zIn, zAppend, quote);
    } else {
      forall i | 0 <= i < |zAppend| {
        z[n + i] := zAppend[i];
      }
      n := n + |zAppend|;
      assert z[..n] == zIn + zAppend;
    }
    n := PutByte(z, n, 0);
    assert z[..n] == z[..];
  }

  lemma QuotedText(a: Text, t: Text, q: Byte)
    ensures a + [q] + Doubled(t, q) + [q] == a + Quoted(t, q)
  {
    hide Doubled;
    Assoc(a, [q], Doubled(t, q));
    Assoc(a, [q] + Doubled(t, q), [q]);
  }

  /** One byte at offset n; what is before it stays. */
  method PutByte(z: array<Byte>, n: nat, b: Byte) returns (next: nat)
    requires n < z.Length
    modifies z
    ensures next == n + 1 && z[..next] == old(z[..n]) + [b]
  {
    z[n] := b;
    next := n + 1;
  }

  predicate IsAlpha(b: Byte) {
    65 <= b <= 90 || 97 <= b <= 122
  }

  predicate IsAlnum(b: Byte) {
    IsAlpha(b) || 48 <= b <= 57
  }

  const UNDERSCORE: Byte := 95

  /** A table name that is not a plain identifier. */
  predicate NeedsQuote(name: Text) {
    name == [] || (!IsAlpha(name[0]) && name[0] != UNDERSCORE)
    || exists i :: 0 <= i < |name| && !IsAlnum(name[i]) && name[i] != UNDERSCORE
  }

  /** A name that needs no quotes: a letter or underscore, then letters, digits and underscores. */
  predicate PlainName(name: Text) {
    && name != [] && !(48 <= name[0] <= 57)
    && forall i :: 0 <= i < |name| ==>
         48 <= name[i] <= 57 || 65 <= name[i] <= 90 || 97 <= name[i] <= 122 || name[i] == 95
  }

  lemma NeedsQuoteIff(name: Text)
    ensures NeedsQuote(name) <==> !PlainName(name)
  {
    assert forall i :: 0 <= i < |name| ==>
      ((!IsAlnum(name[i]) && name[i] != UNDERSCORE)
       <==> !(48 <= name[i] <= 57 || 65 <= name[i] <= 90 || 97 <= name[i] <= 122 || name[i] == 95));
  }

  lemma PlainHasNoQuote(name: Text)
    requires !NeedsQuote(name)
    ensures SINGLE !in name && Doubled(name, SINGLE) == name
  {
    assert forall i :: 0 <= i < |name| ==> IsAlnum(name[i]) || name[i] == UNDERSCORE;
    DoubledPlain(name, SINGLE);
  }

  lemma CountStep(t: Text, i: nat, q: Byte)
    requires i < |t|
    ensures CountOf(t[i..], q) == (if t[i] == q then 1 else 0) + CountOf(t[i + 1..], q)
  {
    assert t[i..][1..] == t[i + 1..];
  }

  /** The first pass of set_table_name: whether to quote, and the bytes that will be stored between the quotes. */
  method MeasureName(zName: Text) returns (needQuote: bool, n: nat)
    ensures needQuote == NeedsQuote(zName) && n == |Doubled(zName, SINGLE)|
  {
    hide CountOf, Doubled;
    needQuote := if zName == [] then true else !IsAlpha(zName[0]) && zName[0] != UNDERSCORE;
    ghost var first := needQuote;
    var i := 0;
    n := 0;
    assert zName[0..] == zName;
    while i < |zName|
      invariant 0 <= i <= |zName|
      invariant n + CountOf(zName[i..], SINGLE) == i + CountOf(zName, SINGLE)
      invariant needQuote <==> first || exists k :: 0 <= k < i && !IsAlnum(zName[k]) && zName[k] != UNDERSCORE
    {
      CountStep(zName, i, SINGLE);
      if !IsAlnum(zName[i]) && zName[i] != UNDERSCORE {
        needQuote := true;
        if zName[i] == SINGLE {
          n := n + 1;
        }
      }
      i := i + 1;
      n := n + 1;
    }
    assert zName[i..] == [];
    LengthOfDoubled([], SINGLE);
    LengthOfDoubled(zName, SINGLE);
    DoubledPlain([], SINGLE);
  }

  /** set_table_name: the name as it is or quoted, in a buffer of exactly that length and a NUL. */
  method SetTableName(zName: Text) returns (z: array<Byte>)
    ensures fresh(z) && z[..] == (if NeedsQuote(zName) then Quoted(zName, SINGLE) else zName) + [0]
    ensures z[..] == (if PlainName(zName) then zName else [39] + Doubled(zName, 39) + [39]) + [0]
  {
    NeedsQuoteIff(zName);
    hide PlainName;
    hide Doubled, NeedsQuote;
    var needQuote, n := MeasureName(zName);
    if needQuote {
      n := n + 2;
    } else {
      PlainHasNoQuote(zName);
    }
    z := new Byte[n + 1];
    n := 0;
    if needQuote {
      z[n] := SINGLE;
      n := n + 1;
    }
    ghost var front := z[..n];
    n := StoreDoubled(z, n, zName, SINGLE);
    ghost var body := z[..n];
    if needQuote {
      z[n] := SINGLE;
      n := n + 1;
      assert z[..n] == body + [SINGLE];
    }
    ghost var whole := z[..n];
    z[n] := 0;
    assert z[..] == whole + [0];
    assert !needQuote ==> whole == [] + zName == zName;
  }
}
