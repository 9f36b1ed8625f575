// C string output, the in-place unescaper and the dot-command tokeniser of progs/shell.c.
module CStrings {
  import opened Bytes
  import opened Texts

  const BACKSLASH: Byte := 92
  const DQUOTE: Byte := 34
  const SQUOTE: Byte := 39

  // ----- printing

  /** The three octal digits of %03o. */
  function Octal(b: Byte): seq<Byte> {
    [48 + b / 64, 48 + b / 8 % 8, 48 + b % 8]
  }

  function EscapeByte(b: Byte, printable: set<Byte>): seq<Byte> {
    if b == BACKSLASH then [BACKSLASH, BACKSLASH]
    else if b == DQUOTE then [BACKSLASH, DQUOTE]
    else if b == 9 then [BACKSLASH, 116]
    else if b == 10 then [BACKSLASH, 110]
    else if b == 13 then [BACKSLASH, 114]
    else if b !in printable then [BACKSLASH] + Octal(b)
    else [b]
  }

  function Escape(t: Text, printable: set<Byte>): seq<Byte> {
    if t == [] then [] else EscapeByte(t[0], printable) + Escape(t[1..], printable)
  }

  /** A text as a C string literal. */
  function Printed(t: Text, printable: set<Byte>): seq<Byte> {
    [DQUOTE] + Escape(t, printable) + [DQUOTE]
  }

  lemma EscapeStep(t: Text, i: nat, printable: set<Byte>)
    requires i <= |t|
    ensures Escape(t[i..], printable) == if i == |t| then []
            else EscapeByte(t[i], printable) + Escape(t[i + 1..], printable)
  {
    hide EscapeByte;
    assert i < |t| ==> t[i..][1..] == t[i + 1..];
  }

  /** output_c_string: the text between double quotes, escaped. */
  method OutputCString(t: Text, printable: set<Byte>) returns (out: seq<Byte>)
    ensures out == [34] + Escape(t, printable) + [34] == Printed(t, printable)
  {
    hide Escape, EscapeByte;
    out := [DQUOTE];
    var i := 0;
    assert t[0..] == t;
    while i < |t|
      invariant 0 <= i <= |t|
      invariant out + Escape(t[i..], printable) == [DQUOTE] + Escape(t, printable)
    {
      EscapeStep(t, i, printable);
      Assoc(out, EscapeByte(t[i], printable), Escape(t[i + 1..], printable));
      out := out + EscapeByte(t[i], printable);
      i := i + 1;
    }
    EscapeStep(t, i, printable);
    assert out + [] == out;
    out := out + [DQUOTE];
  }

  /** How each byte is printed: a backslash before backslash and double quote, letters for tab, line
      feed and carriage return, three octal digits for what is not printable, else the byte. */
  lemma EscapeForms(b: Byte, printable: set<Byte>)
    ensures b == 92 ==> EscapeByte(b, printable) == [92, 92]
    ensures b == 34 ==> EscapeByte(b, printable) == [92, 34]
    ensures b == 9 ==> EscapeByte(b, printable) == [92, 116]
    ensures b == 10 ==> EscapeByte(b, printable) == [92, 110]
    ensures b == 13 ==> EscapeByte(b, printable) == [92, 114]
    ensures b !in [92, 34, 9, 10, 13] && b in printable ==> EscapeByte(b, printable) == [b]
    ensures b !in [92, 34, 9, 10, 13] && b !in printable ==>
              var e := EscapeByte(b, printable);
              && |e| == 4 && e[0] == 92 && (forall k :: 1 <= k < 4 ==> 48 <= e[k] <= 55)
              && 64 * (e[1] - 48) + 8 * (e[2] - 48) + (e[3] - 48) == b
  {
    OctalSum(b);
  }

  /** Texts are printed byte by byte, in order. */
  lemma {:induction false} EscapeJoins(a: Text, b: Text, printable: set<Byte>)
    ensures Escape(a + b, printable) == Escape(a, printable) + Escape(b, printable)
    ensures |a| == 1 ==> Escape(a, printable) == EscapeByte(a[0], printable)
  {
    hide EscapeByte;
    if a == [] {
      assert a + b == b;
    } else {
      assert (a + b)[1..] == a[1..] + b;
      EscapeJoins(a[1..], b, printable);
    }
  }

  // ----- unescaping

  predicate OctalDigit(s: seq<Byte>, i: nat) {
    i < |s| && 48 <= s[i] <= 55
  }

  /** What the escape at the front of s stands for, in eight bits. */
  function EscapeValue(s: seq<Byte>): Byte
    requires |s| >= 2
  {
    var c := s[1];
    if c == 97 then 7 else if c == 98 then 8 else if c == 116 then 9 else if c == 110 then 10
    else if c == 118 then 11 else if c == 102 then 12 else if c == 114 then 13
    else if !OctalDigit(s, 1) then c
    else if !OctalDigit(s, 2) then Digit(s, 1)
    else if !OctalDigit(s, 3) then Digit(s, 1) * 8 + Digit(s, 2)
    else (Digit(s, 1) * 64 + Digit(s, 2) * 8 + Digit(s, 3)) % 256
  }

  function Digit(s: seq<Byte>, i: nat): (d: nat)
    requires OctalDigit(s, i)
    ensures d <= 7
  {
    s[i] - 48
  }

  /** How many bytes that escape is. */
  function EscapeLength(s: seq<Byte>): (n: nat)
    requires |s| >= 2
    ensures 2 <= n <= 4 && n <= |s|
  {
    if OctalDigit(s, 1) && OctalDigit(s, 2) then if OctalDigit(s, 3) then 4 else 3 else 2
  }

  function Unescape(s: seq<Byte>): (r: Text)
    ensures |r| <= |s|
  {
    if s == [] then []
    else if s[0] == BACKSLASH && |s| > 1 then [EscapeValue(s)] + Unescape(s[EscapeLength(s)..])
    else [s[0]] + Unescape(s[1..])
  }

  /** An octal escape of three digits is the byte. */
  lemma OctalReads(b: Byte, tail: seq<Byte>)
    ensures var s := [BACKSLASH] + Octal(b) + tail;
            |s| >= 4 && EscapeLength(s) == 4 && EscapeValue(s) == b && s[4..] == tail && s[0] == BACKSLASH
  {
    var s := [BACKSLASH] + Octal(b) + tail;
    assert s[0] == BACKSLASH && s[1] == 48 + b / 64 && s[2] == 48 + b / 8 % 8 && s[3] == 48 + b % 8;
    OctalSum(b);
  }

  lemma OctalSum(b: Byte)
    ensures b / 64 <= 3 && b / 64 * 64 + b / 8 % 8 * 8 + b % 8 == b
  {
    assert b / 64 == b / 8 / 8 && b / 8 == b / 8 / 8 * 8 + b / 8 % 8;
  }

  lemma LetterReads(c: Byte, tail: seq<Byte>)
    requires !(48 <= c <= 55)
    ensures var s := [BACKSLASH, c] + tail; EscapeLength(s) == 2 && s[2..] == tail && s[0] == BACKSLASH && s[1] == c
  {
  }

  /** One printed byte is read back as itself, whatever follows it. */
  lemma UnescapeByte(b: Byte, tail: seq<Byte>, printable: set<Byte>)
    ensures Unescape(EscapeByte(b, printable) + tail) == [b] + Unescape(tail)
  {
    hide Unescape, Octal, EscapeLength;
    var e := EscapeByte(b, printable);
    UnescapeStep(e + tail);
    if e == [BACKSLASH] + Octal(b) {
      OctalReads(b, tail);
    } else if e == [b] {
      assert (e + tail)[1..] == tail;
    } else {
      LetterReads(e[1], tail);
    }
  }

  /** Unescaping undoes printing, for every text and every printability predicate. */
  lemma {:induction false} UnescapeEscape(t: Text, printable: set<Byte>)
    ensures Unescape(Escape(t, printable)) == t
  {
    if t != [] {
      UnescapeByte(t[0], Escape(t[1..], printable), printable);
      UnescapeEscape(t[1..], printable);
    }
  }

  lemma UnescapeStep(s: seq<Byte>)
    ensures s == [] ==> Unescape(s) == []
    ensures s != [] && !(s[0] == BACKSLASH && |s| > 1) ==> Unescape(s) == [s[0]] + Unescape(s[1..])
    ensures s != [] && s[0] == BACKSLASH && |s| > 1 ==> Unescape(s) == [EscapeValue(s)] + Unescape(s[EscapeLength(s)..])
  {
  }

  /** What an escape of one letter stands for; any other byte but a digit 0 to 7 stands for itself. */
  lemma LetterMeans(c: Byte, tail: seq<Byte>)
    requires !(48 <= c <= 55)
    ensures var u := Unescape([92, c] + tail);
            if c == 97 then u == [7] + Unescape(tail)
            else if c == 98 then u == [8] + Unescape(tail)
            else if c == 116 then u == [9] + Unescape(tail)
            else if c == 110 then u == [10] + Unescape(tail)
            else if c == 118 then u == [11] + Unescape(tail)
            else if c == 102 then u == [12] + Unescape(tail)
            else if c == 114 then u == [13] + Unescape(tail)
            else u == [c] + Unescape(tail)
  {
    hide Unescape;
    UnescapeStep([92, c] + tail);
    LetterReads(c, tail);
  }

  /** One octal digit, if no more follow. */
  lemma OneOctalMeans(x: Byte, tail: seq<Byte>)
    requires x <= 7 && (tail == [] || !(48 <= tail[0] <= 55))
    ensures Unescape([92, 48 + x] + tail) == [x] + Unescape(tail)
  {
    hide Unescape;
    var s := [92, 48 + x] + tail;
    UnescapeStep(s);
    assert s[2..] == tail;
  }

  /** Two octal digits, if no third follows. */
  lemma TwoOctalMeans(x: Byte, y: Byte, tail: seq<Byte>)
    requires x <= 7 && y <= 7 && (tail == [] || !(48 <= tail[0] <= 55))
    ensures Unescape([92, 48 + x, 48 + y] + tail) == [8 * x + y] + Unescape(tail)
  {
    hide Unescape;
    var s := [92, 48 + x, 48 + y] + tail;
    UnescapeStep(s);
    assert s[3..] == tail;
  }

  /** Three octal digits whatever follows, in eight bits. */
  lemma ThreeOctalMeans(x: Byte, y: Byte, z: Byte, tail: seq<Byte>)
    requires x <= 7 && y <= 7 && z <= 7
    ensures Unescape([92, 48 + x, 48 + y, 48 + z] + tail) == [(64 * x + 8 * y + z) % 256] + Unescape(tail)
  {
    hide Unescape, EscapeValue, EscapeLength;
    var s := [92, 48 + x, 48 + y, 48 + z] + tail;
    ThreeDigits(s, x, y, z);
    UnescapeStep(s);
    assert s[4..] == tail;
  }

  lemma ThreeDigits(s: seq<Byte>, x: Byte, y: Byte, z: Byte)
    requires |s| >= 4 && x <= 7 && y <= 7 && z <= 7 && s[1] == 48 + x && s[2] == 48 + y && s[3] == 48 + z
    ensures EscapeLength(s) == 4 && EscapeValue(s) == (64 * x + 8 * y + z) % 256
  {
    assert Digit(s, 1) == x && Digit(s, 2) == y && Digit(s, 3) == z;
  }

  /** A backslash at the end and every other byte stand for themselves. */
  lemma PlainMeans(b: Byte, tail: seq<Byte>)
    requires b != 92 || tail == []
    ensures Unescape([b] + tail) == [b] + Unescape(tail)
  {
    hide Unescape;
    UnescapeStep([b] + tail);
    assert ([b] + tail)[1..] == tail;
  }

  /** Bytes from i on are still the original ones, those before j are resolved. */
  ghost predicate Resolved(now: seq<Byte>, was: seq<Byte>, start: nat, e: nat, i: nat, j: nat) {
    && |now| == |was| && start <= j <= i <= e < |was| && was[e] == 0 && 0 !in was[start..e]
    && (forall k :: 0 <= k < start || i <= k < |was| ==> now[k] == was[k])
    && Unescape(was[start..e]) == now[start..j] + Unescape(was[i..e])
  }

  lemma {:induction false} ResolvedStart(was: seq<Byte>, start: nat, e: nat, p: nat)
    requires start <= p <= e < |was| && was[e] == 0 && 0 !in was[start..e]
    requires forall k :: start <= k < p ==> was[k] != BACKSLASH
    ensures Resolved(was, was, start, e, p, p)
  {
    hide Unescape;
    if p > start {
      ResolvedStart(was, start, e, p - 1);
      var before, s := was[start..p - 1], was[p - 1..e];
      UnescapeStep(s);
      assert s[0] == was[p - 1] && s[1..] == was[p..e] && was[start..p] == before + [was[p - 1]];
      assert before + ([was[p - 1]] + Unescape(was[p..e])) == before + [was[p - 1]] + Unescape(was[p..e]);
    } else {
      assert was[start..p] == [];
    }
  }

  /** One more byte or escape resolved. */
  lemma ResolvedStep(now: seq<Byte>, was: seq<Byte>, start: nat, e: nat, i: nat, j: nat, c: Byte, n: nat)
    requires Resolved(now, was, start, e, i, j) && i < e
    requires var s := was[i..e];
             if s[0] == BACKSLASH && |s| > 1 then c == EscapeValue(s) && n == EscapeLength(s) else c == s[0] && n == 1
    ensures Resolved(now[j := c], was, start, e, i + n, j + 1)
  {
    hide Unescape;
    UnescapeStep(was[i..e]);
    assert was[i..e][n..] == was[i + n..e];
    var now' := now[j := c];
    assert now'[start..j + 1] == now[start..j] + [c];
    assert now[start..j] + ([c] + Unescape(was[i + n..e])) == now[start..j] + [c] + Unescape(was[i + n..e]);
  }

  lemma ResolvedMeans(now: seq<Byte>, was: seq<Byte>, start: nat, e: nat, i: nat, j: nat)
    requires Resolved(now, was, start, e, i, j)
    ensures |now| == |was| && start <= j <= i <= e < |was| && now[i..e] == was[i..e] && now[e] == 0 && 0 !in now[i..e]
    ensures i < e ==> now[i] != 0 && (now[i + 1] == 0 <==> i + 1 == e)
  {
    assert forall k :: i <= k < e ==> was[k] in was[start..e] by {
      assert forall k :: i <= k < e ==> was[k] == was[start..e][k - start];
    }
  }

  lemma ResolvedEnd(now: seq<Byte>, was: seq<Byte>, start: nat, e: nat, i: nat, j: nat)
    requires Resolved(now, was, start, e, i, j) && i == e
    ensures var u, z := Unescape(was[start..e]), now[j := 0];
            && z[start..start + |u|] == u && z[start + |u|] == 0 && z[..start] == was[..start] && z[e..] == was[e..]
  {
    assert was[i..e] == [] && now[start..j] + [] == now[start..j];
    assert now[j := 0][start..j] == now[start..j];
  }

  /** resolve_backslashes in place on the C string at start..e: the write index
      never passes the read index, and nothing outside the string changes. */
  method ResolveBackslashes(z: array<Byte>, start: nat, ghost e: nat)
    requires start <= e < z.Length && z[e] == 0 && 0 !in z[start..e]
    modifies z
    ensures var u := Unescape(old(z[start..e]));
            && z[start..start + |u|] == u && z[start + |u|] == 0
    ensures z[..start] == old(z[..start]) && z[e..] == old(z[e..])
  {
    hide Unescape, EscapeValue, EscapeLength, Resolved;
    ghost var was := z[..];
    assert was[start..e] == z[start..e];
    var p := start;
    while z[p] != 0 && z[p] != BACKSLASH
      invariant start <= p <= e && z[..] == was
      invariant forall k :: start <= k < p ==> was[k] != BACKSLASH
      decreases e - p
    {
      p := p + 1;
    }
    ResolvedStart(was, start, e, p);
    var i, j := p, p;
    ResolvedMeans(z[..], was, start, e, i, j);
    while z[i] != 0
      invariant start <= j <= i <= e && Resolved(z[..], was, start, e, i, j)
      decreases e - i
    {
      ResolvedMeans(z[..], was, start, e, i, j);
      ghost var now, i0 := z[..], i;
      assert z[i..e] == now[i..e] == was[i..e];
      assert i < e;
      var c: Byte := z[i];
      if c == BACKSLASH && z[i + 1] != 0 {
        i, c := ReadEscape(z, i, e);
      }
      ResolvedStep(now, was, start, e, i0, j, c, i + 1 - i0);
      z[j] := c;
      assert z[..] == now[j := c];
      i := i + 1;
      j := j + 1;
      ResolvedMeans(z[..], was, start, e, i, j);
    }
    ResolvedMeans(z[..], was, start, e, i, j);
    ghost var now := z[..];
    if j < i {
      z[j] := 0;
    }
    assert z[..] == now[j := 0];
    ResolvedEnd(now, was, start, e, i, j);
  }

  lemma DigitAt(z: seq<Byte>, i0: nat, e: nat, k: nat)
    requires i0 + k <= e < |z| && z[e] == 0
    ensures OctalDigit(z[i0..e], k) <==> 48 <= z[i0 + k] <= 55
    ensures OctalDigit(z[i0..e], k) ==> i0 + k < e && Digit(z[i0..e], k) == z[i0 + k] - 48
  {
    assert i0 + k < e ==> z[i0..e][k] == z[i0 + k];
  }

  /** Decodes one escape; the new index is that of its last byte. */
  method ReadEscape(z: array<Byte>, i0: nat, ghost e: nat) returns (i: nat, c: Byte)
    requires i0 + 1 < e < z.Length && z[e] == 0 && 0 !in z[i0..e] && z[i0] == BACKSLASH
    ensures i == i0 + EscapeLength(z[i0..e]) - 1 && c == EscapeValue(z[i0..e])
  {
    hide OctalDigit, Digit;
    assert z[i0..e][1] == z[i0 + 1] && z[..][i0..e] == z[i0..e];
    DigitAt(z[..], i0, e, 1);
    i := i0 + 1;
    c := z[i];
    if c == 97 {
      c := 7;
    } else if c == 98 {
      c := 8;
    } else if c == 116 {
      c := 9;
    } else if c == 110 {
      c := 10;
    } else if c == 118 {
      c := 11;
    } else if c == 102 {
      c := 12;
    } else if c == 114 {
      c := 13;
    } else if 48 <= c <= 55 {
      i, c := ReadOctal(z, i0, e);
    }
  }

  /** The octal case: up to three digits, in eight bits. */
  method ReadOctal(z: array<Byte>, i0: nat, ghost e: nat) returns (i: nat, c: Byte)
    requires i0 + 1 < e < z.Length && z[e] == 0 && 48 <= z[i0 + 1] <= 55
    ensures i == i0 + EscapeLength(z[i0..e]) - 1 && c == EscapeValue(z[i0..e])
  {
    hide OctalDigit, Digit;
    ghost var s := z[..];
    assert s[i0..e] == z[i0..e] && s[i0..e][1] == s[i0 + 1];
    DigitAt(s, i0, e, 1);
    DigitAt(s, i0, e, 2);
    i := i0 + 1;
    var value: nat := z[i] - 48;
    if 48 <= z[i + 1] <= 55 {
      DigitAt(s, i0, e, 3);
      i := i + 1;
      value := value * 8 + (z[i] - 48);
      if 48 <= z[i + 1] <= 55 {
        i := i + 1;
        value := value * 8 + (z[i] - 48);
      }
    }
    c := value % 256;
  }
}
