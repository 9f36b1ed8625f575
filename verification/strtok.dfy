// util.c: the in-place tokeniser that path resolution rests on.
module Strtok {
  import opened Bytes

  const SLASH: seq<Byte> := [47]

  /** How many leading bytes of s are delimiters. */
  function Skip(s: seq<Byte>, delim: seq<Byte>): (n: nat)
    ensures n <= |s| && (forall k :: 0 <= k < n ==> s[k] in delim) && (n < |s| ==> s[n] !in delim)
  {
    if s == [] || s[0] !in delim then 0 else 1 + Skip(s[1..], delim)
  }

  /** How many leading bytes of s are not delimiters. */
  function Span(s: seq<Byte>, delim: seq<Byte>): (n: nat)
    ensures n <= |s| && (forall k :: 0 <= k < n ==> s[k] !in delim) && (n < |s| ==> s[n] in delim)
  {
    if s == [] || s[0] in delim then 0 else 1 + Span(s[1..], delim)
  }

  /** The maximal delimiter-free pieces of s, in order. */
  function Tokens(s: seq<Byte>, delim: seq<Byte>): seq<seq<Byte>>
    decreases |s|
  {
    var a := Skip(s, delim);
    if a == |s| then [] else
      var n := Span(s[a..], delim);
      [s[a..a + n]] + Tokens(s[a + n..], delim)
  }

  lemma {:induction false} SkipIs(s: seq<Byte>, delim: seq<Byte>, n: nat)
    requires n <= |s| && (forall k :: 0 <= k < n ==> s[k] in delim) && (n < |s| ==> s[n] !in delim)
    ensures Skip(s, delim) == n
  {
    assert n > 0 ==> s[0] in delim;
    assert Skip(s, delim) > 0 ==> s[0] in delim;
    if n > 0 { SkipIs(s[1..], delim, n - 1); }
  }

  lemma {:induction false} SpanIs(s: seq<Byte>, delim: seq<Byte>, n: nat)
    requires n <= |s| && (forall k :: 0 <= k < n ==> s[k] !in delim) && (n < |s| ==> s[n] in delim)
    ensures Span(s, delim) == n
  {
    if n > 0 { SpanIs(s[1..], delim, n - 1); }
  }

  lemma {:induction false} TokensStep(s: seq<Byte>, delim: seq<Byte>, a: nat, n: nat)
    requires a < |s| && (forall k :: 0 <= k < a ==> s[k] in delim) && 0 < n <= |s| - a
    requires (forall k :: a <= k < a + n ==> s[k] !in delim) && (a + n < |s| ==> s[a + n] in delim)
    ensures Tokens(s, delim) == [s[a..a + n]] + Tokens(s[a + n..], delim)
  {
    hide Tokens, Skip, Span;
    SkipIs(s, delim, a);
    TokensUnfold(s, delim);
  }

  lemma TokensUnfold(s: seq<Byte>, delim: seq<Byte>)
    requires Skip(s, delim) < |s|
    ensures var a := Skip(s, delim);
            var n := Span(s[a..], delim);
            Tokens(s, delim) == [s[a..a + n]] + Tokens(s[a + n..], delim)
  {
    hide Skip, Span;
  }

  lemma {:induction false} TokensOfDelimiters(s: seq<Byte>, delim: seq<Byte>)
    requires forall k :: 0 <= k < |s| ==> s[k] in delim
    ensures Tokens(s, delim) == []
  {
    SkipIs(s, delim, |s|);
  }

  /** A delimiter at the front separates nothing. */
  lemma {:induction false} TokensSkipFront(s: seq<Byte>, delim: seq<Byte>)
    requires s != [] && s[0] in delim
    ensures Tokens(s, delim) == Tokens(s[1..], delim)
  {
    hide Tokens;
    var a, t := Skip(s, delim), s[1..];
    assert forall k :: 0 <= k < |t| ==> t[k] == s[k + 1];
    if a == |s| {
      TokensOfDelimiters(s, delim);
      TokensOfDelimiters(t, delim);
    } else {
      var n := Span(s[a..], delim);
      assert forall k :: 0 <= k < |s| - a ==> s[a..][k] == s[a + k];
      assert forall k :: a <= k < a + n ==> s[k] == s[a..][k - a];
      TokensStep(s, delim, a, n);
      TokensStep(t, delim, a - 1, n);
      assert t[a - 1..a - 1 + n] == s[a..a + n];
      assert t[a - 1 + n..] == s[a + n..];
    }
  }

  predicate Component(name: seq<Byte>, delim: seq<Byte>) {
    name != [] && forall k :: 0 <= k < |name| ==> name[k] !in delim
  }

  /** Every component with the delimiter in front. */
  function Joined(names: seq<seq<Byte>>, d: Byte): seq<Byte> {
    if names == [] then [] else [d] + names[0] + Joined(names[1..], d)
  }

  /** One component in front of a rest that starts with the delimiter. */
  lemma TokensOfComponent(name: seq<Byte>, rest: seq<Byte>, d: Byte)
    requires Component(name, [d]) && (rest != [] ==> rest[0] == d)
    ensures Tokens([d] + name + rest, [d]) == [name] + Tokens(rest, [d])
  {
    hide Tokens, Skip, Span;
    var s, n := [d] + name + rest, |name|;
    assert s[1..1 + n] == name && s[1 + n..] == rest;
    forall k | 1 <= k < 1 + n ensures s[k] !in [d] {
      assert s[k] == name[k - 1];
    }
    assert s[0] == d && (1 + n < |s| ==> s[1 + n] == rest[0]);
    TokensStep(s, [d], 1, n);
  }

  /** Splitting a written path gives back its components. */
  lemma {:induction false} TokensOfJoined(names: seq<seq<Byte>>, d: Byte)
    requires forall k :: 0 <= k < |names| ==> Component(names[k], [d])
    ensures Tokens(Joined(names, d), [d]) == names
  {
    if names == [] {
    } else {
      hide Tokens, Component;
      var rest := Joined(names[1..], d);
      TokensOfJoined(names[1..], d);
      assert Component(names[0], [d]);
      TokensOfComponent(names[0], rest, d);
      assert names == [names[0]] + names[1..];
    }
  }

  /** A token has no delimiter in it and is not empty. */
  lemma {:induction false} TokensAreComponents(s: seq<Byte>, delim: seq<Byte>)
    ensures forall k :: 0 <= k < |Tokens(s, delim)| ==> Component(Tokens(s, delim)[k], delim)
    decreases |s|
  {
    hide Tokens, Skip, Span;
    var a := Skip(s, delim);
    if a < |s| {
      TokensUnfold(s, delim);
      var n := Span(s[a..], delim);
      TokensAreComponents(s[a + n..], delim);
      hide Component;
      var tokens, rest := Tokens(s, delim), Tokens(s[a + n..], delim);
      forall k | 0 <= k < |tokens| ensures Component(tokens[k], delim) {
        assert k > 0 ==> tokens[k] == rest[k - 1];
      }
    } else {
      TokensOfDelimiters(s, delim);
    }
  }

  /** The buffer holds a C string that starts at from and ends at z. */
  ghost predicate StringAt(s: seq<Byte>, from: int, z: int) {
    0 <= from <= z < |s| && s[z] == 0 && forall k :: from <= k < z ==> s[k] != 0
  }

  lemma {:induction false} StringAtIs(s: seq<Byte>, from: nat, z: nat)
    requires StringAt(s, from, z)
    ensures CString(s[from..]) == s[from..z]
  {
    CStringIs(s[from..], s[from..z]);
  }

  /** Cutting the string at e, just after a token that starts at tok. */
  lemma {:induction false} CutToken(s: seq<Byte>, delim: seq<Byte>, start: nat, tok: nat, e: nat, z: nat)
    requires start <= tok < e <= z && StringAt(s, start, z)
    requires (forall k :: start <= k < tok ==> s[k] in delim) && (forall k :: tok <= k < e ==> s[k] !in delim)
    requires e < z ==> s[e] in delim
    ensures var tokens, s' := Tokens(s[start..z], delim), s[e := 0];
            && tokens != [] && tokens[0] == s[tok..e] == s'[tok..e] && StringAt(s', tok, e)
            && (e == z ==> |tokens| == 1)
            && (e < z ==> StringAt(s', e + 1, z) && Tokens(s'[e + 1..z], delim) == tokens[1..])
  {
    hide Tokens, Skip, Span;
    var text, s' := s[start..z], s[e := 0];
    assert forall k :: 0 <= k < |text| ==> text[k] == s[start + k];
    TokensStep(text, delim, tok - start, e - tok);
    assert text[tok - start..e - start] == s[tok..e] == s'[tok..e];
    if e < z {
      assert text[e - start..] == s[e..z];
      TokensSkipFront(s[e..z], delim);
      assert s[e..z][1..] == s'[e + 1..z];
    } else {
      assert text[e - start..] == [];
      TokensOfDelimiters([], delim);
    }
  }

  /** What strtok_r leaves after cutting the first token of the string start..z. */
  ghost predicate TokenCut(was: seq<Byte>, now: seq<Byte>, start: nat, z: nat, delim: seq<Byte>, tok: int, last: int) {
    z <= |was| && start <= z &&
    var tokens := Tokens(was[start..z], delim);
    if tokens == [] then tok == -1 && last == -1 && now == was
    else
      var e := tok + |tokens[0]|;
      && start <= tok < z && e <= z && |now| == |was| && (forall k :: start <= k < tok ==> was[k] in delim)
      && StringAt(now, tok, e) && now[tok..e] == tokens[0] == was[tok..e]
      && (last == -1 ==> e == z && |tokens| == 1 && now == was)
      && (last != -1 ==> last == e + 1 && StringAt(now, last, z) && Tokens(now[last..z], delim) == tokens[1..]
                         && now == was[e := 0])
  }

  /** The token that starts at tok ends at e: either the string ends there or a delimiter is overwritten. */
  lemma TokenIsCut(was: seq<Byte>, start: nat, z: nat, delim: seq<Byte>, tok: nat, e: nat)
    requires StringAt(was, start, z) && start <= tok < e <= z
    requires (forall k :: start <= k < tok ==> was[k] in delim) && (forall k :: tok <= k < e ==> was[k] !in delim)
    requires e < z ==> was[e] in delim
    ensures TokenCut(was, was[e := 0], start, z, delim, tok, if e < z then e + 1 else -1)
  {
    hide Tokens;
    CutToken(was, delim, start, tok, e, z);
    if e == z {
      assert was[e := 0] == was;
    }
  }

  /** strtok_r. A null pointer is -1. The next token is cut off in place; last is
      where the following call goes on. z is the end of the string, a ghost. */
  method StrtokR(buffer: array<Byte>, str: int, delim: seq<Byte>, saved: int, ghost z: int)
    returns (tok: int, last: int)
    requires 0 !in delim
    requires var s := if str < 0 then saved else str; s >= 0 ==> StringAt(buffer[..], s, z)
    modifies buffer
    ensures var s := if str < 0 then saved else str;
            if s < 0 then tok == -1 && last == -1 && buffer[..] == old(buffer[..])
            else TokenCut(old(buffer[..]), buffer[..], s, z, delim, tok, last)
  {
    hide Tokens, Skip, Span, TokenCut;
    var s := str;
    if s < 0 {
      s := saved;
      if s < 0 {
        return -1, -1;
      }
    }
    ghost var start, was := s, buffer[..];
    var c := buffer[s];
    s := s + 1;
    while c in delim
      invariant start < s <= z + 1 && c == was[s - 1] && buffer[..] == was
      invariant forall k :: start <= k < s - 1 ==> was[k] in delim
      decreases z + 1 - s
    {
      c := buffer[s];
      s := s + 1;
    }
    if c == 0 {
      NoToken(was, start, z, delim);
      return -1, -1;
    }
    tok := s - 1;
    while true
      invariant tok < s <= z && buffer[..] == was
      invariant forall k :: tok <= k < s ==> was[k] !in delim
      decreases z - s
    {
      c := buffer[s];
      s := s + 1;
      if c == 0 {
        TokenIsCut(was, start, z, delim, tok, s - 1);
        assert was[s - 1 := 0] == was;
        return tok, -1;
      } else if c in delim {
        TokenIsCut(was, start, z, delim, tok, s - 1);
        buffer[s - 1] := 0;
        assert buffer[..] == was[s - 1 := 0];
        return tok, s;
      }
    }
  }

  lemma NoToken(was: seq<Byte>, start: nat, z: nat, delim: seq<Byte>)
    requires start <= z <= |was| && forall k :: start <= k < z ==> was[k] in delim
    ensures TokenCut(was, was, start, z, delim, -1, -1)
  {
    TokensOfDelimiters(was[start..z], delim);
  }
}
