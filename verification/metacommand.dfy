// The token loop of do_meta_command, and the round trip from a Tcl-mode row to its arguments.
module MetaCommand {
  import opened Bytes
  import opened Texts
  import opened CStrings

  const MAX_ARGS: nat := 50

  predicate IsSpace(b: Byte) {
    b == 32 || 9 <= b <= 13
  }

  function Spaces(s: seq<Byte>): (n: nat)
    ensures n <= |s| && (forall k :: 0 <= k < n ==> IsSpace(s[k])) && (n < |s| ==> !IsSpace(s[n]))
  {
    if s == [] || !IsSpace(s[0]) then 0 else 1 + Spaces(s[1..])
  }

  function Word(s: seq<Byte>): (n: nat)
    ensures n <= |s| && (forall k :: 0 <= k < n ==> !IsSpace(s[k])) && (n < |s| ==> IsSpace(s[n]))
  {
    if s == [] || IsSpace(s[0]) then 0 else 1 + Word(s[1..])
  }

  /** Length of a quoted argument's raw text; a backslash protects the next byte in double quotes. */
  function QuotedLength(s: seq<Byte>, delim: Byte): (n: nat)
    ensures n <= |s| && (n < |s| ==> s[n] == delim)
  {
    if s == [] || s[0] == delim then 0
    else if s[0] == BACKSLASH && delim == DQUOTE && |s| > 1 then 2 + QuotedLength(s[2..], delim)
    else 1 + QuotedLength(s[1..], delim)
  }

  predicate IsQuote(b: Byte) {
    b == SQUOTE || b == DQUOTE
  }

  /** The raw extent of the first argument of s (no leading space): where it starts and how long it is. */
  function Skipped(s: seq<Byte>): nat
    requires s != [] && !IsSpace(s[0])
  {
    if IsQuote(s[0]) then 1 else 0
  }

  function RawLength(s: seq<Byte>): (n: nat)
    requires s != [] && !IsSpace(s[0])
    ensures Skipped(s) + n <= |s| && Skipped(s) + n > 0
  {
    if IsQuote(s[0]) then QuotedLength(s[1..], s[0]) else Word(s)
  }

  /** The argument's value as the C string the command code sees. */
  function ArgValue(s: seq<Byte>): Text
    requires s != [] && !IsSpace(s[0])
  {
    var raw := s[Skipped(s)..Skipped(s) + RawLength(s)];
    CString(if s[0] == SQUOTE then raw else Unescape(raw))
  }

  /** What is left after the argument and the byte that ends it. */
  function AfterArg(s: seq<Byte>): (r: seq<Byte>)
    requires s != [] && !IsSpace(s[0])
    ensures |r| < |s|
  {
    var e := Skipped(s) + RawLength(s);
    if e < |s| then s[e + 1..] else []
  }

  /** The arguments of a command line after its first byte, at most max. */
  function Args(s: seq<Byte>, max: nat): seq<Text>
    decreases max
  {
    var t := s[Spaces(s)..];
    if max == 0 || t == [] then [] else [ArgValue(t)] + Args(AfterArg(t), max - 1)
  }

  // ----- the loop on the line buffer

  /** The C string at a is t; its NUL is at e. */
  ghost predicate ArgAt(s: seq<Byte>, a: nat, e: nat, t: Text) {
    a <= e < |s| && s[e] == 0 && CString(s[a..e + 1]) == t
  }

  /** Every argument found so far is in place, in front of h. */
  ghost predicate ArgsAt(s: seq<Byte>, azArg: seq<nat>, ends: seq<nat>, got: seq<Text>, h: nat, z: nat) {
    && |azArg| == |ends| == |got| && h <= z < |s|
    && forall k :: 0 <= k < |azArg| ==> ArgAt(s, azArg[k], ends[k], got[k]) && ends[k] <= h && (h < z ==> ends[k] < h)
  }

  lemma ArgsKept(s: seq<Byte>, s': seq<Byte>, azArg: seq<nat>, ends: seq<nat>, got: seq<Text>, h: nat, h': nat, z: nat)
    requires ArgsAt(s, azArg, ends, got, h, z) && h < z && |s'| == |s| && h <= h' <= z
    requires forall k :: 0 <= k < h ==> s'[k] == s[k]
    ensures ArgsAt(s', azArg, ends, got, h', z)
  {
    forall k | 0 <= k < |azArg| ensures ArgAt(s', azArg[k], ends[k], got[k]) && ends[k] < h {
      assert ArgAt(s, azArg[k], ends[k], got[k]);
      assert s'[azArg[k]..ends[k] + 1] == s[azArg[k]..ends[k] + 1];
    }
  }

  lemma {:induction false} CStringCut(s: seq<Byte>, u: seq<Byte>)
    requires |u| < |s| && s[..|u|] == u && s[|u|] == 0
    ensures CString(s) == CString(u)
  {
    if u != [] {
      assert s[1..][..|u| - 1] == u[1..];
      if u[0] != 0 { CStringCut(s[1..], u[1..]); }
    }
  }

  /** The raw text ends at e with a NUL, unescaped or not: the argument is in place. */
  lemma ArgInPlace(s: seq<Byte>, arg: nat, e: nat, u: seq<Byte>)
    requires arg <= e < |s| && s[e] == 0 && |u| <= e - arg && s[arg..arg + |u|] == u && s[arg + |u|] == 0
    ensures ArgAt(s, arg, e, CString(u))
  {
    var t := s[arg..e + 1];
    assert t[..|u|] == s[arg..arg + |u|];
    CStringCut(t, u);
  }

  /** Ends a raw argument with a NUL and unescapes it. */
  method CutArg(zLine: array<Byte>, arg: nat, e: nat, unescape: bool, ghost z: nat) returns (h: nat)
    requires arg <= e <= z < zLine.Length && zLine[z] == 0 && 0 !in zLine[arg..z]
    modifies zLine
    ensures h == if e < z then e + 1 else z
    ensures var raw := old(zLine[arg..e]);
            ArgAt(zLine[..], arg, e, CString(if unescape then Unescape(raw) else raw))
    ensures zLine[..arg] == old(zLine[..arg]) && zLine[h..] == old(zLine[h..]) && zLine[z] == 0
  {
    hide Unescape, ArgAt, CString;
    ghost var raw, was := zLine[arg..e], zLine[..];
    h := e;
    assert e < z ==> zLine[e] == zLine[arg..z][e - arg];
    if zLine[h] != 0 {
      zLine[h] := 0;
      h := h + 1;
    }
    ghost var mid := zLine[..];
    assert zLine[arg..e] == raw && mid[..arg] == was[..arg] && mid[h..] == was[h..] && mid[e] == 0;
    assert 0 !in raw by { assert forall k :: 0 <= k < |raw| ==> raw[k] == was[arg..z][k]; }
    if unescape {
      ResolveBackslashes(zLine, arg, e);
      CutHolds(mid, zLine[..], arg, e, h, Unescape(raw));
      ArgInPlace(zLine[..], arg, e, Unescape(raw));
    } else {
      assert zLine[..][arg..arg + |raw|] == raw;
      ArgInPlace(zLine[..], arg, e, raw);
    }
  }

  lemma CutHolds(mid: seq<Byte>, now: seq<Byte>, arg: nat, e: nat, h: nat, u: seq<Byte>)
    requires |now| == |mid| && arg <= e <= h <= |mid| && e < |mid| && mid[e] == 0 && |u| <= e - arg
    requires now[..arg] == mid[..arg] && now[e..] == mid[e..]
    ensures now[h..] == mid[h..] && now[e] == 0
  {
    assert now[h..] == now[e..][h - e..] && mid[h..] == mid[e..][h - e..];
    assert now[e] == now[e..][0] && mid[e] == mid[e..][0];
  }

  lemma QuotedStep(s: seq<Byte>, delim: Byte)
    requires s != [] && s[0] != delim
    ensures var n := if s[0] == BACKSLASH && delim == DQUOTE && |s| > 1 then 2 else 1;
            QuotedLength(s, delim) == n + QuotedLength(s[n..], delim)
  {
  }

  /** The extent of a quoted argument whose text starts at h0. */
  method ScanQuoted(zLine: array<Byte>, h0: nat, delim: Byte, ghost z: nat) returns (h: nat)
    requires h0 <= z < zLine.Length && zLine[z] == 0 && 0 !in zLine[h0..z] && delim != 0
    ensures h == h0 + QuotedLength(zLine[h0..z], delim) && h <= z
  {
    hide QuotedLength;
    h := h0;
    while zLine[h] != 0 && zLine[h] != delim
      invariant h0 <= h <= z
      invariant QuotedLength(zLine[h0..z], delim) == h - h0 + QuotedLength(zLine[h..z], delim)
      decreases z - h
    {
      ghost var s, at := zLine[h..z], h;
      assert h + 1 < z ==> zLine[h + 1] == zLine[h0..z][h + 1 - h0];
      QuotedStep(s, delim);
      if zLine[h] == BACKSLASH && delim == DQUOTE && zLine[h + 1] != 0 {
        h := h + 1;
      }
      h := h + 1;
      assert s[h - at..] == zLine[h..z];
    }
    assert h < z ==> zLine[h] == zLine[h0..z][h - h0];
    QuotedEnds(zLine[h..z], delim);
  }

  lemma QuotedEnds(s: seq<Byte>, delim: Byte)
    requires s == [] || s[0] == delim
    ensures QuotedLength(s, delim) == 0
  {
  }

  /** The extent of a bare word that starts at h0. */
  method ScanWord(zLine: array<Byte>, h0: nat, ghost z: nat) returns (h: nat)
    requires h0 <= z < zLine.Length && zLine[z] == 0 && 0 !in zLine[h0..z]
    ensures h == h0 + Word(zLine[h0..z]) && h <= z
  {
    h := h0;
    while zLine[h] != 0 && !IsSpace(zLine[h])
      invariant h0 <= h <= z
      invariant Word(zLine[h0..z]) == h - h0 + Word(zLine[h..z])
      decreases z - h
    {
      assert zLine[h..z][1..] == zLine[h + 1..z];
      h := h + 1;
    }
    assert h < z ==> zLine[h] == zLine[h0..z][h - h0];
  }

  lemma TailKept(now: seq<Byte>, was: seq<Byte>, h0: nat, h: nat, z: nat)
    requires |now| == |was| && h0 <= h <= z <= |now| && now[h..] == was[h..]
    ensures now[h..z] == was[h..z] == was[h0..z][h - h0..]
  {
    assert now[h..z] == now[h..][..z - h] && was[h..z] == was[h..][..z - h];
  }

  /** The quote case: the text starts after the quote. */
  method TakeQuoted(zLine: array<Byte>, h0: nat, ghost z: nat) returns (arg: nat, h: nat, ghost e: nat)
    requires h0 < z < zLine.Length && zLine[z] == 0 && 0 !in zLine[h0..z] && IsQuote(zLine[h0])
    modifies zLine
    ensures h0 < h <= z && e <= h && (h < z ==> e < h)
    ensures ArgAt(zLine[..], arg, e, ArgValue(old(zLine[h0..z]))) && zLine[h..z] == AfterArg(old(zLine[h0..z]))
    ensures zLine[..h0] == old(zLine[..h0]) && zLine[z] == 0
  {
    hide Unescape, QuotedLength, Word, ArgAt;
    ghost var s, was := zLine[h0..z], zLine[..];
    var delim := zLine[h0];
    arg := h0 + 1;
    assert s[0] == delim && Skipped(s) == 1 && RawLength(s) == QuotedLength(s[1..], delim);
    assert zLine[arg..z] == s[1..];
    h := ScanQuoted(zLine, arg, delim, z);
    e := h;
    assert zLine[arg..e] == s[1..1 + RawLength(s)];
    h := CutArg(zLine, arg, h, delim == DQUOTE, z);
    TailKept(zLine[..], was, h0, h, z);
    assert zLine[..h0] == zLine[..arg][..h0];
  }

  /** The bare word case. */
  method TakeWord(zLine: array<Byte>, h0: nat, ghost z: nat) returns (h: nat, ghost e: nat)
    requires h0 < z < zLine.Length && zLine[z] == 0 && 0 !in zLine[h0..z] && !IsSpace(zLine[h0]) && !IsQuote(zLine[h0])
    modifies zLine
    ensures h0 < h <= z && e <= h && (h < z ==> e < h)
    ensures ArgAt(zLine[..], h0, e, ArgValue(old(zLine[h0..z]))) && zLine[h..z] == AfterArg(old(zLine[h0..z]))
    ensures zLine[..h0] == old(zLine[..h0]) && zLine[z] == 0
  {
    hide Unescape, QuotedLength, Word, ArgAt;
    ghost var s, was := zLine[h0..z], zLine[..];
    h := ScanWord(zLine, h0, z);
    e := h;
    assert zLine[h0..e] == s[0..RawLength(s)];
    h := CutArg(zLine, h0, h, true, z);
    TailKept(zLine[..], was, h0, h, z);
  }

  lemma AfterArgIsTail(s: seq<Byte>)
    requires s != [] && !IsSpace(s[0])
    ensures AfterArg(s) == s[|s| - |AfterArg(s)|..]
  {
    hide RawLength;
  }

  /** One argument that starts at h0: found, cut off and unescaped in place. */
  method TakeArg(zLine: array<Byte>, h0: nat, ghost z: nat) returns (arg: nat, h: nat, ghost e: nat)
    requires h0 < z < zLine.Length && zLine[z] == 0 && 0 !in zLine[h0..z] && !IsSpace(zLine[h0])
    modifies zLine
    ensures h0 < h <= z && e <= h && (h < z ==> e < h)
    ensures ArgAt(zLine[..], arg, e, ArgValue(old(zLine[h0..z]))) && zLine[h..z] == AfterArg(old(zLine[h0..z]))
    ensures zLine[..h0] == old(zLine[..h0]) && zLine[z] == 0 && 0 !in zLine[h..z]
  {
    hide ArgValue, ArgAt, AfterArg;
    ghost var s := zLine[h0..z];
    if IsQuote(zLine[h0]) {
      arg, h, e := TakeQuoted(zLine, h0, z);
    } else {
      arg := h0;
      h, e := TakeWord(zLine, h0, z);
    }
    AfterArgIsTail(s);
  }

  lemma ArgsAdd(s: seq<Byte>, azArg: seq<nat>, ends: seq<nat>, got: seq<Text>, h: nat, z: nat, arg: nat, e: nat,
                t: Text)
    requires ArgsAt(s, azArg, ends, got, h, z) && ArgAt(s, arg, e, t) && e <= h && (h < z ==> e < h)
    ensures ArgsAt(s, azArg + [arg], ends + [e], got + [t], h, z)
  {
  }

  lemma ArgsAreStrings(s: seq<Byte>, azArg: seq<nat>, ends: seq<nat>, got: seq<Text>, h: nat, z: nat, k: nat)
    requires ArgsAt(s, azArg, ends, got, h, z) && k < |azArg|
    ensures |azArg| == |got| && azArg[k] < |s| && CString(s[azArg[k]..]) == got[k]
  {
    assert ArgAt(s, azArg[k], ends[k], got[k]);
  }

  /** The token loop at index h: what is found so far and what the rest of the line s still holds. */
  ghost predicate Splitting(now: seq<Byte>, s: seq<Byte>, azArg: seq<nat>, ends: seq<nat>, got: seq<Text>, h: nat,
                            z: nat) {
    && 1 <= h <= z < |now| && now[z] == 0 && 0 !in now[h..z] && |azArg| <= MAX_ARGS
    && ArgsAt(now, azArg, ends, got, h, z)
    && got + Args(now[h..z], MAX_ARGS - |azArg|) == Args(s, MAX_ARGS)
  }

  lemma SplitStarts(now: seq<Byte>, z: nat)
    requires 1 <= z < |now| && now[z] == 0 && 0 !in now[1..z]
    ensures Splitting(now, now[1..z], [], [], [], 1, z)
  {
    hide Args;
    assert [] + Args(now[1..z], MAX_ARGS) == Args(now[1..z], MAX_ARGS);
  }

  lemma SplittingMeans(now: seq<Byte>, s: seq<Byte>, azArg: seq<nat>, ends: seq<nat>, got: seq<Text>, h: nat, z: nat)
    requires Splitting(now, s, azArg, ends, got, h, z)
    ensures 1 <= h <= z < |now| && now[z] == 0 && 0 !in now[h..z] && |azArg| == |got| <= MAX_ARGS
    ensures now[h] == 0 <==> h == z
    ensures forall k :: 0 <= k < |azArg| ==> azArg[k] < |now| && CString(now[azArg[k]..]) == got[k]
    ensures h == z || |azArg| == MAX_ARGS ==> got == Args(s, MAX_ARGS)
  {
    hide Args, ArgAt, CString;
    assert h < z ==> now[h] == now[h..z][0];
    forall k | 0 <= k < |azArg| ensures azArg[k] < |now| && CString(now[azArg[k]..]) == got[k] {
      ArgsAreStrings(now, azArg, ends, got, h, z, k);
    }
    ArgsStep(now[h..z], MAX_ARGS - |azArg|);
    assert got + [] == got;
  }

  /** Spaces are skipped. */
  lemma SplitSkips(now: seq<Byte>, s: seq<Byte>, azArg: seq<nat>, ends: seq<nat>, got: seq<Text>, h: nat, z: nat,
                   h2: nat)
    requires Splitting(now, s, azArg, ends, got, h, z)
    requires h2 == h + Spaces(now[h..z]) && h2 <= z && now[h2..z] == now[h..z][h2 - h..] && 0 !in now[h2..z]
    ensures Splitting(now, s, azArg, ends, got, h2, z)
  {
    hide Args, ArgAt, ArgValue, AfterArg, Spaces, ArgsAt, IsSpace;
    ArgsAfterSpaces(now[h..z], MAX_ARGS - |azArg|);
    if h < z {
      ArgsKept(now, now, azArg, ends, got, h, h2, z);
    }
  }

  lemma ArgsAfterSpaces(t: seq<Byte>, max: nat)
    ensures Args(t[Spaces(t)..], max) == Args(t, max)
  {
    hide Args, ArgValue, AfterArg, Spaces;
    ArgsStep(t, max);
    ArgsStep(t[Spaces(t)..], max);
  }

  /** One more argument is cut off. */
  lemma SplitTakes(was: seq<Byte>, now: seq<Byte>, s: seq<Byte>, azArg: seq<nat>, ends: seq<nat>, got: seq<Text>,
                   h0: nat, z: nat, arg: nat, h: nat, e: nat)
    requires Splitting(was, s, azArg, ends, got, h0, z) && h0 < z && |azArg| < MAX_ARGS && |now| == |was|
    requires was[h0..z] != [] && !IsSpace(was[h0..z][0])
    requires h0 < h <= z && e <= h && (h < z ==> e < h) && now[..h0] == was[..h0] && now[z] == 0 && 0 !in now[h..z]
    requires ArgAt(now, arg, e, ArgValue(was[h0..z])) && now[h..z] == AfterArg(was[h0..z])
    ensures Splitting(now, s, azArg + [arg], ends + [e], got + [ArgValue(was[h0..z])], h, z)
  {
    hide Args, ArgAt, ArgValue, AfterArg, ArgsAt;
    var u, left := was[h0..z], MAX_ARGS - |azArg|;
    assert forall k :: 0 <= k < h0 ==> now[k] == now[..h0][k] && was[k] == was[..h0][k];
    ArgsKept(was, now, azArg, ends, got, h0, h, z);
    ArgsAdd(now, azArg, ends, got, h, z, arg, e, ArgValue(u));
    ArgsStep(u, left);
    var rest := Args(now[h..z], left - 1);
    assert got + ([ArgValue(u)] + rest) == got + [ArgValue(u)] + rest;
  }

  /** The token loop: the arguments of the line, as C strings inside the line buffer. */
  method SplitLine(zLine: array<Byte>, ghost z: nat) returns (azArg: seq<nat>, ghost got: seq<Text>)
    requires 1 <= z < zLine.Length && zLine[z] == 0 && 0 !in zLine[1..z]
    modifies zLine
    ensures got == Args(old(zLine[1..z]), 50) && |azArg| == |got| <= 50
    ensures forall k :: 0 <= k < |azArg| ==> azArg[k] < zLine.Length && CString(zLine[azArg[k]..]) == got[k]
  {
    hide ArgValue, AfterArg, Spaces, Args, ArgAt, ArgsAt, Splitting, CString;
    var h := 1;
    azArg, got := [], [];
    ghost var ends: seq<nat>, s := [], zLine[1..z];
    assert zLine[..][1..z] == s;
    SplitStarts(zLine[..], z);
    SplittingMeans(zLine[..], s, azArg, ends, got, h, z);
    while zLine[h] != 0 && |azArg| < MAX_ARGS
      invariant 1 <= h <= z && Splitting(zLine[..], s, azArg, ends, got, h, z)
      decreases z - h
    {
      ghost var now, h1 := zLine[..], h;
      SplittingMeans(now, s, azArg, ends, got, h, z);
      assert now[h..z] == zLine[h..z];
      h := SkipSpaces(zLine, h, z);
      assert zLine[..][h..z] == zLine[h..z];
      SplitSkips(now, s, azArg, ends, got, h1, z, h);
      if zLine[h] == 0 {
        break;
      }
      ghost var h0 := h;
      ghost var e;
      var arg;
      arg, h, e := TakeArg(zLine, h, z);
      assert zLine[..][h..z] == zLine[h..z] && zLine[..][..h0] == zLine[..h0];
      SplitTakes(now, zLine[..], s, azArg, ends, got, h0, z, arg, h, e);
      got := got + [ArgValue(now[h0..z])];
      azArg := azArg + [arg];
      ends := ends + [e];
    }
    SplittingMeans(zLine[..], s, azArg, ends, got, h, z);
    assert forall k :: 0 <= k < |azArg| ==> zLine[..][azArg[k]..] == zLine[azArg[k]..];
  }

  method SkipSpaces(zLine: array<Byte>, h0: nat, ghost z: nat) returns (h: nat)
    requires h0 <= z < zLine.Length && zLine[z] == 0 && 0 !in zLine[h0..z]
    ensures h == h0 + Spaces(zLine[h0..z]) && h <= z && zLine[h..z] == zLine[h0..z][h - h0..] && 0 !in zLine[h..z]
    ensures zLine[h] == 0 <==> h == z
    ensures h < z ==> !IsSpace(zLine[h])
  {
    h := h0;
    while IsSpace(zLine[h])
      invariant h0 <= h <= z
      invariant Spaces(zLine[h0..z]) == h - h0 + Spaces(zLine[h..z])
      decreases z - h
    {
      assert zLine[h..z][1..] == zLine[h + 1..z];
      h := h + 1;
    }
    assert h < z ==> zLine[h] == zLine[h0..z][h - h0];
  }

  lemma ArgsStep(s: seq<Byte>, max: nat)
    ensures s == [] || max == 0 || s[Spaces(s)..] == [] ==> Args(s, max) == []
    ensures var t := s[Spaces(s)..];
            max > 0 && t != [] ==> !IsSpace(t[0]) && Args(s, max) == [ArgValue(t)] + Args(AfterArg(t), max - 1)
  {
  }

  // ----- command lines, written argument by argument

  /** One argument as it can be written on a command line. */
  datatype Written =
    | Bare(text: seq<Byte>)
    | Single(text: seq<Byte>)
    | Double(text: seq<Byte>)

  predicate Blank(b: Byte) {
    b == 32 || b == 9 || b == 10 || b == 11 || b == 12 || b == 13
  }

  /** A bare word has no blank and does not start with a quote; in single quotes stands no single quote;
      in double quotes every double quote and the last byte are protected by a backslash before them. */
  predicate CanStand(w: Written) {
    match w
    case Bare(t) => t != [] && t[0] != 39 && t[0] != 34 && forall k :: 0 <= k < |t| ==> !Blank(t[k])
    case Single(t) => 39 !in t
    case Double(t) => Protected(t)
  }

  predicate Protected(t: seq<Byte>) {
    t == [] || (t[0] == 92 && |t| >= 2 && Protected(t[2..])) || (t[0] != 92 && t[0] != 34 && Protected(t[1..]))
  }

  function OnLine(w: Written): seq<Byte> {
    match w
    case Bare(t) => t
    case Single(t) => [39] + t + [39]
    case Double(t) => [34] + t + [34]
  }

  /** What the command sees: text in single quotes as it is, other text with its escapes resolved. */
  function Seen(w: Written): Text {
    match w
    case Bare(t) => CString(Unescape(t))
    case Single(t) => CString(t)
    case Double(t) => CString(Unescape(t))
  }

  lemma BlankIsSpace(b: Byte)
    ensures Blank(b) <==> IsSpace(b)
  {
  }

  lemma {:induction false} WordIs(t: seq<Byte>, tail: seq<Byte>)
    requires (forall k :: 0 <= k < |t| ==> !Blank(t[k])) && (tail == [] || Blank(tail[0]))
    ensures Word(t + tail) == |t|
  {
    if t == [] {
      assert t + tail == tail;
    } else {
      assert (t + tail)[1..] == t[1..] + tail;
      WordIs(t[1..], tail);
    }
  }

  lemma {:induction false} SingleIs(t: seq<Byte>, tail: seq<Byte>)
    requires 39 !in t
    ensures QuotedLength(t + [39] + tail, 39) == |t|
  {
    var s := t + [39] + tail;
    if t != [] {
      assert s[0] == t[0] && t[0] in t && s[1..] == t[1..] + [39] + tail;
      SingleIs(t[1..], tail);
    }
  }

  lemma {:induction false} DoubleIs(t: seq<Byte>, tail: seq<Byte>)
    requires Protected(t)
    ensures QuotedLength(t + [34] + tail, 34) == |t|
    decreases |t|
  {
    var s := t + [34] + tail;
    if t == [] {
    } else if t[0] == 92 {
      assert s[2..] == t[2..] + [34] + tail;
      DoubleIs(t[2..], tail);
      QuotedStep(s, 34);
    } else {
      assert s[1..] == t[1..] + [34] + tail;
      DoubleIs(t[1..], tail);
      QuotedStep(s, 34);
    }
  }

  /** A quoted argument: what is between the quotes, and the line after the closing one. */
  lemma QuotedArg(q: Byte, t: seq<Byte>, tail: seq<Byte>)
    requires (q == 39 || q == 34) && QuotedLength(t + [q] + tail, q) == |t|
    ensures var s := [q] + t + [q] + tail;
            !IsSpace(s[0]) && ArgValue(s) == CString(if q == 39 then t else Unescape(t)) && AfterArg(s) == tail
  {
    hide Unescape, QuotedLength, CString, Word;
    var s := [q] + t + [q] + tail;
    assert s[1..] == t + [q] + tail;
    assert s[1..1 + |t|] == t && s[1 + |t| + 1..] == tail;
  }

  lemma BareArg(t: seq<Byte>, tail: seq<Byte>)
    requires CanStand(Bare(t)) && (tail == [] || Blank(tail[0]))
    ensures var s := t + tail;
            !IsSpace(s[0]) && ArgValue(s) == CString(Unescape(t)) && AfterArg(s) == if tail == [] then [] else tail[1..]
  {
    WordIs(t, tail);
    hide Unescape, QuotedLength, CString, Word;
    var s := t + tail;
    assert s[0] == t[0] && s[..|t|] == t && s[|t|..] == tail;
    assert tail != [] ==> s[|t| + 1..] == tail[1..];
  }

  /** The line of the given arguments, gap between them and in front. */
  function Line(ws: seq<Written>, gap: seq<Byte>): seq<Byte> {
    if ws == [] then [] else gap + OnLine(ws[0]) + Line(ws[1..], gap)
  }

  function AllSeen(ws: seq<Written>): (r: seq<Text>)
    ensures |r| == |ws|
  {
    seq(|ws|, k requires 0 <= k < |ws| => Seen(ws[k]))
  }

  /** The first argument of a line, with the blank after it if there is one. */
  lemma FirstWritten(w: Written, tail: seq<Byte>)
    requires CanStand(w) && (tail == [] || Blank(tail[0]))
    ensures var s := OnLine(w) + tail;
            s != [] && !IsSpace(s[0]) && ArgValue(s) == Seen(w)
            && (AfterArg(s) == tail || (tail != [] && AfterArg(s) == tail[1..]))
  {
    hide ArgValue, AfterArg, Unescape, CString;
    match w {
      case Bare(t) => BareArg(t, tail);
      case Single(t) =>
        SingleIs(t, tail);
        QuotedArg(39, t, tail);
      case Double(t) =>
        DoubleIs(t, tail);
        QuotedArg(34, t, tail);
    }
  }

  /** A line of at most 50 arguments, each with blanks before it, splits into what was written. */
  lemma {:induction false} LineSplitsIntoArgs(lead: seq<Byte>, ws: seq<Written>, gap: seq<Byte>, max: nat)
    requires (forall k :: 0 <= k < |gap| ==> Blank(gap[k])) && gap != [] && |ws| <= max
    requires (forall k :: 0 <= k < |lead| ==> Blank(lead[k])) && (forall k :: 0 <= k < |ws| ==> CanStand(ws[k]))
    ensures Args(lead + Line(ws, gap), max) == AllSeen(ws)
    decreases |ws|, 0
  {
    hide Args, ArgValue, AfterArg, OnLine, Seen, CanStand, IsSpace;
    BlanksAreSpace(lead);
    BlanksAreSpace(gap);
    if ws == [] {
      assert lead + [] == lead;
      BlankLine(lead, max);
    } else {
      assert CanStand(ws[0]);
      var tail := Line(ws[1..], gap);
      var u := OnLine(ws[0]) + tail;
      LineStarts(ws[1..], gap);
      FirstWritten(ws[0], tail);
      assert lead + (gap + OnLine(ws[0]) + tail) == lead + gap + u;
      BlanksAreSpace(lead + gap);
      SpacesOver(lead + gap, u);
      assert (lead + gap + u)[|lead + gap|..] == u;
      ArgsStep(lead + gap + u, max);
      AfterSplits(ws[1..], gap, AfterArg(u), max - 1);
      assert AllSeen(ws) == [Seen(ws[0])] + AllSeen(ws[1..]);
    }
  }

  /** What follows an argument, with or without its first blank, splits into the other arguments. */
  lemma {:induction false} AfterSplits(ws: seq<Written>, gap: seq<Byte>, after: seq<Byte>, max: nat)
    requires (forall k :: 0 <= k < |gap| ==> Blank(gap[k])) && gap != [] && |ws| <= max
    requires forall k :: 0 <= k < |ws| ==> CanStand(ws[k])
    requires after == Line(ws, gap) || (Line(ws, gap) != [] && after == Line(ws, gap)[1..])
    ensures Args(after, max) == AllSeen(ws)
    decreases |ws|, 1
  {
    hide Args, ArgValue, AfterArg, OnLine, Seen, CanStand, IsSpace;
    if after == Line(ws, gap) {
      assert [] + after == after;
      LineSplitsIntoArgs([], ws, gap, max);
    } else {
      ShorterGap(ws, gap, after, max);
    }
  }

  lemma {:induction false} ShorterGap(ws: seq<Written>, gap: seq<Byte>, after: seq<Byte>, max: nat)
    requires (forall k :: 0 <= k < |gap| ==> Blank(gap[k])) && gap != [] && |ws| <= max
    requires forall k :: 0 <= k < |ws| ==> CanStand(ws[k])
    requires Line(ws, gap) != [] && after == Line(ws, gap)[1..]
    ensures Args(after, max) == AllSeen(ws)
    decreases |ws|, 0
  {
    hide Args, ArgValue, AfterArg, OnLine, Seen, CanStand, IsSpace;
    assert CanStand(ws[0]);
    var tail, less := Line(ws[1..], gap), gap[1..];
    var u := OnLine(ws[0]) + tail;
    BlanksAreSpace(less);
    LineStarts(ws[1..], gap);
    FirstWritten(ws[0], tail);
    assert Line(ws, gap) == gap + u && after == less + u;
    SpacesOver(less, u);
    assert (less + u)[|less|..] == u;
    ArgsStep(less + u, max);
    AfterSplits(ws[1..], gap, AfterArg(u), max - 1);
    assert AllSeen(ws) == [Seen(ws[0])] + AllSeen(ws[1..]);
  }

  lemma BlanksAreSpace(w: seq<Byte>)
    requires forall k :: 0 <= k < |w| ==> Blank(w[k])
    ensures AllSpace(w)
  {
  }

  lemma LineStarts(ws: seq<Written>, gap: seq<Byte>)
    requires gap != [] && Blank(gap[0])
    ensures Line(ws, gap) == [] || Blank(Line(ws, gap)[0])
  {
    hide OnLine;
  }

  // ----- a printed row, split again

  /** A row in Tcl mode: every field as a C string, the column separator between them. */
  function TclFields(fields: seq<Text>, printable: set<Byte>, colSep: seq<Byte>): seq<Byte> {
    if fields == [] then []
    else if |fields| == 1 then Printed(fields[0], printable)
    else Printed(fields[0], printable) + colSep + TclFields(fields[1..], printable, colSep)
  }

  predicate AllSpace(s: seq<Byte>) {
    forall k :: 0 <= k < |s| ==> IsSpace(s[k])
  }

  /** Between two parts of a row stands one separator. */
  lemma {:induction false} TclJoins(a: seq<Text>, b: seq<Text>, printable: set<Byte>, colSep: seq<Byte>)
    requires a != [] && b != []
    ensures TclFields(a + b, printable, colSep)
            == TclFields(a, printable, colSep) + colSep + TclFields(b, printable, colSep)
    ensures |a| == 1 ==> TclFields(a, printable, colSep) == [34] + Escape(a[0], printable) + [34]
    decreases |a|
  {
    hide Escape;
    assert (a + b)[1..] == a[1..] + b;
    if |a| == 1 {
      assert a[1..] + b == b;
    } else {
      TclJoins(a[1..], b, printable, colSep);
      hide Printed;
      var one, rest, last := Printed(a[0], printable), TclFields(a[1..], printable, colSep),
        TclFields(b, printable, colSep);
      Assoc(one + colSep, rest, colSep);
      Assoc(one + colSep, rest + colSep, last);
    }
  }

  lemma {:induction false} QuotedLengthOfEscape(t: Text, printable: set<Byte>, tail: seq<Byte>)
    ensures QuotedLength(Escape(t, printable) + [DQUOTE] + tail, DQUOTE) == |Escape(t, printable)|
  {
    var s := Escape(t, printable) + [DQUOTE] + tail;
    if t == [] {
    } else {
      var e, rest := EscapeByte(t[0], printable), Escape(t[1..], printable) + [DQUOTE] + tail;
      assert s == e + rest;
      QuotedLengthOfEscape(t[1..], printable, tail);
      QuotedLengthOverByte(t[0], printable, rest);
    }
  }

  lemma QuotedLengthOverByte(b: Byte, printable: set<Byte>, rest: seq<Byte>)
    ensures QuotedLength(EscapeByte(b, printable) + rest, DQUOTE)
            == |EscapeByte(b, printable)| + QuotedLength(rest, DQUOTE)
  {
    hide QuotedLength;
    var e := EscapeByte(b, printable);
    var s := e + rest;
    QuotedStep(s, DQUOTE);
    if |e| == 4 {
      assert s[2..] == [e[2], e[3]] + rest;
      QuotedStep(s[2..], DQUOTE);
      assert s[2..][1..] == [e[3]] + rest;
      QuotedStep(s[2..][1..], DQUOTE);
      assert s[2..][1..][1..] == rest;
    } else {
      assert s[|e|..] == rest;
    }
  }

  lemma {:induction false} SpacesOver(a: seq<Byte>, b: seq<Byte>)
    requires AllSpace(a) && (b == [] || !IsSpace(b[0]))
    ensures Spaces(a + b) == |a|
  {
    if a == [] {
      assert a + b == b;
    } else {
      assert (a + b)[1..] == a[1..] + b;
      SpacesOver(a[1..], b);
    }
  }

  /** One printed field is one argument, and the rest of the line is left. */
  lemma ArgOfField(t: Text, printable: set<Byte>, tail: seq<Byte>)
    requires 0 !in t
    ensures var s := Printed(t, printable) + tail; ArgValue(s) == t && AfterArg(s) == tail
  {
    hide Escape, Unescape, QuotedLength, CString, Word;
    var raw := Escape(t, printable);
    var s := [DQUOTE] + raw + [DQUOTE] + tail;
    assert s[1..] == raw + [DQUOTE] + tail;
    QuotedLengthOfEscape(t, printable, tail);
    assert RawLength(s) == |raw|;
    assert s[1..1 + |raw|] == raw && s[1 + |raw| + 1..] == tail;
    UnescapeEscape(t, printable);
    CStringOfNulFree(t);
  }

  /** What follows the first field of a row on its line. */
  function AfterField(fields: seq<Text>, printable: set<Byte>, colSep: seq<Byte>, rowSep: seq<Byte>): seq<Byte>
    requires fields != []
  {
    if |fields| == 1 then rowSep else colSep + TclFields(fields[1..], printable, colSep) + rowSep
  }

  lemma LineSplits(lead: seq<Byte>, fields: seq<Text>, printable: set<Byte>, colSep: seq<Byte>, rowSep: seq<Byte>)
    requires fields != []
    ensures lead + TclFields(fields, printable, colSep) + rowSep
            == lead + (Printed(fields[0], printable) + AfterField(fields, printable, colSep, rowSep))
  {
    TclUnfold(fields, printable, colSep);
    hide Printed, TclFields;
    var first := Printed(fields[0], printable);
    if |fields| == 1 {
      Assoc(lead, first, rowSep);
    } else {
      var rest := TclFields(fields[1..], printable, colSep);
      Assoc(lead, first + colSep + rest, rowSep);
      Assoc(first + colSep, rest, rowSep);
      Assoc(first, colSep, rest + rowSep);
      Assoc(colSep, rest, rowSep);
    }
  }

  lemma TclUnfold(fields: seq<Text>, printable: set<Byte>, colSep: seq<Byte>)
    requires fields != []
    ensures |fields| == 1 ==> TclFields(fields, printable, colSep) == Printed(fields[0], printable)
                              && TclFields(fields[1..], printable, colSep) == []
    ensures |fields| > 1 ==>
              TclFields(fields, printable, colSep)
                == Printed(fields[0], printable) + colSep + TclFields(fields[1..], printable, colSep)
  {
    hide Printed;
  }

  lemma NulFreeParts(fields: seq<Text>)
    requires NulFree(fields) && fields != []
    ensures 0 !in fields[0] && NulFree(fields[1..])
  {
  }

  /** After blanks, the arguments of a printed row's line are its fields. */
  lemma {:induction false} LineArgs(lead: seq<Byte>, fields: seq<Text>, printable: set<Byte>, colSep: seq<Byte>,
                                    rowSep: seq<Byte>, max: nat)
    requires AllSpace(lead) && AllSpace(colSep) && AllSpace(rowSep) && |fields| <= max && NulFree(fields)
    ensures Args(lead + TclFields(fields, printable, colSep) + rowSep, max) == fields
    decreases |fields|
  {
    hide Args, TclFields, Printed, AllSpace, NulFree, AfterField;
    if fields == [] {
      NoFields(lead, printable, colSep, rowSep);
      BlankLine(lead + rowSep, max);
    } else {
      LineSplits(lead, fields, printable, colSep, rowSep);
      NulFreeParts(fields);
      var tail := AfterField(fields, printable, colSep, rowSep);
      FirstArg(lead, fields[0], printable, tail, max);
      LaterFields(fields, printable, colSep, rowSep);
      if |fields| == 1 {
        BlankLine(rowSep, max - 1);
      } else {
        LineArgs(colSep, fields[1..], printable, colSep, rowSep, max - 1);
      }
      assert fields == [fields[0]] + fields[1..];
    }
  }

  lemma NoFields(lead: seq<Byte>, printable: set<Byte>, colSep: seq<Byte>, rowSep: seq<Byte>)
    requires AllSpace(lead) && AllSpace(rowSep)
    ensures lead + TclFields([], printable, colSep) + rowSep == lead + rowSep && AllSpace(lead + rowSep)
  {
  }

  lemma LaterFields(fields: seq<Text>, printable: set<Byte>, colSep: seq<Byte>, rowSep: seq<Byte>)
    requires fields != []
    ensures |fields| == 1 ==> AfterField(fields, printable, colSep, rowSep) == rowSep && fields[1..] == []
    ensures |fields| > 1 ==> AfterField(fields, printable, colSep, rowSep)
                             == colSep + TclFields(fields[1..], printable, colSep) + rowSep
  {
  }

  /** Printing a row in Tcl mode with blank separators and splitting the line gives the row back. */
  lemma RowRoundTrip(fields: seq<Text>, printable: set<Byte>, colSep: seq<Byte>, rowSep: seq<Byte>)
    requires AllSpace(colSep) && AllSpace(rowSep) && |fields| <= 50 && NulFree(fields)
    ensures Args(TclFields(fields, printable, colSep) + rowSep, 50) == fields
  {
    hide Args, TclFields, NulFree;
    assert [] + TclFields(fields, printable, colSep) == TclFields(fields, printable, colSep);
    LineArgs([], fields, printable, colSep, rowSep, MAX_ARGS);
  }

  lemma BlankLine(s: seq<Byte>, max: nat)
    requires AllSpace(s)
    ensures Args(s, max) == []
  {
    SpacesOver(s, []);
    assert s + [] == s;
    ArgsStep(s, max);
  }

  /** A printed field after blanks is the first argument of the line. */
  lemma FirstArg(lead: seq<Byte>, t: Text, printable: set<Byte>, tail: seq<Byte>, max: nat)
    requires AllSpace(lead) && 0 !in t && max > 0
    ensures Args(lead + (Printed(t, printable) + tail), max) == [t] + Args(tail, max - 1)
  {
    var u := Printed(t, printable) + tail;
    hide Args, ArgValue, AfterArg, Escape;
    SpacesOver(lead, u);
    assert (lead + u)[|lead|..] == u;
    ArgsStep(lead + u, max);
    ArgOfField(t, printable, tail);
  }

  /** One line of C strings. */
  method OutputTclRow(fields: seq<Text>, printable: set<Byte>, colSep: seq<Byte>, rowSep: seq<Byte>)
    returns (out: seq<Byte>)
    ensures out == TclFields(fields, printable, colSep) + rowSep
  {
    hide Printed;
    out := [];
    var i := 0;
    assert fields[0..] == fields;
    while i < |fields|
      invariant 0 <= i <= |fields|
      invariant out + TclFields(fields[i..], printable, colSep) == TclFields(fields, printable, colSep)
    {
      TclStep(fields[i..], printable, colSep, out);
      assert fields[i..][1..] == fields[i + 1..];
      var field := OutputCString(fields[i], printable);
      out := out + field;
      if i < |fields| - 1 {
        out := out + colSep;
      }
      i := i + 1;
    }
    assert fields[i..] == [];
    assert out == out + TclFields(fields[i..], printable, colSep);
    out := out + rowSep;
  }

  lemma TclStep(fields: seq<Text>, printable: set<Byte>, colSep: seq<Byte>, out: seq<Byte>)
    requires fields != []
    ensures var cell, rest := Printed(fields[0], printable), TclFields(fields[1..], printable, colSep);
            (if |fields| > 1 then out + cell + colSep + rest else out + cell + rest)
              == out + TclFields(fields, printable, colSep)
  {
    TclUnfold(fields, printable, colSep);
    hide Printed, TclFields;
    var cell, rest := Printed(fields[0], printable), TclFields(fields[1..], printable, colSep);
    if |fields| > 1 {
      Assoc(out, cell, colSep);
      Assoc(out, cell + colSep, rest);
    } else {
      assert out + cell + [] == out + cell;
    }
  }

  /** The Tcl case of shell_callback: the titles if this is the first row and they are
      wanted, then the row, NULL as the null text; no row at all is None. */
  method TclRow(azCol: seq<Option<Text>>, azArg: Option<seq<Option<Text>>>, header: bool, printable: set<Byte>,
                colSep: seq<Byte>, rowSep: seq<Byte>, nullValue: Text)
    returns (out: seq<Byte>)
    ensures out == (if header then TclFields(ShownAll(azCol, []), printable, colSep) + rowSep else [])
                   + (match azArg
                      case None => []
                      case Some(cells) => TclFields(ShownAll(cells, nullValue), printable, colSep) + rowSep)
  {
    hide TclFields;
    out := [];
    if header {
      out := OutputTclRow(ShownAll(azCol, []), printable, colSep, rowSep);
    }
    match azArg {
      case None =>
      case Some(cells) =>
        var row := OutputTclRow(ShownAll(cells, nullValue), printable, colSep, rowSep);
        out := out + row;
    }
  }

  lemma {:induction false} PrintedHasNoNul(fields: seq<Text>, printable: set<Byte>, colSep: seq<Byte>)
    requires NulFree(fields) && AllSpace(colSep)
    ensures 0 !in TclFields(fields, printable, colSep)
    decreases |fields|
  {
    if fields != [] {
      EscapeHasNoNul(fields[0], printable);
      assert NulFree(fields[1..]);
      PrintedHasNoNul(fields[1..], printable, colSep);
    }
  }

  lemma {:induction false} EscapeHasNoNul(t: Text, printable: set<Byte>)
    requires 0 !in t
    ensures 0 !in Escape(t, printable)
  {
    if t != [] { EscapeHasNoNul(t[1..], printable); }
  }

  /** A row printed in Tcl mode after a first byte, split in place: its values come back as C strings in the buffer. */
  method PrintThenSplit(cells: seq<Option<Text>>, nullValue: Text, printable: set<Byte>, colSep: seq<Byte>,
                        rowSep: seq<Byte>, first: Byte)
    returns (zLine: array<Byte>, azArg: seq<nat>)
    requires AllSpace(colSep) && AllSpace(rowSep) && |cells| <= 50 && NulFree(ShownAll(cells, nullValue))
    ensures |azArg| == |cells|
    ensures forall k :: 0 <= k < |azArg|
                        ==> azArg[k] < zLine.Length && CString(zLine[azArg[k]..]) == Shown(cells[k], nullValue)
  {
    hide Args, TclFields, CString;
    ghost var fields := ShownAll(cells, nullValue);
    var row := TclRow(cells, Some(cells), false, printable, colSep, rowSep, nullValue);
    assert row == TclFields(fields, printable, colSep) + rowSep;
    PrintedHasNoNul(fields, printable, colSep);
    assert 0 !in row;
    var text := [first] + row + [0];
    zLine := new Byte[|text|](i requires 0 <= i < |text| => text[i]);
    assert zLine[..] == text;
    ghost var z := |text| - 1;
    assert zLine[1..z] == row;
    RowRoundTrip(fields, printable, colSep, rowSep);
    ghost var got;
    azArg, got := SplitLine(zLine, z);
    assert forall k :: 0 <= k < |cells| ==> fields[k] == Shown(cells[k], nullValue);
  }
}
