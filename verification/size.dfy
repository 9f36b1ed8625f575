// util.c: size arguments such as "64m", with the overflow test by bit lengths.
module Sizes {
  import opened Bytes

  const TWO64: nat := 0x1_0000_0000_0000_0000

  function Pow2(k: nat): (r: nat)
    ensures r >= 1
  {
    if k == 0 then 1 else 2 * Pow2(k - 1)
  }

  lemma {:induction false} Pow2Add(a: nat, b: nat)
    ensures Pow2(a + b) == Pow2(a) * Pow2(b)
  {
    if a > 0 {
      Pow2Add(a - 1, b);
      assert 2 * (Pow2(a - 1) * Pow2(b)) == 2 * Pow2(a - 1) * Pow2(b);
    }
  }

  lemma SmallPow2()
    ensures Pow2(0) == 1 && Pow2(1) == 2 && Pow2(3) == 8 && Pow2(5) == 32
  {
    assert Pow2(3) == 8;
  }

  lemma Pow2Values()
    ensures Pow2(10) == 1024 && Pow2(63) == 0x8000_0000_0000_0000 && Pow2(64) == TWO64
  {
    hide Pow2;
    SmallPow2();
    Pow2Add(5, 5);
    Pow2Add(10, 10);
    Pow2Add(20, 20);
    Pow2Add(40, 20);
    Pow2Add(60, 3);
    Pow2Add(63, 1);
  }

  /** n is the number of binary digits of x. */
  ghost predicate BitLength(x: nat, n: nat) {
    if x == 0 then n == 0 else n >= 1 && Pow2(n - 1) <= x < Pow2(n)
  }

  /** Shifting left and testing the top bit, in 64-bit arithmetic. */
  function TopBitAfterShift(x: nat, i: nat): bool {
    x * Pow2(i) % TWO64 >= 0x8000_0000_0000_0000
  }

  lemma ShiftTest(x: nat, i: nat)
    requires i < 64 && x < Pow2(64 - i)
    ensures TopBitAfterShift(x, i) <==> x >= Pow2(63 - i)
  {
    Pow2Values();
    Pow2Add(64 - i, i);
    Pow2Add(63 - i, i);
    hide Pow2;
    ScaledTest(x, Pow2(i), Pow2(64 - i), Pow2(63 - i));
  }

  lemma ScaledTest(x: nat, p: nat, a: nat, b: nat)
    requires p > 0 && a * p == TWO64 && b * p == 0x8000_0000_0000_0000 && x < a
    ensures x * p % TWO64 >= 0x8000_0000_0000_0000 <==> x >= b
  {
    MulLess(x, a, p);
    SmallMod(x * p);
    if x >= b {
      MulLessEq(b, x, p);
    } else {
      MulLess(x, b, p);
    }
  }

  lemma SmallMod(n: nat)
    requires n < TWO64
    ensures n % TWO64 == n
  {
  }

  lemma MulLess(a: nat, b: nat, p: nat)
    requires a < b && p > 0
    ensures a * p < b * p
  {
  }

  lemma MulLessEq(a: nat, b: nat, p: nat)
    requires a <= b
    ensures a * p <= b * p
  {
  }

  /** fls64: the bit length of a 64-bit value. */
  method Fls64(x: nat) returns (n: nat)
    requires x < TWO64
    ensures BitLength(x, n) && n <= 64
  {
    Pow2Values();
    var i := 0;
    while i < 64
      invariant 0 <= i <= 64 && x < Pow2(64 - i)
    {
      ShiftTest(x, i);
      if TopBitAfterShift(x, i) {
        return 64 - i;
      }
      i := i + 1;
    }
    n := 64 - i;
  }

  lemma {:induction false} Pow2Mono(a: nat, b: nat)
    requires a <= b
    ensures Pow2(a) <= Pow2(b)
    decreases b
  {
    if a < b { Pow2Mono(a, b - 1); }
  }

  /** The overflow test on bit lengths is exact when the factor is a power of two. */
  lemma OverflowTestExact(x: nat, n: nat, k: nat)
    requires BitLength(x, n) && k < 64
    ensures BitLength(Pow2(k), k + 1)
    ensures n + (k + 1) - 1 > 64 <==> x * Pow2(k) >= TWO64
  {
    Pow2Values();
    if x > 0 {
      Pow2Add(n - 1, k);
      Pow2Add(n, k);
      MulLessEq(Pow2(n - 1), x, Pow2(k));
      MulLess(x, Pow2(n), Pow2(k));
      if n + k > 64 {
        Pow2Mono(64, n - 1 + k);
      } else {
        Pow2Mono(n + k, 64);
      }
    }
  }

  lemma {:induction false} BitLengthUnique(x: nat, m: nat, n: nat)
    requires BitLength(x, m) && BitLength(x, n)
    ensures m == n
  {
    if m < n {
      Pow2Mono(m, n - 1);
    } else if n < m {
      Pow2Mono(n, m - 1);
    }
  }

  // ----- the argument

  predicate IsDigit(b: Byte) {
    48 <= b <= 57
  }

  function Digits(s: seq<Byte>): (n: nat)
    ensures n <= |s| && (forall k :: 0 <= k < n ==> IsDigit(s[k])) && (n < |s| ==> !IsDigit(s[n]))
  {
    if s == [] || !IsDigit(s[0]) then 0 else 1 + Digits(s[1..])
  }

  function Decimal(s: seq<Byte>): nat {
    if s == [] then 0 else 10 * Decimal(s[..|s| - 1]) + (if IsDigit(s[|s| - 1]) then s[|s| - 1] - 48 else 0)
  }

  /** The power of two a unit letter stands for, either case; 'b' and no letter are 1. */
  function Unit(c: Byte): int {
    var lower: int := if 65 <= c <= 90 then c + 32 else c;
    if lower == 101 then 60 else if lower == 112 then 50 else if lower == 116 then 40 else if lower == 103 then 30
    else if lower == 109 then 20 else if lower == 107 then 10 else if lower == 98 then 0 else -1
  }

  datatype Size = Size(bytes: nat) | Failed(why: Failure)
  datatype Failure = Negative | NotANumber | LongSuffix | UnknownUnit | TooLarge

  function Blanks(s: seq<Byte>): (n: nat)
    ensures n <= |s|
  {
    if s == [] || !(s[0] == 32 || 9 <= s[0] <= 13) then 0 else 1 + Blanks(s[1..])
  }

  const MINUS: Byte := 45
  const PLUS: Byte := 43

  /** strtoull in base 10: the value, how many bytes were used, and whether it was
      out of range. Blanks and a sign may come first; a minus sign negates modulo 2^64. */
  function Strtoull(s: seq<Byte>): (r: (nat, nat, bool))
    ensures r.0 < TWO64 && r.1 <= |s|
  {
    var a := Blanks(s);
    var signed := a < |s| && (s[a] == MINUS || s[a] == PLUS);
    var b := if signed then a + 1 else a;
    var n := Digits(s[b..]);
    if n == 0 then (0, 0, false) else
      var v := Decimal(s[b..b + n]);
      if v >= TWO64 then (TWO64 - 1, b + n, true)
      else if signed && s[a] == MINUS && v > 0 then (TWO64 - v, b + n, false)
      else (v, b + n, false)
  }

  /** On a string of digits and at most one more byte, strtoull gives the decimal value. */
  lemma StrtoullOfDigits(s: seq<Byte>)
    requires s != [] && IsDigit(s[0]) && Decimal(s[..Digits(s)]) < TWO64
    ensures Strtoull(s) == (Decimal(s[..Digits(s)]), Digits(s), false)
  {
    hide Digits, Decimal, Blanks;
    NoBlanks(s);
    assert s[0..] == s;
  }

  lemma NoBlanks(s: seq<Byte>)
    requires s != [] && IsDigit(s[0])
    ensures Blanks(s) == 0 && Digits(s) > 0
  {
  }

  lemma UnitValues()
    ensures Pow2(0) == 1 && Pow2(10) == 1024 && Pow2(20) == 0x10_0000 && Pow2(30) == 0x4000_0000
    ensures Pow2(40) == 0x100_0000_0000 && Pow2(50) == 0x4_0000_0000_0000 && Pow2(60) == 0x1000_0000_0000_0000
  {
    hide Pow2;
    SmallPow2();
    Pow2Add(5, 5);
    Pow2Add(10, 10);
    Pow2Add(20, 10);
    Pow2Add(20, 20);
    Pow2Add(40, 10);
    Pow2Add(40, 20);
  }

  /** The fall-through switch: one factor of 1024 for the letter and one for each unit below it. */
  method Multiplier(c: Byte) returns (known: bool, mult: nat)
    ensures known <==> Unit(c) >= 0
    ensures known ==> mult == Pow2(Unit(c))
  {
    UnitValues();
    hide Pow2;
    var lower: int := if 65 <= c <= 90 then c + 32 else c;
    known, mult := lower in {101, 112, 116, 103, 109, 107, 98}, 1;
    if lower in {101} { mult := mult * 1024; }
    if lower in {101, 112} { mult := mult * 1024; }
    if lower in {101, 112, 116} { mult := mult * 1024; }
    if lower in {101, 112, 116, 103} { mult := mult * 1024; }
    if lower in {101, 112, 116, 103, 109} { mult := mult * 1024; }
    if lower in {101, 112, 116, 103, 109, 107} { mult := mult * 1024; }
  }

  function InUnit(value: nat, unit: nat): nat {
    value * Pow2(unit)
  }

  /** The exact byte count of a value in a unit, unless it needs more than 64 bits. */
  function Scaled(value: nat, unit: nat): Size {
    if InUnit(value, unit) < TWO64 then Size(InUnit(value, unit)) else Failed(TooLarge)
  }

  /** What parse_size answers, in the original's order of tests; range says that errno already held ERANGE. */
  function ParseResult(s: seq<Byte>, range: bool): Size {
    var (value, used, over) := Strtoull(s);
    if s != [] && s[0] == MINUS then Failed(Negative)
    else if used == 0 then Failed(NotANumber)
    else if used + 1 < |s| then Failed(LongSuffix)
    else if (range || over) && value == TWO64 - 1 then Failed(TooLarge)
    else if used == |s| then Scaled(value, 0)
    else if Unit(s[used]) < 0 then Failed(UnknownUnit)
    else Scaled(value, Unit(s[used]))
  }

  /** parse_size on any string. The product never wraps: either it is exact or the size is refused. */
  method ParseSize(s: seq<Byte>, range: bool) returns (size: Size)
    ensures size == ParseResult(s, range)
  {
    hide Decimal, BitLength, Strtoull;
    if s != [] && s[0] == MINUS {
      return Failed(Negative);
    }
    var (ret, used, outOfRange) := Strtoull(s);
    if used == 0 {
      return Failed(NotANumber);
    }
    if used + 1 < |s| {
      return Failed(LongSuffix);
    }
    if (range || outOfRange) && ret == TWO64 - 1 {
      return Failed(TooLarge);
    }
    var mult := 1;
    ghost var k := 0;
    assert Pow2(0) == 1;
    if used < |s| {
      var known;
      known, mult := Multiplier(s[used]);
      if !known {
        return Failed(UnknownUnit);
      }
      k := Unit(s[used]);
    }
    UnitInRange(mult, k);
    hide Pow2, InUnit;
    var a := Fls64(ret);
    var b := Fls64(mult);
    ProductTest(ret, mult, k, a, b);
    if a + b - 1 > 64 {
      return Failed(TooLarge);
    }
    size := Size(ret * mult % TWO64);
  }

  /** The test refuses exactly the products that would wrap. */
  lemma ProductTest(value: nat, mult: nat, k: nat, a: nat, b: nat)
    requires mult == Pow2(k) && k <= 60 && BitLength(value, a) && BitLength(mult, b)
    ensures a + b - 1 > 64 <==> InUnit(value, k) >= TWO64
    ensures InUnit(value, k) < TWO64 ==> value * mult % TWO64 == InUnit(value, k)
  {
    OverflowTestExact(value, a, k);
    BitLengthUnique(mult, b, k + 1);
    hide Pow2, BitLength;
    if InUnit(value, k) < TWO64 {
      SmallMod(value * mult);
    }
  }

  lemma UnitInRange(mult: nat, k: nat)
    requires mult == Pow2(k) && k <= 60
    ensures mult < TWO64
  {
    Pow2Values();
    Pow2Mono(k, 63);
  }

  /** Digits and a unit letter: accepted exactly when the product is below 2^64, and then exact. */
  lemma ParseWellFormed(s: seq<Byte>)
    requires |s| >= 2 && Digits(s) == |s| - 1 && Unit(s[|s| - 1]) >= 0 && Decimal(s[..|s| - 1]) < TWO64
    ensures var product := Decimal(s[..|s| - 1]) * Pow2(Unit(s[|s| - 1]));
            ParseResult(s, false) == if product < TWO64 then Size(product) else Failed(TooLarge)
  {
    hide Strtoull, Decimal, Pow2;
    StrtoullOfDigits(s);
  }

  // ----- well-formed sizes, said in digits and letters

  function Pow10(n: nat): nat {
    if n == 0 then 1 else 10 * Pow10(n - 1)
  }

  /** Every byte is one of '0' to '9'. */
  predicate Numeric(d: seq<Byte>) {
    forall k :: 0 <= k < |d| ==> 48 <= d[k] <= 57
  }

  /** A byte from '0' to '9' counts 0 to 9, times a power of ten for its place. */
  function PlaceValue(d: seq<Byte>): nat
    requires Numeric(d)
  {
    if d == [] then 0 else (d[0] - 48) * Pow10(|d| - 1) + PlaceValue(d[1..])
  }

  lemma {:induction false} PlaceValueSnoc(d: seq<Byte>, b: Byte)
    requires 48 <= b <= 57 && Numeric(d)
    ensures PlaceValue(d + [b]) == 10 * PlaceValue(d) + (b - 48)
  {
    if d == [] {
      assert (d + [b])[1..] == [] && Pow10(0) == 1;
    } else {
      assert (d + [b])[1..] == d[1..] + [b];
      PlaceValueSnoc(d[1..], b);
      assert Pow10(|d|) == 10 * Pow10(|d| - 1);
      Times10(d[0] - 48, Pow10(|d| - 1));
    }
  }

  lemma Times10(a: nat, p: nat)
    ensures a * (10 * p) == 10 * (a * p)
  {
  }

  /** The accumulating reading of a number is the one by places. */
  lemma {:induction false} DecimalIsPlaceValue(d: seq<Byte>)
    requires Numeric(d)
    ensures Decimal(d) == PlaceValue(d)
  {
    if d != [] {
      var n := |d| - 1;
      assert d == d[..n] + [d[n]];
      DecimalIsPlaceValue(d[..n]);
      PlaceValueSnoc(d[..n], d[n]);
    }
  }

  /** What a size of n bytes must answer. */
  function Fitting(n: nat): Size {
    if n < 0x1_0000_0000_0000_0000 then Size(n) else Failed(TooLarge)
  }

  predicate BlankByte(b: Byte) {
    b == 32 || b == 9 || b == 10 || b == 11 || b == 12 || b == 13
  }

  /** Blanks and at most one plus sign may stand before the digits. */
  predicate Lead(lead: seq<Byte>) {
    lead == [] ||
    ((forall k :: 0 <= k < |lead| - 1 ==> BlankByte(lead[k]))
     && (BlankByte(lead[|lead| - 1]) || lead[|lead| - 1] == 43))
  }

  predicate AllDigits(d: seq<Byte>) {
    d != [] && Numeric(d)
  }

  lemma {:induction false} BlanksThen(w: seq<Byte>, rest: seq<Byte>)
    requires forall k :: 0 <= k < |w| ==> BlankByte(w[k])
    requires rest != [] && !BlankByte(rest[0])
    ensures Blanks(w + rest) == |w|
  {
    if w == [] {
      assert w + rest == rest;
    } else {
      assert (w + rest)[1..] == w[1..] + rest;
      BlanksThen(w[1..], rest);
    }
  }

  lemma {:induction false} DigitsThen(d: seq<Byte>, rest: seq<Byte>)
    requires Numeric(d) && (rest == [] || !(48 <= rest[0] <= 57))
    ensures Digits(d + rest) == |d|
  {
    if d == [] {
      assert d + rest == rest;
    } else {
      assert (d + rest)[1..] == d[1..] + rest;
      DigitsThen(d[1..], rest);
    }
  }

  /** strtoull's answer for the number v read from the first used bytes. */
  function Reading(v: nat, used: nat): (nat, nat, bool) {
    (if v < TWO64 then v else TWO64 - 1, used, v >= TWO64)
  }

  /** After a blanks and perhaps a plus, n digits at b that are worth v. */
  predicate NumberAt(s: seq<Byte>, a: nat, b: nat, n: nat, v: nat) {
    && Blanks(s) == a < |s| && s[a] != MINUS && b == (if s[a] == PLUS then a + 1 else a) && b + n <= |s|
    && Digits(s[b..]) == n > 0 && Decimal(s[b..b + n]) == v
  }

  lemma StrtoullIs(s: seq<Byte>, a: nat, b: nat, n: nat, v: nat)
    requires NumberAt(s, a, b, n, v)
    ensures Strtoull(s) == Reading(v, b + n)
  {
    hide Blanks, Digits, Decimal;
  }

  lemma LeadBlanks(lead: seq<Byte>, body: seq<Byte>, n: nat)
    requires Lead(lead) && body != [] && 48 <= body[0] <= 57
    requires n == if lead != [] && lead[|lead| - 1] == 43 then |lead| - 1 else |lead|
    ensures Blanks(lead + body) == n && (n < |lead| ==> (lead + body)[n] == 43)
  {
    hide Blanks;
    if n < |lead| {
      assert lead == lead[..n] + [43] && ([43] + body)[0] == 43;
      Assoc(lead[..n], [43], body);
      BlanksThen(lead[..n], [43] + body);
    } else {
      BlanksThen(lead, body);
    }
  }

  lemma NumberParts(lead: seq<Byte>, d: seq<Byte>, rest: seq<Byte>)
    requires d != []
    ensures var s := lead + (d + rest);
            && s[|lead|..] == d + rest && s[|lead|..|lead| + |d|] == d
            && (d + rest)[0] == d[0] && s[|lead|] == d[0] && (lead != [] ==> s[|lead| - 1] == lead[|lead| - 1])
  {
    Assoc(lead, d, rest);
    assert (lead + d)[|lead|..] == d;
  }

  lemma LeadLength(lead: seq<Byte>, d: seq<Byte>, rest: seq<Byte>) returns (n: nat)
    requires Lead(lead) && AllDigits(d) && (rest == [] || !(48 <= rest[0] <= 57))
    ensures 48 <= d[0] <= 57 && Digits(d + rest) == |d|
    ensures n == |lead| || (n + 1 == |lead| && (lead + (d + rest))[n] == 43)
    ensures Blanks(lead + (d + rest)) == n
  {
    n := if lead != [] && lead[|lead| - 1] == 43 then |lead| - 1 else |lead|;
    LeadBlanks(lead, d + rest, n);
    DigitsThen(d, rest);
  }

  lemma LeadIsNumber(lead: seq<Byte>, d: seq<Byte>, rest: seq<Byte>, n: nat, v: nat)
    requires d != [] && 48 <= d[0] <= 57 && Decimal(d) == v && Digits(d + rest) == |d|
    requires n == |lead| || (n + 1 == |lead| && (lead + (d + rest))[n] == 43)
    requires Blanks(lead + (d + rest)) == n
    ensures NumberAt(lead + (d + rest), n, |lead|, |d|, v)
  {
    hide Blanks, Digits, Decimal;
    NumberParts(lead, d, rest);
  }

  /** strtoull stops after the digits and has their value, or the largest one if that is too big. */
  lemma StrtoullOfLead(lead: seq<Byte>, d: seq<Byte>, rest: seq<Byte>, v: nat)
    requires Lead(lead) && AllDigits(d) && Decimal(d) == v && (rest == [] || !(48 <= rest[0] <= 57))
    ensures Strtoull(lead + (d + rest)) == Reading(v, |lead| + |d|)
  {
    hide Strtoull, Reading, NumberAt, Lead, Numeric, Decimal, Digits, Blanks;
    var n := LeadLength(lead, d, rest);
    LeadIsNumber(lead, d, rest, n, v);
    StrtoullIs(lead + (d + rest), n, |lead|, |d|, v);
  }

  lemma StartsNoMinus(lead: seq<Byte>, d: seq<Byte>, rest: seq<Byte>)
    requires Lead(lead) && AllDigits(d)
    ensures lead + (d + rest) != [] && (lead + (d + rest))[0] != MINUS
  {
  }

  lemma UnitsInBytes(c: Byte)
    ensures c == 98 || c == 66 ==> Unit(c) == 0 && Pow2(0) == 1
    ensures c == 107 || c == 75 ==> Unit(c) == 10 && Pow2(10) == 0x400
    ensures c == 109 || c == 77 ==> Unit(c) == 20 && Pow2(20) == 0x10_0000
    ensures c == 103 || c == 71 ==> Unit(c) == 30 && Pow2(30) == 0x4000_0000
    ensures c == 116 || c == 84 ==> Unit(c) == 40 && Pow2(40) == 0x100_0000_0000
    ensures c == 112 || c == 80 ==> Unit(c) == 50 && Pow2(50) == 0x4_0000_0000_0000
    ensures c == 101 || c == 69 ==> Unit(c) == 60 && Pow2(60) == 0x1000_0000_0000_0000
    ensures c !in [98, 66, 107, 75, 109, 77, 103, 71, 116, 84, 112, 80, 101, 69] ==> Unit(c) < 0
  {
    UnitValues();
    hide Pow2;
  }

  /** Digits alone, after any blanks and a plus sign. */
  lemma PlainSize(lead: seq<Byte>, d: seq<Byte>)
    requires Lead(lead) && AllDigits(d)
    ensures ParseResult(lead + d, false) == Fitting(PlaceValue(d))
  {
    assert d + [] == d;
    DecimalIsPlaceValue(d);
    StrtoullOfLead(lead, d, [], PlaceValue(d));
    StartsNoMinus(lead, d, []);
    UnitsInBytes(98);
    hide Strtoull, PlaceValue, Pow2, Unit;
  }

  lemma ScaledFits(v: nat, k: nat, m: nat)
    requires Pow2(k) == m >= 1
    ensures v < TWO64 ==> Scaled(v, k) == Fitting(v * m)
    ensures v >= TWO64 ==> Fitting(v * m) == Failed(TooLarge)
  {
    hide Pow2;
    MulLessEq(1, m, v);
    assert InUnit(v, k) == v * m;
  }

  /** One answer for a suffix worth m. */
  lemma SuffixedSize(lead: seq<Byte>, d: seq<Byte>, c: Byte, k: nat, m: nat)
    requires Lead(lead) && AllDigits(d) && !(48 <= c <= 57) && Unit(c) == k && Pow2(k) == m >= 1
    ensures ParseResult(lead + (d + [c]), false) == Fitting(PlaceValue(d) * m)
  {
    hide Strtoull, PlaceValue, Pow2, Unit, Scaled, Fitting, Lead;
    DecimalIsPlaceValue(d);
    StrtoullOfLead(lead, d, [c], PlaceValue(d));
    StartsNoMinus(lead, d, [c]);
    assert (lead + (d + [c]))[|lead| + |d|] == c;
    ScaledFits(PlaceValue(d), k, m);
  }

  /** Digits and one letter, in either case: b counts 1, k 2^10, m 2^20, g 2^30, t 2^40, p 2^50
      and e 2^60 bytes; the product is accepted exactly below 2^64, any other byte is refused. */
  lemma UnitSizes(lead: seq<Byte>, d: seq<Byte>, c: Byte)
    requires Lead(lead) && AllDigits(d) && !(48 <= c <= 57)
    ensures var v, answer := PlaceValue(d), ParseResult(lead + (d + [c]), false);
            if c == 98 || c == 66 then answer == Fitting(v)
            else if c == 107 || c == 75 then answer == Fitting(v * 0x400)
            else if c == 109 || c == 77 then answer == Fitting(v * 0x10_0000)
            else if c == 103 || c == 71 then answer == Fitting(v * 0x4000_0000)
            else if c == 116 || c == 84 then answer == Fitting(v * 0x100_0000_0000)
            else if c == 112 || c == 80 then answer == Fitting(v * 0x4_0000_0000_0000)
            else if c == 101 || c == 69 then answer == Fitting(v * 0x1000_0000_0000_0000)
            else answer == Failed(if v < 0x1_0000_0000_0000_0000 then UnknownUnit else TooLarge)
  {
    UnitsInBytes(c);
    hide Strtoull, PlaceValue, Pow2, Unit, ParseResult, Fitting;
    if c in [98, 66, 107, 75, 109, 77, 103, 71, 116, 84, 112, 80, 101, 69] {
      SuffixedSize(lead, d, c, Unit(c), Pow2(Unit(c)));
    } else {
      UnknownSuffix(lead, d, c);
    }
  }

  lemma UnknownSuffix(lead: seq<Byte>, d: seq<Byte>, c: Byte)
    requires Lead(lead) && AllDigits(d) && !(48 <= c <= 57) && Unit(c) < 0
    ensures ParseResult(lead + (d + [c]), false) == Failed(if PlaceValue(d) < TWO64 then UnknownUnit else TooLarge)
  {
    DecimalIsPlaceValue(d);
    StrtoullOfLead(lead, d, [c], PlaceValue(d));
    StartsNoMinus(lead, d, [c]);
    assert (lead + (d + [c]))[|lead| + |d|] == c;
    hide Strtoull, PlaceValue, Unit;
  }

  /** More than one byte after the digits is refused, whatever they are. */
  lemma LongSuffixRefused(lead: seq<Byte>, d: seq<Byte>, rest: seq<Byte>, range: bool)
    requires Lead(lead) && AllDigits(d) && |rest| >= 2 && !(48 <= rest[0] <= 57)
    ensures ParseResult(lead + (d + rest), range) == Failed(LongSuffix)
  {
    DecimalIsPlaceValue(d);
    StrtoullOfLead(lead, d, rest, PlaceValue(d));
    StartsNoMinus(lead, d, rest);
    hide Strtoull, PlaceValue;
  }

  /** An out-of-range error left over from an earlier call matters for the largest value only. */
  lemma StaleRangeError(lead: seq<Byte>, d: seq<Byte>, rest: seq<Byte>)
    requires Lead(lead) && AllDigits(d) && |rest| <= 1 && (rest != [] ==> !(48 <= rest[0] <= 57))
    ensures var s := lead + (d + rest);
            ParseResult(s, true)
            == if PlaceValue(d) == 0xFFFF_FFFF_FFFF_FFFF then Failed(TooLarge) else ParseResult(s, false)
  {
    DecimalIsPlaceValue(d);
    StrtoullOfLead(lead, d, rest, PlaceValue(d));
    StartsNoMinus(lead, d, rest);
    hide Strtoull, PlaceValue, Unit, Scaled;
  }

  /** Blanks and a sign without a digit behind them are no number; a minus sign in front is refused first. */
  lemma NoNumber(w: seq<Byte>, sign: seq<Byte>, rest: seq<Byte>, range: bool)
    requires (forall k :: 0 <= k < |w| ==> BlankByte(w[k])) && (sign == [] || sign == [43] || sign == [45])
    requires rest != [] ==> !(48 <= rest[0] <= 57)
    requires rest != [] && sign == [] ==> !BlankByte(rest[0]) && rest[0] != 43 && rest[0] != 45
    ensures ParseResult(w + (sign + rest), range) == Failed(if w == [] && sign == [45] then Negative else NotANumber)
  {
    var body := sign + rest;
    var s := w + body;
    if body == [] {
      AllBlanks(w);
      assert s == w;
    } else {
      assert body[0] == if sign == [] then rest[0] else sign[0];
      BlanksThen(w, body);
    }
    assert s[|w|..] == body && body[|sign|..] == rest && s[|w| + |sign|..] == rest;
    assert Digits(rest) == 0;
    hide Blanks, Digits, Decimal;
    assert Strtoull(s) == (0, 0, false);
  }

  lemma {:induction false} AllBlanks(w: seq<Byte>)
    requires forall k :: 0 <= k < |w| ==> BlankByte(w[k])
    ensures Blanks(w) == |w|
  {
    if w != [] {
      AllBlanks(w[1..]);
    }
  }

  // ----- negative sizes

  /** After any blanks, s reads as a minus sign and digits. */
  predicate ReadsNegative(s: seq<Byte>) {
    Blanks(s) < |s| && s[Blanks(s)] == 45 && Digits(s[Blanks(s) + 1..]) > 0
  }

  /** Where the digits of a negative number end. */
  function NegativeEnd(s: seq<Byte>): (e: nat)
    requires ReadsNegative(s)
    ensures Blanks(s) + 1 < e <= |s|
  {
    Blanks(s) + 1 + Digits(s[Blanks(s) + 1..])
  }

  /** The number after the minus sign. */
  function Magnitude(s: seq<Byte>): nat
    requires ReadsNegative(s)
  {
    PlaceValue(s[Blanks(s) + 1..NegativeEnd(s)])
  }

  /** -v in 64 bits. */
  function Wrapped(v: nat): nat
    requires v < TWO64
  {
    if v == 0 then 0 else TWO64 - v
  }

  lemma StrtoullOfNegative(s: seq<Byte>)
    requires ReadsNegative(s)
    ensures Strtoull(s) == if Magnitude(s) < TWO64 then (Wrapped(Magnitude(s)), NegativeEnd(s), false)
            else (TWO64 - 1, NegativeEnd(s), true)
  {
    DecimalIsPlaceValue(s[Blanks(s) + 1..NegativeEnd(s)]);
  }

  /** The unit after the digits: 0 without a suffix, negative for an unknown letter. */
  function SuffixUnit(s: seq<Byte>): int
    requires ReadsNegative(s)
  {
    if NegativeEnd(s) == |s| then 0 else Unit(s[NegativeEnd(s)])
  }

  /** A blank hides the minus sign from the guard, the rest is well-formed, and the wrapped value fits. */
  predicate NegativeAccepted(s: seq<Byte>, range: bool)
    requires ReadsNegative(s)
  {
    && Blanks(s) > 0 && NegativeEnd(s) + 1 >= |s| && SuffixUnit(s) >= 0
    && Magnitude(s) < TWO64 && !(range && Magnitude(s) == 1)
    && InUnit(Wrapped(Magnitude(s)), SuffixUnit(s)) < TWO64
  }

  /** The guard against negative sizes looks at the first byte only. It refuses exactly
      those without a blank in front; NegativeAccepted says which of the others are sizes. */
  lemma NegativeSizes(s: seq<Byte>, range: bool)
    requires ReadsNegative(s)
    ensures ParseResult(s, range) == Failed(Negative) <==> Blanks(s) == 0
    ensures ParseResult(s, range).Size? <==> NegativeAccepted(s, range)
    ensures NegativeAccepted(s, range) ==> ParseResult(s, range).bytes == InUnit(Wrapped(Magnitude(s)), SuffixUnit(s))
  {
    StrtoullOfNegative(s);
    hide Strtoull, InUnit, Magnitude, NegativeEnd, Unit, Blanks, ReadsNegative;
  }

  /** The smallest case: " -1" is accepted as 2^64 - 1. */
  lemma BlankHidesMinus()
    ensures ParseResult([32, 45, 49], false) == Size(TWO64 - 1)
  {
    var s: seq<Byte> := [32, 45, 49];
    assert Blanks(s) == 1 by { assert s[1..][0] == 45; }
    assert s[2..] == [49] && Digits([49]) == 1 && s[2..3] == [49];
    assert Decimal([49]) == 1 by { assert [49][..0] == []; }
    StrtoullOfNegative(s);
    assert Pow2(0) == 1;
  }
}
