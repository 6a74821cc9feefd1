/** The number parser strtol of lib/string.c. */
module Strtol {
  import opened CTypes

  /** The int32 that an integer wraps to. */
  function Wrap32(x: int): int {
    var y := x % 0x1_0000_0000;
    if y < 0x8000_0000 then y else y - 0x1_0000_0000
  }

  /** The value of a digit or letter; 99 for other characters. */
  function DigitOf(c: cchar): nat {
    if '0' <= c <= '9' then c as int - '0' as int
    else if 'a' <= c <= 'z' then c as int - 'a' as int + 10
    else if 'A' <= c <= 'Z' then c as int - 'A' as int + 10
    else 99
  }

  predicate IsDigitIn(c: cchar, base: int) { DigitOf(c) < 99 && DigitOf(c) < base }

  /** The number that a string of digits stands for. */
  function Value(s: seq<cchar>, base: nat): nat {
    if s == [] then 0 else Value(s[..|s| - 1], base) * base + DigitOf(s[|s| - 1])
  }

  function BlanksEnd(s: seq<cchar>, i: nat): (j: nat)
    requires IsCString(s) && i < |s|
    decreases |s| - i
    ensures i <= j < |s| && s[j] !in {' ', '\t'} && forall k :: i <= k < j ==> s[k] in {' ', '\t'}
  {
    if s[i] in {' ', '\t'} then BlanksEnd(s, i + 1) else i
  }

  function DigitsEnd(s: seq<cchar>, i: nat, base: int): (j: nat)
    requires IsCString(s) && i < |s|
    decreases |s| - i
    ensures i <= j < |s| && !IsDigitIn(s[j], base) && forall k :: i <= k < j ==> IsDigitIn(s[k], base)
  {
    if IsDigitIn(s[i], base) then DigitsEnd(s, i + 1, base) else i
  }

  /** How strtol reads a string: sign, base, and the run of digits [start, end). */
  datatype Reading = Reading(neg: bool, base: int, start: nat, end: nat)

  /** Where the sign ends, if there is one. */
  function SignEnd(s: seq<cchar>): (i: nat)
    requires IsCString(s)
    ensures i < |s|
  {
    var sign := BlanksEnd(s, 0);
    if s[sign] in {'+', '-'} then sign + 1 else sign
  }

  /** The base that the digits are read in and where they start, by the prefix at i. */
  function Prefix(s: seq<cchar>, i: nat, base: int): (p: (int, nat))
    requires IsCString(s) && i < |s|
    ensures p.1 < |s|
  {
    if (base == 0 || base == 16) && s[i] == '0' && s[i + 1] == 'x' then (16, i + 2)
    else if base == 0 && s[i] == '0' then (8, i + 1)
    else if base == 0 then (10, i)
    else (base, i)
  }

  function Read(s: seq<cchar>, base: int): (r: Reading)
    requires IsCString(s)
    ensures r.start <= r.end < |s|
  {
    var (b, start) := Prefix(s, SignEnd(s), base);
    Reading(s[BlanksEnd(s, 0)] == '-', b, start, DigitsEnd(s, start, b))
  }

  /** The number that is read, without regard to the width of a long. */
  function NumberRead(s: seq<cchar>, r: Reading): int
    requires r.start <= r.end <= |s|
  {
    var v: int := Value(s[r.start..r.end], Max(0, r.base));
    if r.neg then -v else v
  }

  lemma WrapStep(a: int, base: int, d: int)
    ensures Wrap32(Wrap32(a) * base + d) == Wrap32(a * base + d)
  {
    var q := a / 0x1_0000_0000;
    var k := if a % 0x1_0000_0000 < 0x8000_0000 then q else q + 1;
    assert Wrap32(a) == a - k * 0x1_0000_0000;
    assert Wrap32(a) * base + d == (a * base + d) - (k * base) * 0x1_0000_0000;
  }

  /** The long with the same 32 bits. */
  lemma WrapMeans(x: int)
    ensures -0x8000_0000 <= Wrap32(x) < 0x8000_0000 && (x - Wrap32(x)) % 0x1_0000_0000 == 0
  {
    var q := x / 0x1_0000_0000;
    var k := if x % 0x1_0000_0000 < 0x8000_0000 then q else q + 1;
    assert x - Wrap32(x) == k * 0x1_0000_0000;
  }

  /** Digits stand for 0 to 9, letters of either case for 10 to 35. */
  lemma DigitMeans(d: nat, base: int)
    ensures d < 10 ==> DigitOf((48 + d) as char) == d
    ensures d < 26 ==> DigitOf((97 + d) as char) == DigitOf((65 + d) as char) == 10 + d
    ensures d < 0x100 && !(48 <= d < 58 || 65 <= d < 91 || 97 <= d < 123) ==> !IsDigitIn(d as char, base)
  {
  }

  lemma WrapNegation(a: int)
    ensures Wrap32(-Wrap32(a)) == Wrap32(-a)
  {
    WrapStep(a, -1, 0);
  }

  lemma ValueStep(s: seq<cchar>, start: nat, i: nat, base: nat)
    requires start <= i < |s|
    ensures Value(s[start..i + 1], base) == Value(s[start..i], base) * base + DigitOf(s[i])
  {
    assert s[start..i + 1][..i - start] == s[start..i];
  }

  lemma GrowsBy(v: nat, base: nat, d: nat)
    requires base > 0
    ensures v * base + d >= v
  {
  }

  lemma WrapId(x: int)
    requires INT_MIN <= x <= INT_MAX
    ensures Wrap32(x) == x
  {
  }

  /** The digit loop of strtol. A long has 32 bits; overflow says whether a value left their range. */
  method ReadDigits(s: seq<cchar>, start: nat, base: int) returns (val: int, i: nat, ghost overflow: bool)
    requires IsCString(s) && start < |s|
    ensures i == DigitsEnd(s, start, base)
    ensures val == Wrap32(Value(s[start..i], Max(0, base)))
    ensures overflow <==> Value(s[start..i], Max(0, base)) > INT_MAX
  {
    hide Value, Wrap32, IsCString;
    val, i, overflow := 0, start, false;
    ValueOfNone(s, start, Max(0, base));
    while true
      invariant start <= i < |s| && DigitsEnd(s, i, base) == DigitsEnd(s, start, base)
      invariant val == Wrap32(Value(s[start..i], Max(0, base)))
      invariant overflow <==> Value(s[start..i], Max(0, base)) > INT_MAX
      decreases |s| - i
    {
      var dig;
      if '0' <= s[i] <= '9' {
        dig := s[i] as int - '0' as int;
      } else if 'a' <= s[i] <= 'z' {
        dig := s[i] as int - 'a' as int + 10;
      } else if 'A' <= s[i] <= 'Z' {
        dig := s[i] as int - 'A' as int + 10;
      } else {
        break;
      }
      if dig >= base { break; }
      ghost var v := Value(s[start..i], base);
      ValueStep(s, start, i, base);
      GrowsBy(v, base, dig);
      WrapStep(v, base, dig);
      if v <= INT_MAX { WrapId(v); }
      overflow := overflow || val * base + dig > INT_MAX;
      val := Wrap32(val * base + dig);
      i := i + 1;
    }
  }

  lemma ValueOfNone(s: seq<cchar>, start: nat, base: nat)
    requires start < |s|
    ensures Value(s[start..start], base) == 0 && Wrap32(0) == 0
  {
  }

  /** The prefix that a base allows, and the base that the digits after it are read in. */
  predicate Prefixed(base0: int, prefix: seq<cchar>, base: int, next: cchar) {
    || (prefix == ['0', 'x'] && base0 in {0, 16} && base == 16)
    || (prefix == ['0'] && base0 == 0 && base == 8 && next != 'x')
    || (prefix == [] && base0 == 0 && base == 10 && next != '0')
    || (prefix == [] && base0 != 0 && base == base0)
  }

  ghost predicate AllBlank(s: seq<cchar>) {
    forall k :: 0 <= k < |s| ==> s[k] in {' ', '\t'}
  }

  ghost predicate AllDigits(ds: seq<cchar>, base: int) {
    forall k :: 0 <= k < |ds| ==> IsDigitIn(ds[k], base)
  }

  lemma SignIs(s: seq<cchar>, blanks: seq<cchar>, sign: seq<cchar>, t: seq<cchar>)
    requires IsCString(s) && s == blanks + sign + t && t != [] && sign in {[], ['+'], ['-']} && AllBlank(blanks)
    requires sign == [] ==> t[0] !in {' ', '\t', '+', '-'}
    ensures BlanksEnd(s, 0) == |blanks| && SignEnd(s) == |blanks| + |sign| && (s[|blanks|] == '-' <==> sign == ['-'])
    ensures s[|blanks| + |sign|..] == t
  {
    assert s[|blanks|] == if sign == [] then t[0] else sign[0];
    BlanksAre(s, |blanks|);
  }

  lemma PrefixIs(s: seq<cchar>, i: nat, prefix: seq<cchar>, u: seq<cchar>, base0: int, base: int)
    requires IsCString(s) && i < |s| && s[i..] == prefix + u && u != [] && Prefixed(base0, prefix, base, u[0])
    requires base0 == 16 && prefix == [] && u[0] == '0' ==> |u| > 1 && u[1] != 'x'
    ensures Prefix(s, i, base0) == (base, i + |prefix|)
    ensures s[i + |prefix|..] == u
  {
    var t := prefix + u;
    assert s[i] == s[i..][0] == t[0];
    assert s[i] == '0' ==> i + 1 < |s| && s[i + 1] == s[i..][1] == t[1];
  }

  lemma DigitsIn(s: seq<cchar>, start: nat, ds: seq<cchar>, rest: seq<cchar>, base: int)
    requires IsCString(s) && start <= |s| && s[start..] == ds + rest && rest != [] && !IsDigitIn(rest[0], base)
    requires AllDigits(ds, base)
    ensures DigitsEnd(s, start, base) == |s| - |rest| && s[start..|s| - |rest|] == ds
  {
    var end := |s| - |rest|;
    forall k | start <= k <= end ensures s[k] == if k < end then ds[k - start] else rest[0] {
      assert s[k] == s[start..][k - start];
    }
    DigitsAre(s, start, end, base);
  }

  lemma TextIsString(a: seq<cchar>, ds: seq<cchar>, rest: seq<cchar>, base: int)
    requires NUL !in a && IsCString(rest) && AllDigits(ds, base)
    ensures IsCString(a + ds + rest)
  {
    assert NUL !in ds;
  }

  /** A hexadecimal digit is no x. */
  lemma SecondIsNoX(ds: seq<cchar>, rest: seq<cchar>)
    requires rest != [] && AllDigits(ds, 16) && !IsDigitIn(rest[0], 16) && !(ds == ['0'] && rest[0] == 'x')
    ensures (ds + rest)[0] == '0' ==> |ds + rest| > 1 && (ds + rest)[1] != 'x'
  {
    assert |ds| > 1 ==> IsDigitIn(ds[1], 16);
    assert |ds| == 1 ==> (ds + rest)[1] == rest[0] && ds == [ds[0]];
  }

  /** Blanks, a sign, a prefix, digits, and then something else: the digits are the number, and the end pointer is after
      them. Base 16 takes "0x" for the prefix even if the digits could end at the 0. */
  lemma ReadsText(blanks: seq<cchar>, sign: seq<cchar>, prefix: seq<cchar>, ds: seq<cchar>, rest: seq<cchar>, base0: int, base: int)
    requires AllBlank(blanks) && sign in {[], ['+'], ['-']} && AllDigits(ds, base)
    requires IsCString(rest) && !IsDigitIn(rest[0], base) && Prefixed(base0, prefix, base, (ds + rest)[0])
    requires !(base0 == 16 && prefix == [] && ds == ['0'] && rest[0] == 'x')
    requires sign == [] ==> (prefix + (ds + rest))[0] !in {' ', '\t', '+', '-'}
    ensures var s := blanks + sign + prefix + ds + rest;
      && IsCString(s)
      && Read(s, base0) == Reading(sign == ['-'], base, |blanks| + |sign| + |prefix|, |s| - |rest|)
      && NumberRead(s, Read(s, base0)) == if sign == ['-'] then -(Value(ds, Max(0, base)) as int) else Value(ds, Max(0, base))
  {
    hide Value, IsDigitIn, Read, AllDigits;
    var s, u := blanks + sign + prefix + ds + rest, ds + rest;
    TextIsString(blanks + sign + prefix, ds, rest, base);
    Regrouped(blanks, sign, prefix, ds, rest);
    if base0 == 16 && prefix == [] { SecondIsNoX(ds, rest); }
    assert rest != [] && |u| == |ds| + |rest| && |s| == |blanks| + |sign| + |prefix| + |u|;
    hide IsCString, AllBlank, BlanksEnd, SignEnd, Prefixed;
    SignIs(s, blanks, sign, prefix + u);
    ReadsAfterSign(s, |blanks| + |sign|, prefix, u, ds, rest, base0, base);
  }

  lemma Regrouped(a: seq<cchar>, b: seq<cchar>, c: seq<cchar>, d: seq<cchar>, e: seq<cchar>)
    ensures a + b + c + d + e == a + b + (c + (d + e))
  {
  }

  /** What follows the sign. */
  lemma ReadsAfterSign(s: seq<cchar>, i: nat, prefix: seq<cchar>, u: seq<cchar>, ds: seq<cchar>, rest: seq<cchar>, base0: int, base: int)
    requires IsCString(s) && i < |s| && SignEnd(s) == i && s[i..] == prefix + u && u == ds + rest && rest != []
    requires AllDigits(ds, base) && !IsDigitIn(rest[0], base)
    requires Prefixed(base0, prefix, base, u[0]) && (base0 == 16 && prefix == [] && u[0] == '0' ==> |u| > 1 && u[1] != 'x')
    ensures i + |prefix| <= |s| - |rest| && s[i + |prefix|..|s| - |rest|] == ds
    ensures Read(s, base0) == Reading(s[BlanksEnd(s, 0)] == '-', base, i + |prefix|, |s| - |rest|)
  {
    hide IsDigitIn, BlanksEnd, DigitsEnd, SignEnd, Prefix, Prefixed, IsCString, AllDigits;
    PrefixIs(s, i, prefix, u, base0, base);
    DigitsIn(s, i + |prefix|, ds, rest, base);
  }

  lemma BlanksAre(s: seq<cchar>, j: nat)
    requires IsCString(s) && j < |s| && s[j] !in {' ', '\t'} && forall k :: 0 <= k < j ==> s[k] in {' ', '\t'}
    ensures BlanksEnd(s, 0) == j
  {
  }

  lemma DigitsAre(s: seq<cchar>, i: nat, j: nat, base: int)
    requires IsCString(s) && i <= j < |s| && !IsDigitIn(s[j], base) && forall k :: i <= k < j ==> IsDigitIn(s[k], base)
    ensures DigitsEnd(s, i, base) == j
  {
  }

  /** "0x" is taken for a prefix although no digit follows: 0 is read, and the end pointer is after the x. */
  lemma PrefixWithoutDigits(base: int)
    requires base in {0, 16}
    ensures IsCString(['0', 'x', NUL]) && Read(['0', 'x', NUL], base) == Reading(false, 16, 2, 2)
    ensures NumberRead(['0', 'x', NUL], Reading(false, 16, 2, 2)) == 0
  {
    var s: seq<cchar> := ['0', 'x', NUL];
    assert BlanksEnd(s, 0) == 0 && DigitsEnd(s, 2, 16) == 2 && s[2..2] == [];
  }

  method SkipBlanks(s: seq<cchar>) returns (i: nat)
    requires IsCString(s)
    ensures i == BlanksEnd(s, 0)
  {
    i := 0;
    while s[i] == ' ' || s[i] == '\t'
      invariant 0 <= i < |s| && BlanksEnd(s, i) == BlanksEnd(s, 0)
      decreases |s| - i
    {
      i := i + 1;
    }
  }

  method SkipSign(s: seq<cchar>) returns (neg: bool, i: nat)
    requires IsCString(s)
    ensures i == SignEnd(s) && neg == (s[BlanksEnd(s, 0)] == '-')
  {
    neg := false;
    i := SkipBlanks(s);
    if s[i] == '+' {
      i := i + 1;
    } else if s[i] == '-' {
      i := i + 1;
      neg := true;
    }
  }

  method SkipPrefix(s: seq<cchar>, i0: nat, base0: int) returns (base: int, i: nat)
    requires IsCString(s) && i0 < |s|
    ensures (base, i) == Prefix(s, i0, base0)
  {
    base, i := base0, i0;
    if (base == 0 || base == 16) && s[i] == '0' && s[i + 1] == 'x' {
      i := i + 2;
      base := 16;
    } else if base == 0 && s[i] == '0' {
      i := i + 1;
      base := 8;
    } else if base == 0 {
      base := 10;
    }
  }

  /** strtol. end is what it stores through endptr. */
  method StrToLong(s: seq<cchar>, base0: int) returns (result: int, end: nat, ghost overflow: bool)
    requires IsCString(s)
    ensures end == Read(s, base0).end
    ensures result == Wrap32(NumberRead(s, Read(s, base0)))
    ensures overflow <==> Abs(NumberRead(s, Read(s, base0))) > INT_MAX
  {
    hide Value, Wrap32, DigitsEnd, BlanksEnd, SignEnd, Prefix, IsCString;
    var neg, i := SkipSign(s);
    var base;
    base, i := SkipPrefix(s, i, base0);
    var val;
    val, end, overflow := ReadDigits(s, i, base);
    WrapNegation(Value(s[i..end], Max(0, base)));
    result := if neg then Wrap32(-val) else val;
  }
}
