/** What snprintf prints, strtol reads back. */
module RoundTrip {
  import opened Arith
  import opened CTypes
  import opened Format
  import opened Printf
  import opened Strtol

  lemma DigitIsRead(d: nat, base: nat)
    requires d < base <= 16
    ensures var c := Low(HEX[d] as int);
      DigitOf(c) == d && IsDigitIn(c, base) && (c == '0' <==> d == 0)
  {
    if d < 8 {
      assert d == 0 || d == 1 || d == 2 || d == 3 || d == 4 || d == 5 || d == 6 || d == 7;
    } else {
      assert d == 8 || d == 9 || d == 10 || d == 11 || d == 12 || d == 13 || d == 14 || d == 15;
    }
  }

  /** The digits that are printed for a number. */
  function Printout(num: nat, base: nat): seq<cchar>
    requires 2 <= base <= 16
  {
    Lows(Digits(num, base))
  }

  lemma PrintoutStep(num: nat, base: nat)
    requires 2 <= base <= 16
    ensures 0 <= num % base < base
    ensures var last := [Low(HEX[num % base] as int)];
      Printout(num, base) == if num < base then last else Printout(num / base, base) + last
  {
    if num < base { DivUnique(num, base, 0, num); }
  }

  /** Every printed digit is a digit of the base, their value is the number, and there is no leading zero. */
  lemma {:induction false} PrintoutValue(num: nat, base: nat)
    requires 2 <= base <= 16
    decreases num
    ensures var ds := Printout(num, base);
      && |ds| > 0 && Value(ds, base) == num
      && (forall k :: 0 <= k < |ds| ==> IsDigitIn(ds[k], base))
      && (ds[0] == '0' <==> num == 0)
      && (num == 0 ==> |ds| == 1)
  {
    PrintoutStep(num, base);
    DivMod(num, base);
    DigitIsRead(num % base, base);
    var ds := Printout(num, base);
    if num >= base {
      DivShrinks(num, base);
      PrintoutValue(num / base, base);
      assert ds[..|ds| - 1] == Printout(num / base, base);
    } else {
      DivUnique(num, base, 0, num);
      assert ds[..0] == [];
    }
  }

  /** A number without its last k digits. */
  function DropDigits(num: nat, base: nat, k: nat): nat
    requires 2 <= base
  {
    if k == 0 then num else DropDigits(num / base, base, k - 1)
  }

  /** The first m of D digits are the digits of the number without its last D - m digits. */
  lemma {:induction false} PrintoutPrefix(num: nat, base: nat, m: nat)
    requires 2 <= base <= 16 && 1 <= m <= |Printout(num, base)|
    decreases num
    ensures Printout(num, base)[..m] == Printout(DropDigits(num, base, |Printout(num, base)| - m), base)
  {
    hide Printout;
    var ds := Printout(num, base);
    PrintoutStep(num, base);
    if m == |ds| {
      assert ds[..m] == ds;
    } else {
      DivShrinks(num, base);
      PrintoutPrefix(num / base, base, m);
      assert ds[..m] == Printout(num / base, base)[..m];
    }
  }

  function Pow(b: nat, e: nat): nat { if e == 0 then 1 else b * Pow(b, e - 1) }

  lemma {:induction false} PowPositive(b: nat, e: nat)
    requires b > 0
    ensures Pow(b, e) > 0
  {
    if e > 0 {
      PowPositive(b, e - 1);
      MulMonotone(1, b, Pow(b, e - 1));
    }
  }

  lemma {:induction false} DropIsDiv(num: nat, base: nat, k: nat)
    requires 2 <= base
    ensures Pow(base, k) > 0 && DropDigits(num, base, k) == num / Pow(base, k)
    decreases k
  {
    PowPositive(base, k);
    if k > 0 {
      DropIsDiv(num / base, base, k - 1);
      DivDiv(num, base, Pow(base, k - 1));
    }
  }

  /** A number has D digits just if it is at least base to the D - 1 and below base to the D (zero has one). */
  lemma {:induction false} PrintoutLength(num: nat, base: nat)
    requires 2 <= base <= 16
    decreases num
    ensures var d := |Printout(num, base)|;
      d >= 1 && num < Pow(base, d) && (num > 0 ==> Pow(base, d - 1) <= num)
  {
    PrintoutStep(num, base);
    if num < base {
      assert Pow(base, 1) == base * Pow(base, 0);
    } else {
      hide Pow, Printout;
      var d := |Printout(num, base)| - 1;
      DivShrinks(num, base);
      PrintoutLength(num / base, base);
      DivBounds(num, base, Pow(base, d - 1), Pow(base, d));
      PowStep(base, d - 1);
      PowStep(base, d);
    }
  }

  lemma PowStep(b: nat, e: nat)
    ensures Pow(b, e + 1) == Pow(b, e) * b
  {
  }

  // ---------- Reading ----------

  /** The string is nothing but a number, which stands for v. */
  ghost predicate Reads(s: seq<cchar>, base0: int, v: int) {
    IsCString(s) && Read(s, base0).end == |s| - 1 && NumberRead(s, Read(s, base0)) == v
  }

  /** Base 0 takes a leading zero for the octal prefix. */
  predicate BaseFits(ds: seq<cchar>, base0: int, base: int) {
    |ds| > 0 && base in {8, 10, 16} && (base0 == base || (base0 == 0 && base == 10 && (ds[0] != '0' || |ds| == 1)))
  }

  lemma DigitsToEnd(s: seq<cchar>, start: nat, base: int)
    requires IsCString(s) && start < |s| && forall k :: start <= k < |s| - 1 ==> IsDigitIn(s[k], base)
    ensures DigitsEnd(s, start, base) == |s| - 1
  {
  }

  /** After the sign, either the digits follow, or base 0 takes a single '0' for an octal prefix. */
  lemma ReadRun(s: seq<cchar>, start: nat, ds: seq<cchar>, base0: int, base: int)
    requires IsCString(s) && start + |ds| + 1 == |s| && s[start..|s| - 1] == ds
    requires AllDigits(ds, base) && BaseFits(ds, base0, base)
    requires BlanksEnd(s, 0) == 0 && start == (if s[0] in {'+', '-'} then 1 else 0)
    ensures Read(s, base0) ==
      if base0 == 0 && ds[0] == '0' then Reading(s[0] == '-', 8, start + 1, |s| - 1) else Reading(s[0] == '-', base, start, |s| - 1)
  {
    hide DigitsEnd, BlanksEnd, IsDigitIn;
    forall k | start <= k < |s| - 1 ensures IsDigitIn(s[k], base) && s[k] == ds[k - start] {
      assert s[k] == s[start..|s| - 1][k - start];
    }
    if base0 == 0 && ds[0] == '0' {
      DigitsToEnd(s, start + 1, 8);
    } else {
      DigitsToEnd(s, start, base);
      assert base == 16 ==> s[start + 1] != 'x' by { NotHex(s, start + 1); }
    }
  }

  lemma NotHex(s: seq<cchar>, k: nat)
    ensures k < |s| && (IsDigitIn(s[k], 16) || s[k] == NUL) ==> s[k] != 'x'
  {
  }

  lemma ReadRunValue(s: seq<cchar>, start: nat, ds: seq<cchar>, base0: int, base: int)
    requires IsCString(s) && start + |ds| + 1 == |s| && s[start..|s| - 1] == ds
    requires AllDigits(ds, base) && BaseFits(ds, base0, base)
    requires BlanksEnd(s, 0) == 0 && start == (if s[0] in {'+', '-'} then 1 else 0)
    ensures Read(s, base0).end == |s| - 1
    ensures var v: int := Value(ds, base); NumberRead(s, Read(s, base0)) == if s[0] == '-' then -v else v
  {
    hide Read;
    ReadRun(s, start, ds, base0, base);
    if base0 == 0 && ds[0] == '0' {
      assert ds[..0] == [] && s[start + 1..|s| - 1] == [];
    }
  }

  lemma ReadPlain(ds: seq<cchar>, base0: int, base: int)
    requires AllDigits(ds, base) && BaseFits(ds, base0, base)
    ensures Reads(ds + [NUL], base0, Value(ds, base))
  {
    hide Value, Read;
    var s := ds + [NUL];
    assert s[0] == ds[0] && s[0..|s| - 1] == ds;
    ReadRunValue(s, 0, ds, base0, base);
  }

  lemma ReadNegative(ds: seq<cchar>, base0: int, base: int)
    requires AllDigits(ds, base) && BaseFits(ds, base0, base)
    ensures Reads(['-'] + ds + [NUL], base0, -(Value(ds, base) as int))
  {
    hide Value, Read;
    var s := ['-'] + ds + [NUL];
    assert s[1] == ds[0] && s[1..|s| - 1] == ds;
    ReadRunValue(s, 1, ds, base0, base);
  }

  lemma ReadPrefixed(ds: seq<cchar>, base0: int)
    requires AllDigits(ds, 16) && base0 in {0, 16}
    ensures Reads(['0', 'x'] + ds + [NUL], base0, Value(ds, 16))
  {
    hide Value;
    var s := ['0', 'x'] + ds + [NUL];
    assert forall k :: 0 <= k < |ds| ==> s[2 + k] == ds[k];
    assert Read(s, base0) == Reading(false, 16, 2, |s| - 1);
    assert s[2..|s| - 1] == ds;
  }

  lemma {:induction false} LeadingZeros(zeros: seq<cchar>, ds: seq<cchar>, base: nat)
    requires forall k :: 0 <= k < |zeros| ==> zeros[k] == '0'
    ensures Value(zeros + ds, base) == Value(ds, base)
    decreases |zeros| + |ds|
  {
    var s := zeros + ds;
    if |ds| > 0 {
      assert s[..|s| - 1] == zeros + ds[..|ds| - 1];
      LeadingZeros(zeros, ds[..|ds| - 1], base);
    } else if |zeros| > 0 {
      assert s[..|s| - 1] == zeros[..|zeros| - 1] + [];
      LeadingZeros(zeros[..|zeros| - 1], [], base);
    }
  }

  // ---------- Printing ----------

  /** The string that vsnprintf leaves in the buffer. */
  ghost function Buffer(before: seq<cchar>, buf: nat, n: nat, text: seq<int>): seq<cchar>
    requires 1 <= n && buf + n <= |before|
  {
    Printed(before, buf, n, text)[buf..buf + Min(|text|, n - 1) + 1]
  }

  lemma BufferIs(before: seq<cchar>, buf: nat, n: nat, text: seq<int>)
    requires 1 <= n && buf + n <= |before|
    ensures Buffer(before, buf, n, text) == Lows(text[..Min(|text|, n - 1)]) + [NUL]
  {
  }

  lemma ParseConversion(conv: cchar)
    requires IsConversion(conv)
    ensures var fmt := ['%', conv, NUL];
      IsCString(fmt) && Parse(fmt, 0) == Cons(Escape(Nil, conv), Nil)
  {
    var fmt := ['%', conv, NUL];
    assert ScanMods(fmt, 1) == (Nil, 1);
    assert Parse(fmt, 2) == Nil;
  }

  /** What a format of one conversion prints. */
  ghost function Text(conv: cchar, arg: Arg): seq<int>
    requires IsConversion(conv) && ArgMatches(conv, DEFAULT, [arg])
  {
    ParseConversion(conv);
    RenderOne(conv, [arg]);
    Render(Parse(['%', conv, NUL], 0), [arg])
  }

  lemma TextIs(conv: cchar, arg: Arg)
    requires IsConversion(conv) && ArgMatches(conv, DEFAULT, [arg])
    ensures Text(conv, arg) == Convert(conv, DEFAULT, [arg])
  {
    hide Convert, ArgMatches;
    ParseConversion(conv);
    RenderOne(conv, [arg]);
  }

  lemma PlainField(num: nat, base: nat, padc: int)
    requires 2 <= base <= 16
    ensures NumberField(num, base, -1, padc) == Digits(num, base)
  {
    assert Repeat(padc, -1 - |Digits(num, base)|) == [];
  }

  lemma LowsConcat(a: seq<int>, b: seq<int>)
    ensures Lows(a + b) == Lows(a) + Lows(b)
  {
  }

  /** A buffer with room for the whole text. */
  lemma WholeBuffer(before: seq<cchar>, buf: nat, size: nat, text: seq<int>)
    requires |text| < size && buf + size <= |before|
    ensures Buffer(before, buf, size, text) == Lows(text) + [NUL]
  {
    BufferIs(before, buf, size, text);
    assert text[..|text|] == text;
  }

  /** "%d" of any int is read back, in base 10 or 0. The least int is the only one whose digits overflow a long on the way. */
  lemma DecimalRoundTrip(w: uint32, before: seq<cchar>, buf: nat, size: nat, base0: int)
    requires buf + size <= |before| && |Text('d', Word(w))| < size && base0 in {0, 10}
    ensures Reads(Buffer(before, buf, size, Text('d', Word(w))), base0, Signed32(w))
    ensures Abs(Signed32(w)) > INT_MAX <==> Signed32(w) == INT_MIN
  {
    hide Read, Digits, Buffer, Text, NumberField;
    var n := Signed32(w);
    var text := Text('d', Word(w));
    TextIs('d', Word(w));
    PlainField(Abs(n), 10, ' ' as int);
    WholeBuffer(before, buf, size, text);
    var ds := Printout(Abs(n), 10);
    PrintoutValue(Abs(n), 10);
    if n < 0 {
      LowsConcat(['-' as int], Digits(Abs(n), 10));
      assert Lows(['-' as int]) == ['-'];
      assert Lows(text) + [NUL] == ['-'] + ds + [NUL];
      ReadNegative(ds, base0, 10);
    } else {
      assert text == Digits(n, 10);
      ReadPlain(ds, base0, 10);
    }
  }

  function BaseOf(conv: cchar): nat { if conv == 'u' then 10 else if conv == 'o' then 8 else 16 }

  /** "%u", "%o" and "%x" of any unsigned int are read back in their base (strtol's result is this number, wrapped to a long). */
  lemma UnsignedRoundTrip(conv: cchar, w: uint32, before: seq<cchar>, buf: nat, size: nat)
    requires conv in {'u', 'o', 'x'} && buf + size <= |before| && |Text(conv, Word(w))| < size
    ensures Reads(Buffer(before, buf, size, Text(conv, Word(w))), BaseOf(conv), w)
  {
    hide Read, Digits, Buffer, Text, NumberField;
    TextIs(conv, Word(w));
    PlainField(w, BaseOf(conv), ' ' as int);
    WholeBuffer(before, buf, size, Text(conv, Word(w)));
    PrintoutValue(w, BaseOf(conv));
    ReadPlain(Printout(w, BaseOf(conv)), BaseOf(conv), BaseOf(conv));
  }

  /** "%p" of any pointer is read back in base 0 or 16. */
  lemma PointerRoundTrip(w: uint32, before: seq<cchar>, buf: nat, size: nat, base0: int)
    requires buf + size <= |before| && |Text('p', Word(w))| < size && base0 in {0, 16}
    ensures Reads(Buffer(before, buf, size, Text('p', Word(w))), base0, w)
  {
    hide Read, Digits, Buffer, Text, NumberField;
    TextIs('p', Word(w));
    PlainField(w, 16, ' ' as int);
    WholeBuffer(before, buf, size, Text('p', Word(w)));
    PrintoutValue(w, 16);
    LowsConcat(Codes("0x"), Digits(w, 16));
    assert Lows(Codes("0x")) == ['0', 'x'];
    ReadPrefixed(Printout(w, 16), base0);
  }

  const PADDED_HEX: seq<cchar> := ['%', '0', '8', 'x', NUL]

  lemma ParsePadded()
    ensures IsCString(PADDED_HEX)
    ensures Parse(PADDED_HEX, 0) == Cons(Escape(Cons(Zero, Cons(Number(8), Nil)), 'x'), Nil)
  {
    var s := PADDED_HEX;
    assert Parse(s, 4) == Nil;
    assert ScanMods(s, 3) == (Nil, 3);
    assert ScanNumber(s, 3, 8) == (8, 3);
    assert ScanNumber(s, 2, 0) == (8, 3);
    assert ScanMods(s, 2) == (Cons(Number(8), Nil), 3);
  }

  lemma RenderPadded(w: uint32)
    ensures IsCString(PADDED_HEX) && Matches(Parse(PADDED_HEX, 0), [Word(w)])
    ensures Render(Parse(PADDED_HEX, 0), [Word(w)]) == NumberField(w, 16, 8, '0' as int)
  {
    ParsePadded();
    var mods, args := Cons(Zero, Cons(Number(8), Nil)), [Word(w)];
    var f := DEFAULT.(padc := '0', width := 8);
    assert ModsMatch(Cons(Number(8), Nil), DEFAULT.(padc := '0'), args);
    assert Apply(Cons(Number(8), Nil), DEFAULT.(padc := '0'), args) == (f, args);
    assert Apply(mods, DEFAULT, args) == (f, args);
  }

  lemma ReadPadded(w: uint32)
    ensures Reads(Lows(NumberField(w, 16, 8, '0' as int)) + [NUL], 16, w)
  {
    hide Read, Digits;
    PrintoutValue(w, 16);
    var zeros := Repeat('0' as int, 8 - |Digits(w, 16)|);
    LowsConcat(zeros, Digits(w, 16));
    LeadingZeros(Lows(zeros), Printout(w, 16), 16);
    ReadPlain(Lows(zeros) + Printout(w, 16), 16, 16);
  }

  /** "%08x" of any unsigned int is read back in base 16. */
  lemma PaddedRoundTrip(w: uint32, before: seq<cchar>, buf: nat, size: nat)
    requires buf + size <= |before|
    ensures IsCString(PADDED_HEX) && Matches(Parse(PADDED_HEX, 0), [Word(w)])
    ensures var text := Render(Parse(PADDED_HEX, 0), [Word(w)]);
      |text| < size ==> Reads(Buffer(before, buf, size, text), 16, w)
  {
    hide Reads, NumberField, Buffer, Parse, Render, Matches;
    RenderPadded(w);
    ReadPadded(w);
    var text := NumberField(w, 16, 8, '0' as int);
    if |text| < size { WholeBuffer(before, buf, size, text); }
  }

  /** "%u" cut off after m of its D digits is read as the number without its last D - m digits. */
  lemma TruncatedRoundTrip(w: uint32, before: seq<cchar>, buf: nat, m: nat)
    requires 1 <= m <= |Text('u', Word(w))| && buf + m + 1 <= |before|
    ensures var p := Pow(10, |Text('u', Word(w))| - m);
      p > 0 && Reads(Buffer(before, buf, m + 1, Text('u', Word(w))), 10, w / p)
  {
    hide Read, Digits, Buffer, Text, NumberField, Pow, DropDigits;
    var text := Text('u', Word(w));
    TextIs('u', Word(w));
    PlainField(w, 10, ' ' as int);
    BufferIs(before, buf, m + 1, text);
    PrintoutPrefix(w, 10, m);
    var q := DropDigits(w, 10, |text| - m);
    DropIsDiv(w, 10, |text| - m);
    assert Lows(text[..m]) == Printout(w, 10)[..m] == Printout(q, 10);
    PrintoutValue(q, 10);
    ReadPlain(Printout(q, 10), 10, 10);
  }

  // ---------- The two calls ----------

  /** No int takes more than 11 characters. */
  lemma DecimalLength(w: uint32)
    ensures 1 <= |Text('d', Word(w))| <= 11
  {
    hide Digits, Text, NumberField, Printout, Pow;
    var n := Abs(Signed32(w));
    TextIs('d', Word(w));
    PlainField(n, 10, ' ' as int);
    PrintoutLength(n, 10);
    TenToTheTenth();
    DecimalFits(n, 10);
    PrintoutIsDigits(n, 10);
  }

  lemma PrintoutIsDigits(n: nat, base: nat)
    requires 2 <= base <= 16
    ensures |Printout(n, base)| == |Digits(n, base)|
  {
  }

  lemma TenToTheTenth()
    ensures Pow(10, 10) == 10_000_000_000
  {
  }

  lemma {:induction false} DecimalFits(num: nat, k: nat)
    requires 1 <= k && num < Pow(10, k)
    ensures |Printout(num, 10)| <= k
  {
    hide Printout;
    PrintoutStep(num, 10);
    if num >= 10 {
      assert Pow(10, k) == 10 * Pow(10, k - 1);
      DecimalFits(num / 10, k - 1);
    }
  }

  lemma {:induction false} HexFits(num: nat, k: nat)
    requires 1 <= k && num < Pow(16, k)
    ensures |Printout(num, 16)| <= k
  {
    hide Printout;
    PrintoutStep(num, 16);
    if num >= 16 {
      assert Pow(16, k) == 16 * Pow(16, k - 1);
      HexFits(num / 16, k - 1);
    }
  }

  /** The string that starts at buf, after snprintf has left text there. */
  lemma StringAt(before: seq<cchar>, after: seq<cchar>, buf: nat, size: nat, text: seq<int>)
    requires 1 <= size && buf + size <= |before| && after == Printed(before, buf, size, text)
    ensures after[buf..buf + Min(|text|, size - 1) + 1] == Buffer(before, buf, size, text)
  {
  }

  /** The calls snprintf(buf, size, fmt, args) and strtol(buf, &end, base0), for a format whose text, as far as it fits, is
      a number: strtol returns this number, as a long, and its end pointer is at the NUL. */
  method PrintAndRead(mem: array<cchar>, buf: nat, size: nat, fmt: seq<cchar>, args: seq<Arg>, base0: int, ghost number: int)
    returns (v: int, end: nat)
    requires 0 < buf && 1 <= size && buf + size <= mem.Length && IsCString(fmt) && Matches(Parse(fmt, 0), args)
    requires Reads(Buffer(mem[..], buf, size, Render(Parse(fmt, 0), args)), base0, number)
    modifies mem
    ensures v == Wrap32(number) && end == Min(|Render(Parse(fmt, 0), args)|, size - 1) && mem[buf + end] == NUL
    ensures mem[..] == Printed(old(mem[..]), buf, size, Render(Parse(fmt, 0), args))
  {
    hide Parse, Render, Matches, Printed, Read, NumberRead, Wrap32, Buffer;
    ghost var before, text := mem[..], Render(Parse(fmt, 0), args);
    var rc := Vsnprintf(mem, buf, size, fmt, args);
    StringAt(before, mem[..], buf, size, text);
    var s := mem[buf..buf + Min(rc, size - 1) + 1];
    assert s == mem[..][buf..buf + Min(|text|, size - 1) + 1] == Buffer(before, buf, size, text);
    ghost var overflow;
    v, end, overflow := StrToLong(s, base0);
    assert s[end] == NUL;
  }

  /** "%d" with room for every int: the number comes back. */
  method PrintThenRead(mem: array<cchar>, buf: nat, size: nat, w: uint32, base0: int) returns (v: int, end: nat)
    requires 0 < buf && 12 <= size && buf + size <= mem.Length && base0 in {0, 10}
    modifies mem
    ensures v == Signed32(w) && 0 < end < size && mem[buf + end] == NUL
    ensures mem[..] == Printed(old(mem[..]), buf, size, Text('d', Word(w))) && end == |Text('d', Word(w))|
  {
    hide Parse, Render, Matches, Printed, Reads, Text, Buffer;
    ConversionText('d', Word(w));
    DecimalLength(w);
    DecimalRoundTrip(w, mem[..], buf, size, base0);
    WrapId(Signed32(w));
    v, end := PrintAndRead(mem, buf, size, ['%', 'd', NUL], [Word(w)], base0, Signed32(w));
  }

  /** "%u", "%o" and "%x": the word comes back as the long with the same bits. */
  method UnsignedThenRead(mem: array<cchar>, buf: nat, size: nat, conv: cchar, w: uint32) returns (v: int, end: nat)
    requires 0 < buf && buf + size <= mem.Length && conv in {'u', 'o', 'x'} && |Text(conv, Word(w))| < size
    modifies mem
    ensures v == Signed32(w) && end == |Text(conv, Word(w))| && mem[buf + end] == NUL
  {
    hide Parse, Render, Matches, Printed, Reads, Text, Buffer;
    ConversionText(conv, Word(w));
    UnsignedRoundTrip(conv, w, mem[..], buf, size);
    v, end := PrintAndRead(mem, buf, size, ['%', conv, NUL], [Word(w)], BaseOf(conv), w);
  }

  /** "%p", in base 0 or 16 */
  method PointerThenRead(mem: array<cchar>, buf: nat, size: nat, w: uint32, base0: int) returns (v: int, end: nat)
    requires 0 < buf && buf + size <= mem.Length && base0 in {0, 16} && |Text('p', Word(w))| < size
    modifies mem
    ensures v == Signed32(w) && end == |Text('p', Word(w))| && mem[buf + end] == NUL
  {
    hide Parse, Render, Matches, Printed, Reads, Text, Buffer;
    ConversionText('p', Word(w));
    PointerRoundTrip(w, mem[..], buf, size, base0);
    v, end := PrintAndRead(mem, buf, size, ['%', 'p', NUL], [Word(w)], base0, w);
  }

  /** "%08x": always eight characters */
  method PaddedThenRead(mem: array<cchar>, buf: nat, size: nat, w: uint32) returns (v: int, end: nat)
    requires 0 < buf && 9 <= size && buf + size <= mem.Length
    modifies mem
    ensures v == Signed32(w) && end == 8 && mem[buf + end] == NUL
  {
    hide Parse, Render, Matches, Printed, Reads, Buffer;
    PaddedLength(w);
    PaddedRoundTrip(w, mem[..], buf, size);
    v, end := PrintAndRead(mem, buf, size, PADDED_HEX, [Word(w)], 16, w);
  }

  /** "%u" into a buffer that holds only m of the D digits: the last D - m digits are lost. */
  method TruncatedThenRead(mem: array<cchar>, buf: nat, m: nat, w: uint32) returns (v: int, end: nat)
    requires 0 < buf && 1 <= m <= |Text('u', Word(w))| && buf + m + 1 <= mem.Length
    modifies mem
    ensures Pow(10, |Text('u', Word(w))| - m) > 0
    ensures v == Wrap32(w / Pow(10, |Text('u', Word(w))| - m)) && end == m && mem[buf + end] == NUL
  {
    hide Parse, Render, Matches, Printed, Reads, Text, Buffer, Pow, Wrap32;
    ConversionText('u', Word(w));
    TruncatedRoundTrip(w, mem[..], buf, m);
    ghost var q := w / Pow(10, |Text('u', Word(w))| - m);
    v, end := PrintAndRead(mem, buf, m + 1, ['%', 'u', NUL], [Word(w)], 10, q);
  }

  lemma ConversionText(conv: cchar, arg: Arg)
    requires IsConversion(conv) && ArgMatches(conv, DEFAULT, [arg])
    ensures var fmt := ['%', conv, NUL];
      IsCString(fmt) && Matches(Parse(fmt, 0), [arg]) && Render(Parse(fmt, 0), [arg]) == Text(conv, arg)
  {
    hide Parse, Render, Matches;
    ParseConversion(conv);
    RenderOne(conv, [arg]);
  }

  lemma PaddedLength(w: uint32)
    ensures IsCString(PADDED_HEX) && Matches(Parse(PADDED_HEX, 0), [Word(w)])
    ensures |Render(Parse(PADDED_HEX, 0), [Word(w)])| == 8
  {
    hide NumberField, Parse, Render, Matches, Digits, Printout, Pow;
    RenderPadded(w);
    NumberFieldLayout(w, 16, 8, '0' as int);
    SixteenToTheEighth();
    HexFits(w, 8);
    PrintoutIsDigits(w, 16);
  }

  lemma SixteenToTheEighth()
    ensures Pow(16, 8) == 0x1_0000_0000
  {
  }
}
