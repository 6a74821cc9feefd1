/** What formats print, said of the formats themselves: the characters that arrive in a buffer. */
module Formats {
  import opened Arith
  import opened CTypes
  import opened Format
  import opened Printf
  import opened RoundTrip
  import opened Strtol

  /** n copies of a character; none if n is negative. */
  function Fill(c: cchar, n: int): seq<cchar> { seq(Max(0, n), _ => c) }

  /** The format prints text from these arguments. */
  ghost predicate Prints(fmt: seq<cchar>, args: seq<Arg>, text: seq<cchar>) {
    && IsCString(fmt) && Matches(Parse(fmt, 0), args)
    && Lows(Render(Parse(fmt, 0), args)) == text
  }

  /** A string without its NUL, as long as an int can count. */
  predicate IsText(s: seq<cchar>) {
    |s| < INT_MAX && NUL !in s
  }

  // ---------- Reading a format ----------

  /** A format that is one escape. */
  lemma OneEscape(fmt: seq<cchar>, mods: List<Mod>, conv: cchar, args: seq<Arg>)
    requires IsCString(fmt) && |fmt| >= 3 && fmt[0] == '%' && fmt[|fmt| - 2] == conv && IsConversion(conv)
    requires ScanMods(fmt, 1) == (mods, |fmt| - 2) && ModsMatch(mods, DEFAULT, args)
    requires var (f, rest) := Apply(mods, DEFAULT, args); ArgMatches(conv, f, rest)
    ensures Matches(Parse(fmt, 0), args)
    ensures var (f, rest) := Apply(mods, DEFAULT, args); Render(Parse(fmt, 0), args) == Convert(conv, f, rest)
  {
    hide Convert, ArgMatches, Apply, ModsMatch, ScanMods;
    assert Parse(fmt, |fmt| - 1) == Nil;
    assert Parse(fmt, 0) == Cons(Escape(mods, conv), Nil);
  }

  lemma {:induction false} ScanIsValue(fmt: seq<cchar>, a: nat, i: nat, j: nat)
    requires IsCString(fmt) && a <= i <= j < |fmt| && !IsDigit(fmt[j]) && forall k :: a <= k < j ==> IsDigit(fmt[k])
    ensures ScanNumber(fmt, i, Value(fmt[a..i], 10)) == (Value(fmt[a..j], 10), j)
    decreases j - i
  {
    if i < j {
      hide Value;
      ValueStep(fmt, a, i, 10);
      ScanIsValue(fmt, a, i + 1, j);
    }
  }

  /** A decimal number, other than 0, is one modifier. */
  lemma ScanDecimal(fmt: seq<cchar>, i: nat, w: nat)
    requires IsCString(fmt) && w > 0
    requires var j := i + |Printout(w, 10)|; j < |fmt| && fmt[i..j] == Printout(w, 10) && !IsDigit(fmt[j])
    ensures var j := i + |Printout(w, 10)|;
      ScanMods(fmt, i) == (Cons(Number(w), ScanMods(fmt, j).0), ScanMods(fmt, j).1)
  {
    hide Printout, Value, ScanNumber, ScanMods, IsModifier;
    var ds := Printout(w, 10);
    DecimalDigits(w);
    ScanDigits(fmt, i, ds);
    FirstDigit(fmt[i]);
    ScanOther(fmt, i, w, i + |ds|);
  }

  /** A run of digits is read as its value. */
  lemma ScanDigits(fmt: seq<cchar>, i: nat, ds: seq<cchar>)
    requires IsCString(fmt) && ds != [] && i + |ds| < |fmt| && fmt[i..i + |ds|] == ds && !IsDigit(fmt[i + |ds|])
    requires forall k :: 0 <= k < |ds| ==> IsDigit(ds[k])
    ensures fmt[i] == ds[0] && ScanNumber(fmt, i, 0) == (Value(ds, 10), i + |ds|)
  {
    var j := i + |ds|;
    forall k | i <= k < j ensures fmt[k] == ds[k - i] {
      assert fmt[k] == fmt[i..j][k - i];
    }
    ScanIsValue(fmt, i, i, j);
    assert fmt[i..i] == [];
  }

  lemma ScanOther(fmt: seq<cchar>, i: nat, w: nat, j: nat)
    requires IsCString(fmt) && i < |fmt| && IsModifier(fmt[i]) && fmt[i] !in {'-', '0', '*', '.', '#', 'l'}
    requires ScanNumber(fmt, i, 0) == (w, j) && i < j < |fmt|
    ensures ScanMods(fmt, i) == (Cons(Number(w), ScanMods(fmt, j).0), ScanMods(fmt, j).1)
  {
    hide ScanNumber;
    assert ScanMod(fmt, i) == (Number(w), j);
  }

  lemma DecimalDigits(w: nat)
    requires w > 0
    ensures var ds := Printout(w, 10);
      |ds| > 0 && ds[0] != '0' && Value(ds, 10) == w && forall k :: 0 <= k < |ds| ==> IsDigit(ds[k])
  {
    hide Printout, Value;
    PrintoutValue(w, 10);
    var ds := Printout(w, 10);
    forall k | 0 <= k < |ds| ensures IsDigit(ds[k]) {
      DecimalDigit(ds[k]);
    }
  }

  lemma DecimalDigit(c: cchar)
    requires IsDigitIn(c, 10)
    ensures IsDigit(c)
  {
  }

  lemma FirstDigit(c: cchar)
    requires IsDigit(c) && c != '0'
    ensures IsModifier(c) && c !in {'-', '0', '*', '.', '#', 'l'}
  {
  }

  // ---------- Strings ----------

  /** "%s" with an optional minus flag, a width and a precision */
  function StringSpec(minus: bool, w: nat, k: nat): seq<cchar> {
    ['%'] + (if minus then ['-'] else []) + Printout(w, 10) + ['.'] + Printout(k, 10) + ['s', NUL]
  }

  lemma SpecPieces(a: seq<cchar>, ds: seq<cchar>, c: seq<cchar>)
    ensures var fmt := a + ds + c;
      && fmt[|a|..|a| + |ds|] == ds && fmt[..|a|] == a && fmt[|a| + |ds|..] == c
      && (|c| > 0 ==> fmt[|a| + |ds|] == c[0])
  {
  }

  lemma ScanAfter(fmt: seq<cchar>, a: seq<cchar>, w: nat, rest: seq<cchar>)
    requires w > 0 && |rest| > 0 && !IsDigit(rest[0]) && fmt == a + Printout(w, 10) + rest && IsCString(fmt)
    ensures |rest| <= |fmt| && |a| < |fmt|
    ensures var (mods, end) := ScanMods(fmt, |fmt| - |rest|); ScanMods(fmt, |a|) == (Cons(Number(w), mods), end)
  {
    hide Printout, ScanMods, IsCString;
    PiecesOf(fmt, a, Printout(w, 10), rest);
    ScanDecimalTo(fmt, |a|, |fmt| - |rest|, w);
  }

  lemma ScanDecimalTo(fmt: seq<cchar>, i: nat, j: nat, w: nat)
    requires IsCString(fmt) && w > 0 && i <= j < |fmt| && fmt[i..j] == Printout(w, 10) && !IsDigit(fmt[j])
    ensures ScanMods(fmt, i) == (Cons(Number(w), ScanMods(fmt, j).0), ScanMods(fmt, j).1)
  {
    hide Printout, ScanMods, IsCString;
    assert |fmt[i..j]| == j - i;
    ScanDecimal(fmt, i, w);
  }

  lemma PiecesOf(fmt: seq<cchar>, a: seq<cchar>, ds: seq<cchar>, rest: seq<cchar>)
    requires fmt == a + ds + rest && rest != []
    ensures var j := |fmt| - |rest|; |a| <= j && fmt[|a|..j] == ds && fmt[j] == rest[0]
  {
  }

  /** A flag, if there is one, before other modifiers. */
  function Flagged(flag: seq<cchar>, mods: List<Mod>): List<Mod> {
    if flag == [] then mods else Cons(if flag == ['-'] then Minus else Zero, mods)
  }

  /** A flag and a number after '%', up to position j. */
  lemma ScanFlagged(fmt: seq<cchar>, flag: seq<cchar>, w: nat, rest: seq<cchar>)
    requires w > 0 && flag in {[], ['-'], ['0']} && |rest| > 0 && !IsDigit(rest[0])
    requires fmt == ['%'] + flag + Printout(w, 10) + rest && IsCString(fmt)
    ensures |rest| <= |fmt|
    ensures var (mods, end) := ScanMods(fmt, |fmt| - |rest|); ScanMods(fmt, 1) == (Flagged(flag, Cons(Number(w), mods)), end)
  {
    hide Printout, ScanMods, IsCString;
    ScanAfter(fmt, ['%'] + flag, w, rest);
    if flag != [] {
      FlagAt(flag, Printout(w, 10) + rest);
      Regroup2(['%'] + flag, Printout(w, 10), rest);
      ModifierStep(fmt, 1);
    }
  }

  lemma Regroup2(a: seq<cchar>, b: seq<cchar>, c: seq<cchar>)
    ensures a + b + c == a + (b + c)
  {
  }

  lemma FlagAt(flag: seq<cchar>, rest: seq<cchar>)
    requires flag != []
    ensures (['%'] + flag + rest)[1] == flag[0]
  {
  }

  function Modifier(c: cchar): Mod
    requires c in {'-', '0', '*', '.', '#', 'l'}
  {
    match c
    case '-' => Minus
    case '0' => Zero
    case '*' => Star
    case '.' => Dot
    case '#' => Alt
    case 'l' => Long
  }

  lemma ModifierStep(fmt: seq<cchar>, i: nat)
    requires IsCString(fmt) && i < |fmt| && fmt[i] in {'-', '0', '*', '.', '#', 'l'}
    ensures i + 1 < |fmt|
    ensures ScanMods(fmt, i) == (Cons(Modifier(fmt[i]), ScanMods(fmt, i + 1).0), ScanMods(fmt, i + 1).1)
  {
  }

  lemma NoModifier(fmt: seq<cchar>, i: nat)
    requires IsCString(fmt) && i < |fmt| && !IsModifier(fmt[i])
    ensures ScanMods(fmt, i) == (Nil, i)
  {
  }

  /** One more modifier in front. */
  lemma ApplyCons(m: Mod, tail: List<Mod>, f: Flags, args: seq<Arg>, goal: (Flags, seq<Arg>))
    requires m.Star? ==> IsWord(args)
    requires var (f1, args1) := ApplyMod(m, f, args); ModsMatch(tail, f1, args1) && Apply(tail, f1, args1) == goal
    ensures ModsMatch(Cons(m, tail), f, args) && Apply(Cons(m, tail), f, args) == goal
  {
  }

  lemma ApplyNil(f: Flags, args: seq<Arg>)
    ensures ModsMatch(Nil, f, args) && Apply(Nil, f, args) == (f, args)
  {
  }

  lemma DigitsInFormat(a: seq<cchar>, ds: seq<cchar>, c: seq<cchar>)
    requires NUL !in a && IsCString(c) && forall k :: 0 <= k < |ds| ==> IsDigit(ds[k])
    ensures IsCString(a + ds + c)
  {
  }

  /** A dot, a precision and the conversion at the end of a format. */
  lemma ScanPrecision(a: seq<cchar>, k: nat)
    requires a != [] && a[|a| - 1] == '.' && NUL !in a && k > 0
    ensures var fmt := a + Printout(k, 10) + ['s', NUL];
      && IsCString(fmt) && |fmt| >= 3 && fmt[0] == a[0] && fmt[|fmt| - 2] == 's'
      && ScanMods(fmt, |a| - 1) == (Cons(Dot, Cons(Number(k), Nil)), |fmt| - 2)
  {
    hide Printout, ScanMods, Value;
    DecimalDigits(k);
    var end: seq<cchar> := ['s', NUL];
    var fmt := a + Printout(k, 10) + end;
    DigitsInFormat(a, Printout(k, 10), end);
    SpecPieces(a, Printout(k, 10), end);
    ScanDecimal(fmt, |a|, k);
    NoModifier(fmt, |fmt| - 2);
    ModifierStep(fmt, |a| - 1);
  }

  lemma Regrouped(a: seq<cchar>, b: seq<cchar>, c: seq<cchar>, d: seq<cchar>, e: seq<cchar>)
    ensures a + b + c + d + e == a + b + (c + d + e)
  {
  }

  lemma StringSpecScan(minus: bool, w: nat, k: nat)
    requires w > 0 && k > 0
    ensures var fmt := StringSpec(minus, w, k);
      var tail := Cons(Number(w), Cons(Dot, Cons(Number(k), Nil)));
      && IsCString(fmt) && |fmt| >= 3 && fmt[0] == '%' && fmt[|fmt| - 2] == 's'
      && ScanMods(fmt, 1) == (Flagged(if minus then ['-'] else [], tail), |fmt| - 2)
  {
    hide Printout, ScanMods, Value, IsCString;
    DecimalDigits(w);
    assert NUL !in Printout(w, 10);
    var flag := if minus then ['-'] else [];
    var a := ['%'] + flag + Printout(w, 10) + ['.'];
    ScanPrecision(a, k);
    Regrouped(['%'] + flag, Printout(w, 10), ['.'], Printout(k, 10), ['s', NUL]);
    ScanFlagged(StringSpec(minus, w, k), flag, w, ['.'] + Printout(k, 10) + ['s', NUL]);
  }

  /** The characters of a string field. */
  lemma StringFieldText(s: seq<cchar>, f: Flags)
    requires IsCString(s) && !f.alt
    ensures var n := ShownLength(s, f.precision);
      Lows(StringField(s, f)) ==
        if f.padc == '-' then s[..n] + Fill(' ', f.width - n) else Fill(f.padc, f.width - n) + s[..n]
  {
    var n := ShownLength(s, f.precision);
    assert Lows(Shown(s[..n], false)) == s[..n];
    assert Lows(Repeat(f.padc as int, f.width - n)) == Fill(f.padc, f.width - n);
    assert Lows(Repeat(' ' as int, f.width - n)) == Fill(' ', f.width - n);
    LowsConcat(Shown(s[..n], false), Repeat(' ' as int, f.width - n));
    LowsConcat(Repeat(f.padc as int, f.width - n), Shown(s[..n], false));
  }

  /** "%5.3s", "%-20.10s" and so on: at most k characters of the string, in a field of w characters. */
  lemma StringWithin(minus: bool, w: nat, k: nat, s: seq<cchar>)
    requires 0 < w && 0 < k && IsText(s)
    ensures var shown := s[..Min(|s|, k)];
      Prints(StringSpec(minus, w, k), [Str(s + [NUL])],
             if minus then shown + Fill(' ', w - |shown|) else Fill(' ', w - |shown|) + shown)
  {
    hide Printout, StringSpec, StringField, Lows, ScanMods;
    var fmt, args := StringSpec(minus, w, k), [Str(s + [NUL])];
    StringSpecScan(minus, w, k);
    var tail := Cons(Number(w), Cons(Dot, Cons(Number(k), Nil)));
    var padc: cchar := if minus then '-' else ' ';
    var f := Flags(padc, w, k, 0, false);
    hide ModsMatch, Apply;
    var f0 := DEFAULT.(padc := padc);
    ApplyNil(f, args);
    ApplyCons(Number(k), Nil, f.(precision := -1), args, (f, args));
    ApplyCons(Dot, Cons(Number(k), Nil), f.(precision := -1), args, (f, args));
    ApplyCons(Number(w), Cons(Dot, Cons(Number(k), Nil)), f0, args, (f, args));
    if minus { ApplyCons(Minus, tail, DEFAULT, args, (f, args)); }
    OneEscape(fmt, if minus then Cons(Minus, tail) else tail, 's', args);
    StringFieldText(s + [NUL], f);
    assert (s + [NUL])[..Min(|s|, k)] == s[..Min(|s|, k)];
  }

  /** "%.*s": at most k characters of the string; all of it if k is negative. */
  lemma StringPrefix(k: uint32, s: seq<cchar>)
    requires IsText(s)
    ensures Prints(['%', '.', '*', 's', NUL], [Word(k), Str(s + [NUL])], if k < 0x8000_0000 then s[..Min(|s|, k)] else s)
  {
    hide StringField, Lows, ScanMods, ModsMatch, Apply, Shown, Repeat;
    var fmt: seq<cchar>, args := ['%', '.', '*', 's', NUL], [Word(k), Str(s + [NUL])];
    NoModifier(fmt, 3);
    ModifierStep(fmt, 2);
    ModifierStep(fmt, 1);
    var f0 := DEFAULT.(width := 0);
    var f := f0.(precision := Signed32(k));
    ApplyNil(f, args[1..]);
    ApplyCons(Star, Nil, f0, args, (f, args[1..]));
    ApplyCons(Dot, Cons(Star, Nil), DEFAULT, args, (f, args[1..]));
    OneEscape(fmt, Cons(Dot, Cons(Star, Nil)), 's', args);
    StringFieldText(s + [NUL], f);
    ghost var n: nat := ShownLength(s + [NUL], f.precision);
    assert Fill(' ', 0 - n) == [] && (s + [NUL])[..n] == s[..n] && s[..|s|] == s;
  }

  /** Unprintable characters are shown as question marks under the alternate flag. */
  lemma StringAlternate(s: seq<cchar>)
    requires IsText(s)
    ensures Prints(['%', '#', 's', NUL], [Str(s + [NUL])],
                   seq(|s|, k requires 0 <= k < |s| => if ' ' <= s[k] <= '~' then s[k] else '?'))
  {
    hide ScanMods, ModsMatch, Apply, StringField, Lows;
    var fmt: seq<cchar>, args := ['%', '#', 's', NUL], [Str(s + [NUL])];
    NoModifier(fmt, 2);
    ModifierStep(fmt, 1);
    var f := DEFAULT.(alt := true);
    ApplyNil(f, args);
    ApplyCons(Alt, Nil, DEFAULT, args, (f, args));
    OneEscape(fmt, Cons(Alt, Nil), 's', args);
    AlternateText(s, f);
  }

  lemma AlternateText(s: seq<cchar>, f: Flags)
    requires NUL !in s && f == DEFAULT.(alt := true)
    ensures Lows(StringField(s + [NUL], f)) == seq(|s|, k requires 0 <= k < |s| => if ' ' <= s[k] <= '~' then s[k] else '?')
  {
    hide Shown, Repeat, Lows;
    assert (s + [NUL])[..|s|] == s;
    assert Repeat(' ' as int, -1 - |s|) == [] by { RepeatNone(' ' as int, -1 - |s|); }
    assert StringField(s + [NUL], f) == [] + Shown(s, true) == Shown(s, true);
    AlternateChars(s);
  }

  lemma AlternateChars(s: seq<cchar>)
    ensures Lows(Shown(s, true)) == seq(|s|, k requires 0 <= k < |s| => if ' ' <= s[k] <= '~' then s[k] else '?')
  {
  }

  /** A null pointer is shown as "(null)". */
  lemma NullString()
    ensures Prints(['%', 's', NUL], [Null], "(null)")
  {
    hide ScanMods, ModsMatch, Apply;
    var fmt: seq<cchar>, args := ['%', 's', NUL], [Null];
    NoModifier(fmt, 1);
    ApplyNil(DEFAULT, args);
    OneEscape(fmt, Nil, 's', args);
    StringFieldText("(null)\0", DEFAULT);
    hide StringField;
    assert "(null)\0"[..6] == "(null)" && Fill(' ', -7) == [];
  }

  // ---------- Numbers ----------

  /** A number format: a flag, a width, 'l's and the conversion */
  function NumberSpec(flag: seq<cchar>, w: nat, longs: nat, conv: cchar): seq<cchar>
    requires longs <= 2
  {
    ['%'] + flag + Printout(w, 10) + (['l', 'l'][..longs] + [conv, NUL])
  }

  /** The number that an argument stands for: 64 bits for 'll', else 32, signed for 'd'. */
  function NumberOf(conv: cchar, arg: Arg): int
    requires arg.Word? || arg.DWord?
  {
    match arg
    case Word(w) => if conv == 'd' && w >= 0x8000_0000 then w - 0x1_0000_0000 else w
    case DWord(d) => if conv == 'd' && d >= 0x8000_0000_0000_0000 then d - 0x1_0000_0000_0000_0000 else d
  }

  function LongMods(longs: nat): List<Mod> {
    if longs == 0 then Nil else if longs == 1 then Cons(Long, Nil) else Cons(Long, Cons(Long, Nil))
  }

  lemma ScanLongs(fmt: seq<cchar>, longs: nat, conv: cchar)
    requires longs <= 2 && IsCString(fmt) && |fmt| >= longs + 2 && conv in {'d', 'u', 'o', 'x', 'p'}
    requires fmt[|fmt| - 2 - longs..] == ['l', 'l'][..longs] + [conv, NUL]
    ensures fmt[|fmt| - 2] == conv
    ensures ScanMods(fmt, |fmt| - 2 - longs) ==
      (LongMods(longs), |fmt| - 2)
  {
    hide ScanMods, IsCString, LongMods;
    LongsAt(fmt, longs, conv);
    LongsScan(fmt, longs, conv);
  }

  lemma LongsScan(fmt: seq<cchar>, longs: nat, conv: cchar)
    requires longs <= 2 && IsCString(fmt) && |fmt| >= longs + 2 && conv in {'d', 'u', 'o', 'x', 'p'}
    requires fmt[|fmt| - 2] == conv && (longs >= 1 ==> fmt[|fmt| - 3] == 'l') && (longs == 2 ==> fmt[|fmt| - 4] == 'l')
    ensures ScanMods(fmt, |fmt| - 2 - longs) == (LongMods(longs), |fmt| - 2)
  {
    hide ScanMods, IsCString;
    NoModifier(fmt, |fmt| - 2);
    if longs >= 1 { ModifierStep(fmt, |fmt| - 3); }
    if longs == 2 { ModifierStep(fmt, |fmt| - 4); }
  }

  lemma LongsAt(fmt: seq<cchar>, longs: nat, conv: cchar)
    requires longs <= 2 && |fmt| >= longs + 2 && fmt[|fmt| - 2 - longs..] == ['l', 'l'][..longs] + [conv, NUL]
    ensures fmt[|fmt| - 2] == conv && (longs >= 1 ==> fmt[|fmt| - 3] == 'l') && (longs == 2 ==> fmt[|fmt| - 4] == 'l')
  {
    var tail := fmt[|fmt| - 2 - longs..];
    assert fmt[|fmt| - 2] == tail[longs];
    assert longs >= 1 ==> fmt[|fmt| - 3] == tail[longs - 1] == 'l';
    assert longs == 2 ==> fmt[|fmt| - 4] == tail[0] == 'l';
  }

  /** The modifiers of a number format. */
  function NumberMods(flag: seq<cchar>, w: nat, longs: nat): List<Mod> {
    Flagged(flag, Cons(Number(w), LongMods(longs)))
  }

  lemma NumberSpecScan(flag: seq<cchar>, w: nat, longs: nat, conv: cchar)
    requires flag in {[], ['-'], ['0']} && w > 0 && longs <= 2 && conv in {'d', 'u', 'o', 'x', 'p'}
    ensures var fmt := NumberSpec(flag, w, longs, conv);
      && IsCString(fmt) && |fmt| >= 3 && fmt[0] == '%' && fmt[|fmt| - 2] == conv
      && ScanMods(fmt, 1) == (NumberMods(flag, w, longs), |fmt| - 2)
  {
    hide Printout, ScanMods, Value, IsCString, LongMods, Flagged;
    DecimalDigits(w);
    var rest := ['l', 'l'][..longs] + [conv, NUL];
    NumberEnd(longs, conv);
    var fmt := NumberSpec(flag, w, longs, conv);
    NumberString(['%'] + flag, Printout(w, 10), rest, longs, conv);
    NumberScan(fmt, flag, w, longs, conv, rest);
  }

  lemma NumberScan(fmt: seq<cchar>, flag: seq<cchar>, w: nat, longs: nat, conv: cchar, rest: seq<cchar>)
    requires flag in {[], ['-'], ['0']} && w > 0 && longs <= 2 && conv in {'d', 'u', 'o', 'x', 'p'}
    requires IsCString(fmt) && fmt == ['%'] + flag + Printout(w, 10) + rest && rest == ['l', 'l'][..longs] + [conv, NUL]
    requires |rest| == longs + 2 && !IsDigit(rest[0]) && |fmt| >= longs + 4 && fmt[|fmt| - 2 - longs..] == rest
    ensures fmt[|fmt| - 2] == conv && ScanMods(fmt, 1) == (NumberMods(flag, w, longs), |fmt| - 2)
  {
    hide Printout, ScanMods, IsCString, LongMods, Flagged;
    ScanLongs(fmt, longs, conv);
    ScanFlagged(fmt, flag, w, rest);
  }

  lemma NumberString(a: seq<cchar>, ds: seq<cchar>, rest: seq<cchar>, longs: nat, conv: cchar)
    requires a != [] && NUL !in a && ds != [] && IsCString(rest) && |rest| == longs + 2 && forall k :: 0 <= k < |ds| ==> IsDigit(ds[k])
    ensures var fmt := a + ds + rest;
      && IsCString(fmt) && |fmt| >= longs + 4 && fmt[0] == a[0] && fmt[|fmt| - 2 - longs..] == rest
  {
    DigitsInFormat(a, ds, rest);
    SpecPieces(a, ds, rest);
    var fmt := a + ds + rest;
    assert |fmt| - 2 - longs == |a| + |ds|;
  }

  lemma NumberEnd(longs: nat, conv: cchar)
    requires longs <= 2 && conv in {'d', 'u', 'o', 'x', 'p'}
    ensures var rest := ['l', 'l'][..longs] + [conv, NUL]; |rest| == longs + 2 && IsCString(rest) && !IsDigit(rest[0])
  {
  }

  lemma NumberMeans(flag: seq<cchar>, w: nat, longs: nat, args: seq<Arg>)
    requires flag in {[], ['-'], ['0']} && w > 0 && longs <= 2
    ensures var f := Flags(if flag == [] then ' ' else flag[0], w, -1, longs, false);
      ModsMatch(NumberMods(flag, w, longs), DEFAULT, args) && Apply(NumberMods(flag, w, longs), DEFAULT, args) == (f, args)
  {
    hide ModsMatch, Apply;
    var padc := if flag == [] then ' ' else flag[0];
    var f := Flags(padc, w, -1, longs, false);
    var goal := (f, args);
    ApplyNil(f, args);
    if longs >= 1 { ApplyCons(Long, Nil, f.(lflag := longs - 1), args, goal); }
    if longs == 2 { ApplyCons(Long, Cons(Long, Nil), f.(lflag := 0), args, goal); }
    var l := if longs == 0 then Nil else if longs == 1 then Cons(Long, Nil) else Cons(Long, Cons(Long, Nil));
    ApplyCons(Number(w), l, DEFAULT.(padc := padc), args, goal);
    if flag != [] { ApplyCons(if flag == ['-'] then Minus else Zero, Cons(Number(w), l), DEFAULT, args, goal); }
  }

  /** The characters of a number field. */
  lemma NumberFieldText(num: nat, base: nat, width: int, padc: cchar)
    requires 2 <= base <= 16
    ensures var ds := Printout(num, base);
      Lows(NumberField(num, base, width, padc as int)) == Fill(padc, width - |ds|) + ds
  {
    hide Digits;
    assert Lows(Repeat(padc as int, width - |Digits(num, base)|)) == Fill(padc, width - |Digits(num, base)|);
    LowsConcat(Repeat(padc as int, width - |Digits(num, base)|), Digits(num, base));
  }

  lemma ConvertText(conv: cchar, f: Flags, arg: Arg)
    requires conv in {'d', 'u', 'o', 'x', 'p'} && ArgMatches(conv, f, [arg])
    ensures var v := NumberOf(conv, arg);
      var base := if conv in {'d', 'u'} then 10 else if conv == 'o' then 8 else 16;
      var prefix := if conv == 'p' then ['0', 'x'] else if v < 0 then ['-'] else [];
      var ds := Printout(Abs(v), base);
      Lows(Convert(conv, f, [arg])) == prefix + Fill(f.padc, f.width - |ds|) + ds
  {
    hide NumberField, Printout, Fill, Lows;
    var v := NumberOf(conv, arg);
    var base := if conv in {'d', 'u'} then 10 else if conv == 'o' then 8 else 16;
    NumberFieldText(Abs(v), base, f.width, f.padc);
    var field := NumberField(Abs(v), base, f.width, f.padc as int);
    var prefix := if conv == 'p' then Codes("0x") else if v < 0 then ['-' as int] else [];
    assert Convert(conv, f, [arg]) == prefix + field;
    LowsConcat(prefix, field);
    PrefixText();
    var ds := Printout(Abs(v), base);
    Concatenated(Lows(prefix), Fill(f.padc, f.width - |ds|), ds);
  }

  lemma PrefixText()
    ensures Lows(Codes("0x")) == ['0', 'x'] && Lows(['-' as int]) == ['-'] && Lows([]) == []
  {
  }

  lemma Concatenated(a: seq<cchar>, b: seq<cchar>, c: seq<cchar>)
    ensures a + (b + c) == a + b + c
  {
  }

  /** "%5d", "%-7llu", "%08x" and so on: padding, which the minus flag puts on the left as well, and the digits; the sign and
      the prefix of a pointer come before the field. */
  lemma NumberWithin(flag: seq<cchar>, w: nat, longs: nat, conv: cchar, arg: Arg)
    requires flag in {[], ['-'], ['0']} && w > 0 && longs <= 2 && conv in {'d', 'u', 'o', 'x', 'p'}
    requires if longs == 2 && conv != 'p' then arg.DWord? else arg.Word?
    ensures var v := NumberOf(conv, arg);
      var base := if conv in {'d', 'u'} then 10 else if conv == 'o' then 8 else 16;
      var prefix := if conv == 'p' then ['0', 'x'] else if v < 0 then ['-'] else [];
      var ds := Printout(Abs(v), base);
      Prints(NumberSpec(flag, w, longs, conv), [arg], prefix + Fill(if flag == [] then ' ' else flag[0], w - |ds|) + ds)
  {
    hide Printout, NumberSpec, ScanMods, ModsMatch, Apply, Convert, Fill, NumberMods;
    NumberSpecScan(flag, w, longs, conv);
    NumberMeans(flag, w, longs, [arg]);
    OneEscape(NumberSpec(flag, w, longs, conv), NumberMods(flag, w, longs), conv, [arg]);
    ConvertText(conv, Flags(if flag == [] then ' ' else flag[0], w, -1, longs, false), arg);
  }

  /** "%d", "%u", "%o", "%x" and "%p": nothing but sign or prefix and digits. */
  lemma NumberPlain(conv: cchar, arg: Arg)
    requires conv in {'d', 'u', 'o', 'x', 'p'} && arg.Word?
    ensures var v := NumberOf(conv, arg);
      var base := if conv in {'d', 'u'} then 10 else if conv == 'o' then 8 else 16;
      var prefix := if conv == 'p' then ['0', 'x'] else if v < 0 then ['-'] else [];
      Prints(['%', conv, NUL], [arg], prefix + Printout(Abs(v), base))
  {
    hide Printout, ScanMods, ModsMatch, Apply, Convert;
    NoModifier(['%', conv, NUL], 1);
    ApplyNil(DEFAULT, [arg]);
    OneEscape(['%', conv, NUL], Nil, conv, [arg]);
    ConvertText(conv, DEFAULT, arg);
    var base := if conv in {'d', 'u'} then 10 else if conv == 'o' then 8 else 16;
    var ds := Printout(Abs(NumberOf(conv, arg)), base);
    assert Fill(' ', -1 - |ds|) == [];
    var prefix := if conv == 'p' then ['0', 'x'] else if NumberOf(conv, arg) < 0 then ['-'] else [];
    assert prefix + [] + ds == prefix + ds;
  }

  /** Hexadecimal digits above 9 are small letters. */
  lemma {:induction false} HexIsSmall(num: nat, k: nat)
    requires k < |Printout(num, 16)|
    ensures var c := Printout(num, 16)[k]; '0' <= c <= '9' || 'a' <= c <= 'f'
    decreases num
  {
    hide Printout;
    PrintoutStep(num, 16);
    HexDigit(num % 16);
    if num >= 16 && k < |Printout(num, 16)| - 1 { HexIsSmall(num / 16, k); }
  }

  lemma HexDigit(d: nat)
    requires d < 16
    ensures var c := Low(HEX[d] as int); '0' <= c <= '9' || 'a' <= c <= 'f'
  {
  }

  // ---------- The other conversions ----------

  /** "%e" of an error code or of its negation: the message of the code, or its number. */
  lemma ErrorMessages(w: uint32)
    requires w != 0x8000_0000
    ensures var err := if w < 0x8000_0000 then w else 0x1_0000_0000 - w;
      Prints(['%', 'e', NUL], [Word(w)],
             match err
             case 1 => "unspecified error"
             case 2 => "bad environment"
             case 3 => "invalid parameter"
             case 4 => "out of memory"
             case 5 => "out of environments"
             case 6 => "segmentation fault"
             case _ => "error " + Printout(err, 10))
  {
    hide ScanMods, ModsMatch, Apply, Printout, ErrorText;
    var err := if w < 0x8000_0000 then w else 0x1_0000_0000 - w;
    NoModifier(['%', 'e', NUL], 1);
    ApplyNil(DEFAULT, [Word(w)]);
    OneEscape(['%', 'e', NUL], Nil, 'e', [Word(w)]);
    if err <= 2 {
      LowMessages(err);
    } else if err <= 4 {
      MiddleMessages(err);
    } else {
      HighMessages(err);
    }
    if !(1 <= err <= 6) { OtherMessage(err); }
  }

  lemma CodesAreLows(s: string)
    requires forall k :: 0 <= k < |s| ==> s[k] as int < 128
    ensures Lows(Codes(s)) == s
  {
  }

  lemma LowMessages(err: nat)
    ensures err == 1 ==> Lows(ErrorText(err)) == "unspecified error"
    ensures err == 2 ==> Lows(ErrorText(err)) == "bad environment"
  {
    if err in {1, 2} { CodesAreLows(ErrorString(err)[..StrLen(ErrorString(err))]); }
  }

  lemma MiddleMessages(err: nat)
    ensures err == 3 ==> Lows(ErrorText(err)) == "invalid parameter"
    ensures err == 4 ==> Lows(ErrorText(err)) == "out of memory"
  {
    if err in {3, 4} { CodesAreLows(ErrorString(err)[..StrLen(ErrorString(err))]); }
  }

  lemma HighMessages(err: nat)
    ensures err == 5 ==> Lows(ErrorText(err)) == "out of environments"
    ensures err == 6 ==> Lows(ErrorText(err)) == "segmentation fault"
  {
    if err in {5, 6} { CodesAreLows(ErrorString(err)[..StrLen(ErrorString(err))]); }
  }

  lemma OtherMessage(err: nat)
    requires !(1 <= err <= 6)
    ensures Lows(ErrorText(err)) == "error " + Printout(err, 10)
  {
    hide Digits;
    LowsConcat(Codes("error "), Digits(err, 10));
    CodesAreLows("error ");
  }

  /** "%c" prints the low byte of its argument. */
  lemma CharPrinted(w: uint32)
    ensures Prints(['%', 'c', NUL], [Word(w)], [(w % 0x100) as char])
  {
    hide ScanMods, ModsMatch, Apply;
    NoModifier(['%', 'c', NUL], 1);
    ApplyNil(DEFAULT, [Word(w)]);
    OneEscape(['%', 'c', NUL], Nil, 'c', [Word(w)]);
  }

  /** A char, signed or not, is stored as itself. */
  lemma CharIsStored(c: cchar)
    ensures -128 <= SignedChar(c) < 128 && Low(SignedChar(c)) == c
  {
  }

  lemma PercentPrinted()
    ensures Prints(['%', '%', NUL], [], ['%'])
  {
    hide ScanMods, ModsMatch, Apply;
    NoModifier(['%', '%', NUL], 1);
    ApplyNil(DEFAULT, []);
    OneEscape(['%', '%', NUL], Nil, '%', []);
  }

  /** Any other character after the '%' is printed with it. */
  lemma UnknownPrinted(c: cchar)
    requires c !in "cesduopx%0123456789-*.#l\0"
    ensures Prints(['%', c, NUL], [], ['%', c])
  {
    var fmt: seq<cchar> := ['%', c, NUL];
    assert !IsModifier(c) && !IsConversion(c);
    hide ModsMatch, Apply;
    NoModifier(fmt, 1);
    ApplyNil(DEFAULT, []);
    assert Parse(fmt, 2) == Nil;
    assert Parse(fmt, 1) == Cons(Literal(c), Nil);
    assert Parse(fmt, 0) == Cons(Unrecognised(Nil), Cons(Literal(c), Nil));
    RenderLiteral(c, Nil, [], []);
  }

  /** Text around an escape is copied, arguments are used one after the other, and the width of one escape does not last
      for the next. */
  lemma ArgumentsInOrder(a: uint32, b: uint32)
    requires a < 10 && b < 10
    ensures Prints(['<', '%', '2', 'd', ':', '%', 'd', NUL], [Word(a), Word(b)],
                   ['<', ' ', (48 + a) as char, ':', (48 + b) as char])
  {
    hide Parse, Render, Matches;
    ParseTwoNumbers();
    TwoNumbers(a, b);
    var items := Cons(Escape(Cons(Number(2), Nil), 'd'), Cons(Literal(':'), Cons(Escape(Nil, 'd'), Nil)));
    var text := [' ' as int, 48 + a, ':' as int, 48 + b];
    RenderLiteral('<', items, [Word(a), Word(b)], text);
    assert Lows(['<' as int] + text) == ['<', ' ', (48 + a) as char, ':', (48 + b) as char];
  }

  lemma ParseTwoNumbers()
    ensures var fmt: seq<cchar> := ['<', '%', '2', 'd', ':', '%', 'd', NUL];
      && IsCString(fmt)
      && Parse(fmt, 0) == Cons(Literal('<'),
        Cons(Escape(Cons(Number(2), Nil), 'd'), Cons(Literal(':'), Cons(Escape(Nil, 'd'), Nil))))
  {
    var fmt: seq<cchar> := ['<', '%', '2', 'd', ':', '%', 'd', NUL];
    hide ScanMods;
    NoModifier(fmt, 3);
    assert ScanNumber(fmt, 2, 0) == (2, 3);
    ScanOther(fmt, 2, 2, 3);
    NoModifier(fmt, 6);
    var i1: List<Item> := Cons(Escape(Nil, 'd'), Nil);
    assert Parse(fmt, 7) == Nil;
    assert Parse(fmt, 5) == i1;
    assert Parse(fmt, 4) == Cons(Literal(':'), i1);
  }

  lemma OneDigit(n: nat)
    requires n < 10
    ensures Digits(n, 10) == [48 + n]
  {
    assert n == 0 || n == 1 || n == 2 || n == 3 || n == 4 || n == 5 || n == 6 || n == 7 || n == 8 || n == 9;
  }

  lemma TwoNumbers(a: uint32, b: uint32)
    requires a < 10 && b < 10
    ensures var items := Cons(Escape(Cons(Number(2), Nil), 'd'), Cons(Literal(':'), Cons(Escape(Nil, 'd'), Nil)));
      Matches(items, [Word(a), Word(b)]) && Render(items, [Word(a), Word(b)]) == [' ' as int, 48 + a, ':' as int, 48 + b]
  {
    OneDigit(a);
    OneDigit(b);
    hide ModsMatch, Apply, Digits;
    var args := [Word(a), Word(b)];
    ApplyNil(DEFAULT, args[1..]);
    assert Convert('d', DEFAULT, args[1..]) == [48 + b];
    var i1 := Cons(Escape(Nil, 'd'), Nil);
    assert Matches(i1, args[1..]) && Render(i1, args[1..]) == [48 + b];
    RenderLiteral(':', i1, args[1..], [48 + b]);
    var f := DEFAULT.(width := 2);
    ApplyNil(f, args);
    ApplyCons(Number(2), Nil, DEFAULT, args, (f, args));
    assert Repeat(' ' as int, 1) == [' ' as int];
    assert Convert('d', f, args) == [' ' as int, 48 + a];
  }
}
