/** What the format strings of lib/printfmt.c mean: a format is parsed into literals and escapes,
    and these are rendered one by one from an argument list. */
module Format {
  import opened Arith
  import opened CTypes

  // ---------- Syntax ----------

  datatype List<T> = Nil | Cons(head: T, tail: List<T>)

  /** A modifier between '%' and the conversion character. */
  datatype Mod = Minus | Zero | Number(n: nat) | Star | Dot | Alt | Long

  /** A literal character, a '%' escape, or a '%' that starts no escape (only its '*' modifiers have an effect). */
  datatype Item = Literal(c: cchar) | Escape(mods: List<Mod>, conv: cchar) | Unrecognised(mods: List<Mod>)

  predicate IsDigit(c: char) { '0' <= c <= '9' }

  predicate IsConversion(c: char) { c in {'c', 'e', 's', 'd', 'u', 'o', 'p', 'x', '%'} }

  predicate IsModifier(c: char) { IsDigit(c) || c in {'-', '*', '.', '#', 'l'} }

  function DigitValue(c: char): int
    requires IsDigit(c)
    ensures 0 <= DigitValue(c) <= 9
  {
    c as int - '0' as int
  }

  /** The decimal number at i, continuing from acc, and the position after it. */
  function ScanNumber(fmt: seq<cchar>, i: nat, acc: nat): (r: (nat, nat))
    requires IsCString(fmt) && i < |fmt|
    decreases |fmt| - i
    ensures i <= r.1 < |fmt| && !IsDigit(fmt[r.1])
    ensures forall k :: i <= k < r.1 ==> IsDigit(fmt[k])
  {
    if IsDigit(fmt[i]) then ScanNumber(fmt, i + 1, acc * 10 + DigitValue(fmt[i])) else (acc, i)
  }

  /** The modifier at i, and the position after it. */
  function ScanMod(fmt: seq<cchar>, i: nat): (r: (Mod, nat))
    requires IsCString(fmt) && i < |fmt| && IsModifier(fmt[i])
    ensures i < r.1 < |fmt|
    ensures forall k :: i <= k < r.1 ==> IsModifier(fmt[k])
  {
    match fmt[i]
    case '-' => (Minus, i + 1)
    case '0' => (Zero, i + 1)
    case '*' => (Star, i + 1)
    case '.' => (Dot, i + 1)
    case '#' => (Alt, i + 1)
    case 'l' => (Long, i + 1)
    case _ => var (n, j) := ScanNumber(fmt, i, 0); (Number(n), j)
  }

  /** The modifiers from i on, and the position of the character after them. */
  function ScanMods(fmt: seq<cchar>, i: nat): (r: (List<Mod>, nat))
    requires IsCString(fmt) && i < |fmt|
    decreases |fmt| - i
    ensures i <= r.1 < |fmt| && !IsModifier(fmt[r.1])
    ensures forall k :: i <= k < r.1 ==> IsModifier(fmt[k])
  {
    if !IsModifier(fmt[i]) then (Nil, i)
    else
      var (m, j) := ScanMod(fmt, i);
      var rest := ScanMods(fmt, j);
      (Cons(m, rest.0), rest.1)
  }

  function Parse(fmt: seq<cchar>, i: nat): List<Item>
    requires IsCString(fmt) && i < |fmt|
    decreases |fmt| - i
  {
    if fmt[i] == NUL then Nil
    else if fmt[i] != '%' then Cons(Literal(fmt[i]), Parse(fmt, i + 1))
    else
      var (mods, j) := ScanMods(fmt, i + 1);
      if IsConversion(fmt[j]) then Cons(Escape(mods, fmt[j]), Parse(fmt, j + 1))
      else Cons(Unrecognised(mods), Parse(fmt, i + 1))
  }

  // ---------- Arguments ----------

  /** A variable argument: 32 or 64 bits, a string, or a null pointer. */
  datatype Arg = Word(w: uint32) | DWord(d: uint64) | Str(s: seq<cchar>) | Null

  function Signed32(v: uint32): int { if v < 0x8000_0000 then v else v - 0x1_0000_0000 }

  function Signed64(v: uint64): int { if v < 0x8000_0000_0000_0000 then v else v - 0x1_0000_0000_0000_0000 }

  predicate IsWord(args: seq<Arg>) { |args| > 0 && args[0].Word? }

  predicate IsInteger(args: seq<Arg>, lflag: nat) { |args| > 0 && if lflag >= 2 then args[0].DWord? else args[0].Word? }

  predicate IsString(args: seq<Arg>) {
    |args| > 0 && (args[0].Null? || (args[0].Str? && IsCString(args[0].s) && |args[0].s| <= INT_MAX))
  }

  /** The unsigned value of an integer argument. */
  function Unsigned(arg: Arg): uint64
    requires arg.Word? || arg.DWord?
  {
    if arg.Word? then arg.w else arg.d
  }

  /** The signed value of an integer argument. */
  function Signed(arg: Arg): int
    requires arg.Word? || arg.DWord?
  {
    if arg.Word? then Signed32(arg.w) else Signed64(arg.d)
  }

  // ---------- Flags ----------

  datatype Flags = Flags(padc: cchar, width: int, precision: int, lflag: nat, alt: bool)

  const DEFAULT := Flags(' ', -1, -1, 0, false)

  /** A number is the width if there is no width yet, else the precision. */
  function SetNumber(f: Flags, n: int): Flags {
    if f.width < 0 then f.(width := n, precision := -1) else f.(precision := n)
  }

  function ApplyMod(m: Mod, f: Flags, args: seq<Arg>): (Flags, seq<Arg>)
    requires m.Star? ==> IsWord(args)
  {
    match m
    case Minus => (f.(padc := '-'), args)
    case Zero => (f.(padc := '0'), args)
    case Number(n) => (SetNumber(f, n), args)
    case Star => (SetNumber(f, Signed32(args[0].w)), args[1..])
    case Dot => (if f.width < 0 then f.(width := 0) else f, args)
    case Alt => (f.(alt := true), args)
    case Long => (f.(lflag := f.lflag + 1), args)
  }

  /** Every '*' finds an int. */
  predicate ModsMatch(mods: List<Mod>, f: Flags, args: seq<Arg>) {
    mods.Cons? ==>
      && (mods.head.Star? ==> IsWord(args))
      && var (f', args') := ApplyMod(mods.head, f, args);
         ModsMatch(mods.tail, f', args')
  }

  function Apply(mods: List<Mod>, f: Flags, args: seq<Arg>): (Flags, seq<Arg>)
    requires ModsMatch(mods, f, args)
  {
    if mods.Nil? then (f, args)
    else
      var (f', args') := ApplyMod(mods.head, f, args);
      Apply(mods.tail, f', args')
  }

  // ---------- Fields ----------

  /** n copies of c; none if n is negative. */
  function Repeat(c: int, n: int): (r: seq<int>)
    ensures |r| == Max(0, n) && forall k :: 0 <= k < |r| ==> r[k] == c
  {
    if n <= 0 then [] else Repeat(c, n - 1) + [c]
  }

  const HEX: string := "0123456789abcdef"

  /** The digits of num in a base, most significant first, without leading zeros. */
  function Digits(num: nat, base: nat): (r: seq<int>)
    requires 2 <= base <= 16
    ensures |r| > 0
    decreases num
  {
    if num < base then [HEX[num] as int] else DivShrinks(num, base); Digits(num / base, base) + [HEX[num % base] as int]
  }

  /** A number padded on the left to width. */
  function NumberField(num: nat, base: nat, width: int, padc: int): seq<int>
    requires 2 <= base <= 16
  {
    Repeat(padc, width - |Digits(num, base)|) + Digits(num, base)
  }

  function StrLen(s: seq<cchar>): nat
    requires IsCString(s)
  {
    |s| - 1
  }

  /** A plain char is signed. */
  function SignedChar(c: cchar): int { if c as int < 128 then c as int else c as int - 256 }

  function ShownChar(c: cchar, alt: bool): int {
    if alt && !(' ' <= c <= '~') then '?' as int else SignedChar(c)
  }

  function Shown(s: seq<cchar>, alt: bool): seq<int> { seq(|s|, i requires 0 <= i < |s| => ShownChar(s[i], alt)) }

  function ShownLength(s: seq<cchar>, precision: int): (k: nat)
    requires IsCString(s)
    ensures k < |s|
  {
    if precision < 0 then StrLen(s) else Min(StrLen(s), precision)
  }

  /** At most precision characters of s (all if it is negative), padded to width: on the left with padc,
      or with spaces on the right if padc is '-'. */
  function StringField(s: seq<cchar>, f: Flags): seq<int>
    requires IsCString(s)
  {
    var k := ShownLength(s, f.precision);
    var pads := f.width - k;
    if f.padc == '-' then Shown(s[..k], f.alt) + Repeat(' ' as int, pads)
    else Repeat(f.padc as int, pads) + Shown(s[..k], f.alt)
  }

  /** Strings of ASCII characters. */
  predicate IsAscii(s: seq<cchar>) {
    IsCString(s) && |s| < 30 && forall k :: 0 <= k < |s| ==> s[k] as int < 128
  }

  function LowErrorString(err: nat): (s: seq<cchar>)
    ensures IsAscii(s)
  {
    if err == 1 then "unspecified error\0" else "bad environment\0"
  }

  function MiddleErrorString(err: nat): (s: seq<cchar>)
    ensures IsAscii(s)
  {
    if err == 3 then "invalid parameter\0" else "out of memory\0"
  }

  function HighErrorString(err: nat): (s: seq<cchar>)
    ensures IsAscii(s)
  {
    if err == 5 then "out of environments\0" else "segmentation fault\0"
  }

  /** error_string; err is one of its entries. */
  function ErrorString(err: nat): (s: seq<cchar>)
    requires 1 <= err <= 6
    ensures IsAscii(s)
  {
    if err <= 2 then LowErrorString(err) else if err <= 4 then MiddleErrorString(err) else HighErrorString(err)
  }

  function Codes(s: string): seq<int> { seq(|s|, i requires 0 <= i < |s| => s[i] as int) }

  function ErrorText(err: nat): seq<int> {
    if 1 <= err <= 6 then Codes(ErrorString(err)[..StrLen(ErrorString(err))]) else Codes("error ") + Digits(err, 10)
  }

  // ---------- Rendering ----------

  /** The conversion finds an argument of its type; %e is not defined for the least int, which has no absolute value. */
  predicate ArgMatches(conv: cchar, f: Flags, args: seq<Arg>) {
    match conv
    case 'c' => IsWord(args)
    case 'p' => IsWord(args)
    case 'e' => IsWord(args) && args[0].w != 0x8000_0000
    case 's' => IsString(args)
    case '%' => true
    case _ => IsInteger(args, f.lflag)
  }

  /** The characters of one conversion. */
  function Convert(conv: cchar, f: Flags, args: seq<Arg>): seq<int>
    requires IsConversion(conv) && ArgMatches(conv, f, args)
  {
    match conv
    case '%' => ['%' as int]
    case 'c' => [Signed32(args[0].w)]
    case 'e' => ErrorText(Abs(Signed32(args[0].w)))
    case 's' => StringField(if args[0].Null? then "(null)\0" else args[0].s, f)
    case 'd' => (if Signed(args[0]) < 0 then ['-' as int] else [])
                + NumberField(Abs(Signed(args[0])), 10, f.width, f.padc as int)
    case 'u' => NumberField(Unsigned(args[0]), 10, f.width, f.padc as int)
    case 'o' => NumberField(Unsigned(args[0]), 8, f.width, f.padc as int)
    case 'x' => NumberField(Unsigned(args[0]), 16, f.width, f.padc as int)
    case 'p' => Codes("0x") + NumberField(args[0].w, 16, f.width, f.padc as int)
  }

  /** The arguments after a conversion. */
  function After(conv: cchar, args: seq<Arg>): seq<Arg>
    requires conv != '%' ==> |args| > 0
  {
    if conv == '%' then args else args[1..]
  }

  predicate Matches(items: List<Item>, args: seq<Arg>) {
    match items
    case Nil => true
    case Cons(Literal(_), rest) => Matches(rest, args)
    case Cons(Unrecognised(mods), rest) => ModsMatch(mods, DEFAULT, args) && Matches(rest, Apply(mods, DEFAULT, args).1)
    case Cons(Escape(mods, conv), rest) =>
      && ModsMatch(mods, DEFAULT, args)
      && IsConversion(conv)
      && var (f, args') := Apply(mods, DEFAULT, args);
         ArgMatches(conv, f, args') && Matches(rest, After(conv, args'))
  }

  /** The characters of a parsed format. */
  function Render(items: List<Item>, args: seq<Arg>): seq<int>
    requires Matches(items, args)
  {
    match items
    case Nil => []
    case Cons(Literal(c), rest) => [c as int] + Render(rest, args)
    case Cons(Unrecognised(mods), rest) => ['%' as int] + Render(rest, Apply(mods, DEFAULT, args).1)
    case Cons(Escape(mods, conv), rest) =>
      var (f, args') := Apply(mods, DEFAULT, args);
      Convert(conv, f, args') + Render(rest, After(conv, args'))
  }

  /** 1 if some escape is an %e, whose text is printed by a format of its own, else 0. */
  function Nesting(items: List<Item>): (n: nat)
    ensures n <= 1
  {
    match items
    case Nil => 0
    case Cons(item, rest) => if item.Escape? && item.conv == 'e' then 1 else Nesting(rest)
  }
}
