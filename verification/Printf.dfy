/** The formatted output of lib/printfmt.c, printing into a bounded buffer. */
module Printf {
  import opened Arith
  import opened CTypes
  import opened Format

  /** What a char stores of an int. */
  function Low(c: int): cchar { (c % 0x100) as char }

  function Lows(s: seq<int>): (r: seq<cchar>)
    ensures |r| == |s| && forall k :: 0 <= k < |s| ==> r[k] == Low(s[k])
  {
    seq(|s|, i requires 0 <= i < |s| => Low(s[i]))
  }

  /** struct sprintbuf: p and end are the fields buf and ebuf as indices into memory; out is everything put so far. */
  class SprintBuf {
    const mem: array<cchar>
    const start: nat
    const end: nat
    var p: nat
    var cnt: int
    ghost var out: seq<int>
    ghost const before: seq<cchar>

    /** The first characters of out are in the buffer, as many as fit; the rest of memory is as it was. */
    ghost predicate Valid()
      reads this, mem
    {
      && start <= p <= end < mem.Length == |before|
      && cnt == |out|
      && p - start == Min(|out|, end - start)
      && mem[..] == before[..start] + Lows(out[..p - start]) + before[p..]
    }

    constructor (memory: array<cchar>, buf: nat, n: nat)
      requires 1 <= n && buf + n <= memory.Length
      ensures Valid() && out == [] && mem == memory && start == buf && end == buf + n - 1 && before == memory[..]
    {
      mem, start, end, p, cnt := memory, buf, buf + n - 1, buf, 0;
      out, before := [], memory[..];
    }

    /** sprintputch */
    method Put(ch: int)
      requires Valid()
      modifies this, mem
      ensures Valid() && out == old(out) + [ch]
    {
      cnt := cnt + 1;
      if p < end {
        mem[p] := Low(ch);
        p := p + 1;
      }
      out := out + [ch];
      assert p > old(p) ==> out[..p - start] == old(out[..p - start]) + [ch];
      assert p == old(p) ==> out[..p - start] == old(out[..p - start]);
    }
  }

  /** The padding loop of printnum, entered with --width. */
  method Pad(b: SprintBuf, width: int, padc: int)
    requires b.Valid()
    modifies b, b.mem
    ensures b.Valid() && b.out == old(b.out) + Repeat(padc, width)
  {
    var w := width;
    while w > 0
      invariant b.Valid() && b.out == old(b.out) + Repeat(padc, width - Max(0, w))
    {
      b.Put(padc);
      w := w - 1;
    }
  }

  /** A number field grows by its last digit. */
  lemma NumberFieldStep(num: nat, base: nat, width: int, padc: int)
    requires 2 <= base <= 16
    ensures 0 <= num % base < base
    ensures var last := [HEX[num % base] as int];
      NumberField(num, base, width, padc) ==
        (if num >= base then NumberField(num / base, base, width - 1, padc) else Repeat(padc, width - 1)) + last
  {
    if num >= base {
      DivShrinks(num, base);
      var pads := Repeat(padc, width - |Digits(num, base)|);
      var rest, last := Digits(num / base, base), [HEX[num % base] as int];
      hide Repeat, Digits;
      assert pads + (rest + last) == pads + rest + last;
    } else {
      DivUnique(num, base, 0, num);
    }
  }

  /** printnum */
  method Printnum(b: SprintBuf, num: uint64, base: nat, width: int, padc: int)
    requires b.Valid() && 2 <= base <= 16
    modifies b, b.mem
    decreases num
    ensures b.Valid() && b.out == old(b.out) + NumberField(num, base, width, padc)
  {
    hide NumberField, Digits, Repeat, SprintBuf.Valid;
    NumberFieldStep(num, base, width, padc);
    if num >= base {
      DivShrinks(num, base);
      Printnum(b, num / base, base, width - 1, padc);
    } else {
      Pad(b, width - 1, padc);
    }
    b.Put(HEX[num % base] as int);
  }

  /** strnlen, which counts in an int */
  method Strnlen(s: seq<cchar>, size: nat) returns (n: nat)
    requires IsCString(s) && Min(StrLen(s), size) <= INT_MAX
    ensures n == Min(StrLen(s), size)
  {
    n := 0;
    while n < size && s[n] != NUL
      invariant n <= size && n < |s|
    {
      n := n + 1;
    }
  }

  lemma RepeatNone(c: int, n: int)
    ensures n <= 0 ==> Repeat(c, n) == []
  {
  }

  lemma ShownStep(s: seq<cchar>, i: nat, alt: bool)
    requires i < |s|
    ensures Shown(s[..i + 1], alt) == Shown(s[..i], alt) + [ShownChar(s[i], alt)]
    ensures Shown(s[..0], alt) == []
  {
  }

  lemma StringFieldParts(s: seq<cchar>, f: Flags)
    requires IsCString(s)
    ensures var k := ShownLength(s, f.precision);
      StringField(s, f) ==
        (if f.padc == '-' then [] else Repeat(f.padc as int, f.width - k)) + Shown(s[..k], f.alt)
        + (if f.padc == '-' then Repeat(' ' as int, f.width - k) else [])
    ensures Shown(s[..0], f.alt) == []
  {
  }

  /** The character loop of the %s conversion. */
  method PrintChars(b: SprintBuf, s: seq<cchar>, f: Flags, width: int) returns (left: int)
    requires b.Valid() && IsCString(s)
    modifies b, b.mem
    ensures b.Valid() && b.out == old(b.out) + Shown(s[..ShownLength(s, f.precision)], f.alt)
    ensures left == width - ShownLength(s, f.precision)
  {
    hide SprintBuf.Valid, Shown;
    ghost var k := ShownLength(s, f.precision);
    var i, precision := 0, f.precision;
    left := width;
    ShownStep(s, 0, f.alt);
    while s[i] != NUL && (precision < 0 || precision - 1 >= 0)
      invariant b.Valid() && 0 <= i <= k && left == width - i
      invariant precision == if f.precision < 0 then f.precision else f.precision - i
      invariant b.out == old(b.out) + Shown(s[..i], f.alt)
      decreases k - i
    {
      var ch := SignedChar(s[i]);
      if precision >= 0 { precision := precision - 1; }
      ShownStep(s, i, f.alt);
      if f.alt && (ch < ' ' as int || ch > '~' as int) {
        b.Put('?' as int);
      } else {
        b.Put(ch);
      }
      i := i + 1;
      left := left - 1;
    }
  }

  /** The %s conversion. */
  method PrintString(b: SprintBuf, s: seq<cchar>, f: Flags)
    requires b.Valid() && IsCString(s) && |s| <= INT_MAX && INT_MIN <= f.precision
    modifies b, b.mem
    ensures b.Valid() && b.out == old(b.out) + StringField(s, f)
  {
    hide SprintBuf.Valid, Repeat, Shown, StringField;
    StringFieldParts(s, f);
    ghost var k := ShownLength(s, f.precision);
    RepeatNone(f.padc as int, f.width - k);
    var width := f.width;
    if width > 0 && f.padc != '-' {
      var n := Strnlen(s, if f.precision < 0 then f.precision + 0x1_0000_0000 else f.precision);
      Pad(b, width - n, f.padc as int);
      width := Min(width - n, 0);
    }
    width := PrintChars(b, s, f, width);
    RepeatNone(' ' as int, width);
    Pad(b, width, ' ' as int);
  }

  /** A number with its first digit ch already read. */
  method ReadNumber(fmt: seq<cchar>, at: nat) returns (n: nat, next: nat)
    requires IsCString(fmt) && at < |fmt| && IsDigit(fmt[at])
    ensures (n, next) == ScanNumber(fmt, at, 0)
  {
    var ch := fmt[at];
    next, n := at + 1, 0;
    while true
      invariant at < next < |fmt| && ch == fmt[next - 1] && IsDigit(ch)
      invariant ScanNumber(fmt, at, 0) == ScanNumber(fmt, next - 1, n)
      decreases |fmt| - next
    {
      n := n * 10 + DigitValue(ch);
      ch := fmt[next];
      if !IsDigit(ch) { break; }
      next := next + 1;
    }
  }

  /** What is left to read and to apply of the modifiers from 'first' on. */
  ghost predicate Pending(fmt: seq<cchar>, first: nat, args: seq<Arg>, next: nat, f: Flags, rest: seq<Arg>)
    requires IsCString(fmt) && first < |fmt| && ModsMatch(ScanMods(fmt, first).0, DEFAULT, args)
  {
    && first <= next < |fmt| && INT_MIN <= f.precision
    && var (mods, end) := ScanMods(fmt, next);
    && end == ScanMods(fmt, first).1
    && ModsMatch(mods, f, rest)
    && Apply(mods, f, rest) == Apply(ScanMods(fmt, first).0, DEFAULT, args)
  }

  lemma PendingStep(fmt: seq<cchar>, first: nat, args: seq<Arg>, next: nat, f: Flags, rest: seq<Arg>)
    requires IsCString(fmt) && first < |fmt| && ModsMatch(ScanMods(fmt, first).0, DEFAULT, args)
    requires Pending(fmt, first, args, next, f, rest)
    ensures if IsModifier(fmt[next]) then
        var (m, j) := ScanMod(fmt, next);
        && (m.Star? ==> IsWord(rest))
        && var (f', rest') := ApplyMod(m, f, rest);
           Pending(fmt, first, args, j, f', rest')
           && f'.precision >= INT_MIN && next < j < |fmt|
           && (m.Star? <==> fmt[next] == '*')
      else next == ScanMods(fmt, first).1 && (f, rest) == Apply(ScanMods(fmt, first).0, DEFAULT, args)
  {
  }

  /** The modifier cases of vprintfmt's switch. */
  method ReadModifier(fmt: seq<cchar>, at: nat, f0: Flags, args: seq<Arg>) returns (next: nat, f: Flags, rest: seq<Arg>)
    requires IsCString(fmt) && at < |fmt| && IsModifier(fmt[at])
    requires fmt[at] == '*' ==> IsWord(args)
    ensures next == ScanMod(fmt, at).1 && (f, rest) == ApplyMod(ScanMod(fmt, at).0, f0, args)
  {
    hide ScanNumber, Signed32;
    f, rest, next := f0, args, at + 1;
    var ch := fmt[at];
    if ch == '-' {
      f := f.(padc := '-');
    } else if ch == '0' {
      f := f.(padc := '0');
    } else if '1' <= ch <= '9' {
      var precision;
      precision, next := ReadNumber(fmt, at);
      f := SetNumber(f, precision);
    } else if ch == '*' {
      f, rest := SetNumber(f, Signed32(rest[0].w)), rest[1..];
    } else if ch == '.' {
      if f.width < 0 { f := f.(width := 0); }
    } else if ch == '#' {
      f := f.(alt := true);
    } else {
      f := f.(lflag := f.lflag + 1);
    }
  }

  /** The modifiers of an escape: the reswitch loop of vprintfmt, from the character after '%'.
      ch is the conversion character and next the position after it; rest are the arguments left. */
  method ReadModifiers(fmt: seq<cchar>, first: nat, args: seq<Arg>) returns (ch: cchar, next: nat, f: Flags, rest: seq<Arg>)
    requires IsCString(fmt) && first < |fmt| && ModsMatch(ScanMods(fmt, first).0, DEFAULT, args)
    ensures first < next <= |fmt| && next == ScanMods(fmt, first).1 + 1 && ch == fmt[next - 1]
    ensures (f, rest) == Apply(ScanMods(fmt, first).0, DEFAULT, args)
    ensures INT_MIN <= f.precision
  {
    f, rest, next := DEFAULT, args, first;
    ch := fmt[next];
    assert Pending(fmt, first, args, next, f, rest);
    hide Pending, ScanMods, ScanMod, ModsMatch, Apply, ApplyMod;
    PendingStep(fmt, first, args, next, f, rest);
    while IsModifier(ch)
      invariant first <= next < |fmt| && ch == fmt[next] && INT_MIN <= f.precision && Pending(fmt, first, args, next, f, rest)
      decreases |fmt| - next
    {
      PendingStep(fmt, first, args, next, f, rest);
      next, f, rest := ReadModifier(fmt, next, f, rest);
      ch := fmt[next];
    }
    PendingStep(fmt, first, args, next, f, rest);
    next := next + 1;
  }

  const ERROR_FORMAT: seq<cchar> := "error %d\0"
  const STRING_FORMAT: seq<cchar> := "%s\0"

  lemma ParseErrorFormat()
    ensures IsCString(ERROR_FORMAT)
    ensures Parse(ERROR_FORMAT, 0) == Cons(Literal('e'), Cons(Literal('r'), Cons(Literal('r'), Cons(Literal('o'),
      Cons(Literal('r'), Cons(Literal(' '), Cons(Escape(Nil, 'd'), Nil)))))))
  {
    var s := ERROR_FORMAT;
    assert Parse(s, 8) == Nil;
    assert ScanMods(s, 7) == (Nil, 7);
    assert Parse(s, 6) == Cons(Escape(Nil, 'd'), Nil);
    assert Parse(s, 4) == Cons(Literal('r'), Cons(Literal(' '), Parse(s, 6)));
    assert Parse(s, 2) == Cons(Literal('r'), Cons(Literal('o'), Parse(s, 4)));
  }

  lemma ParseStringFormat()
    ensures IsCString(STRING_FORMAT)
    ensures Parse(STRING_FORMAT, 0) == Cons(Escape(Nil, 's'), Nil)
  {
    assert Parse(STRING_FORMAT, 2) == Nil;
    assert ScanMods(STRING_FORMAT, 1) == (Nil, 1);
  }

  lemma RenderOne(conv: cchar, args: seq<Arg>)
    requires IsConversion(conv) && ArgMatches(conv, DEFAULT, args)
    ensures Matches(Cons(Escape(Nil, conv), Nil), args)
    ensures Render(Cons(Escape(Nil, conv), Nil), args) == Convert(conv, DEFAULT, args)
  {
    hide Convert, ArgMatches;
    assert Apply(Nil, DEFAULT, args) == (DEFAULT, args);
  }

  lemma RenderLiteral(c: cchar, rest: List<Item>, args: seq<Arg>, text: seq<int>)
    requires Matches(rest, args) && Render(rest, args) == text
    ensures Matches(Cons(Literal(c), rest), args) && Render(Cons(Literal(c), rest), args) == [c as int] + text
  {
  }

  lemma ConvertPlain(n: nat)
    requires n <= INT_MAX
    ensures Convert('d', DEFAULT, [Word(n)]) == Digits(n, 10)
  {
    hide Digits;
    assert Repeat(' ' as int, -1 - |Digits(n, 10)|) == [];
  }

  lemma RenderErrorFormat(err: nat)
    requires err <= INT_MAX
    ensures IsCString(ERROR_FORMAT) && Nesting(Parse(ERROR_FORMAT, 0)) == 0
    ensures Matches(Parse(ERROR_FORMAT, 0), [Word(err)])
    ensures Render(Parse(ERROR_FORMAT, 0), [Word(err)]) == Codes("error ") + Digits(err, 10)
  {
    hide Matches, Render, Digits, Parse, Convert, NumberField;
    ParseErrorFormat();
    var args, d := [Word(err)], Digits(err, 10);
    RenderOne('d', args);
    ConvertPlain(err);
    var i1 := Cons(Escape(Nil, 'd'), Nil);
    RenderLiteral(' ', i1, args, d);
    var i2, t2 := Cons(Literal(' '), i1), [' ' as int] + d;
    RenderLiteral('r', i2, args, t2);
    var i3, t3 := Cons(Literal('r'), i2), ['r' as int] + t2;
    RenderLiteral('o', i3, args, t3);
    var i4, t4 := Cons(Literal('o'), i3), ['o' as int] + t3;
    RenderLiteral('r', i4, args, t4);
    var i5, t5 := Cons(Literal('r'), i4), ['r' as int] + t4;
    RenderLiteral('r', i5, args, t5);
    var i6, t6 := Cons(Literal('r'), i5), ['r' as int] + t5;
    RenderLiteral('e', i6, args, t6);
    assert ['e' as int] + t6 == Codes("error ") + d;
  }

  lemma ShownPlain(s: seq<cchar>)
    requires forall k :: 0 <= k < |s| ==> s[k] as int < 128
    ensures Shown(s, false) == Codes(s)
  {
  }

  lemma RenderStringFormat(err: nat)
    requires 1 <= err <= 6
    ensures IsCString(STRING_FORMAT) && Nesting(Parse(STRING_FORMAT, 0)) == 0
    ensures Matches(Parse(STRING_FORMAT, 0), [Str(ErrorString(err))])
    ensures Render(Parse(STRING_FORMAT, 0), [Str(ErrorString(err))]) == ErrorText(err)
  {
    hide ErrorString;
    ParseStringFormat();
    var s := ErrorString(err);
    RenderOne('s', [Str(s)]);
    ShownPlain(s[..StrLen(s)]);
  }

  /** The %e conversion, which prints through a format of its own. The least int, negated, is still negative, and fault
      says that error_string is then indexed before its start. */
  method PrintError(b: SprintBuf, arg: int) returns (fault: bool)
    requires b.Valid() && INT_MIN <= arg <= INT_MAX
    modifies b, b.mem
    decreases 0, 2
    ensures b.Valid() && (fault <==> arg == INT_MIN)
    ensures b.out == if fault then old(b.out) else old(b.out) + ErrorText(Abs(arg))
  {
    hide SprintBuf.Valid, ErrorString, Render, Parse, Matches, Nesting, Codes, Digits;
    var err := if arg < 0 then Signed32(-arg) else arg;
    fault := false;
    if err < 0 {
      fault := true;
    } else if 1 <= err <= 6 {
      RenderStringFormat(err);
      Vprintfmt(b, STRING_FORMAT, [Str(ErrorString(err))]);
    } else {
      RenderErrorFormat(err);
      Vprintfmt(b, ERROR_FORMAT, [Word(err)]);
    }
  }

  /** The number conversions: sign or prefix, then the digits. */
  method PrintNumber(b: SprintBuf, conv: cchar, f: Flags, args: seq<Arg>)
    requires b.Valid() && conv in {'d', 'u', 'o', 'x', 'p'} && ArgMatches(conv, f, args)
    modifies b, b.mem
    ensures b.Valid() && b.out == old(b.out) + Convert(conv, f, args)
  {
    hide SprintBuf.Valid, NumberField;
    var num, base := Unsigned(args[0]), 10;
    if conv == 'd' {
      var value := Signed(args[0]);
      if value < 0 {
        b.Put('-' as int);
        value := -value;
      }
      num := value;
    } else if conv == 'o' {
      base := 8;
    } else if conv == 'p' {
      b.Put('0' as int);
      b.Put('x' as int);
      base := 16;
    } else if conv == 'x' {
      base := 16;
    }
    Printnum(b, num, base, f.width, f.padc as int);
    assert Codes("0x") == ['0' as int] + ['x' as int];
  }

  /** The conversions of vprintfmt's switch; rest are the arguments left. */
  method PrintEscape(b: SprintBuf, ch: cchar, f: Flags, ap: seq<Arg>, ghost nesting: nat) returns (rest: seq<Arg>)
    requires b.Valid() && IsConversion(ch) && ArgMatches(ch, f, ap) && INT_MIN <= f.precision
    requires ch == 'e' ==> nesting >= 1
    modifies b, b.mem
    decreases nesting, 0
    ensures b.Valid() && b.out == old(b.out) + Convert(ch, f, ap)
    ensures rest == After(ch, ap)
  {
    hide SprintBuf.Valid, ErrorText, StringField, NumberField;
    rest := ap;
    if ch == '%' {
      b.Put('%' as int);
      return;
    }
    rest := ap[1..];
    if ch == 'c' {
      b.Put(Signed32(ap[0].w));
    } else if ch == 'e' {
      var _ := PrintError(b, Signed32(ap[0].w));
    } else if ch == 's' {
      PrintString(b, if ap[0].Null? then "(null)\0" else ap[0].s, f);
    } else {
      PrintNumber(b, ch, f, ap);
    }
  }

  /** What is left to print at position f of a format. */
  ghost predicate Left(fmt: seq<cchar>, f: nat, ap: seq<Arg>, out: seq<int>, goal: seq<int>, nesting: nat)
    requires IsCString(fmt) && f < |fmt|
  {
    && Matches(Parse(fmt, f), ap)
    && out + Render(Parse(fmt, f), ap) == goal
    && Nesting(Parse(fmt, f)) <= nesting
  }

  lemma LeftStart(fmt: seq<cchar>, args: seq<Arg>, out: seq<int>)
    requires IsCString(fmt) && Matches(Parse(fmt, 0), args)
    ensures Left(fmt, 0, args, out, out + Render(Parse(fmt, 0), args), Nesting(Parse(fmt, 0)))
  {
  }

  lemma LeftLiteral(fmt: seq<cchar>, f: nat, ap: seq<Arg>, out: seq<int>, goal: seq<int>, nesting: nat)
    requires IsCString(fmt) && f < |fmt| && fmt[f] != '%' && Left(fmt, f, ap, out, goal, nesting)
    ensures if fmt[f] == NUL then out == goal else Left(fmt, f + 1, ap, out + [fmt[f] as int], goal, nesting)
  {
  }

  lemma LeftEscape(fmt: seq<cchar>, f: nat, ap: seq<Arg>, out: seq<int>, goal: seq<int>, nesting: nat)
    requires IsCString(fmt) && f < |fmt| && fmt[f] == '%' && Left(fmt, f, ap, out, goal, nesting)
    ensures f + 1 < |fmt| && ModsMatch(ScanMods(fmt, f + 1).0, DEFAULT, ap)
    ensures var (mods, end) := ScanMods(fmt, f + 1);
      var (flags, rest) := Apply(mods, DEFAULT, ap);
      if IsConversion(fmt[end]) then
        && (fmt[end] == 'e' ==> nesting >= 1)
        && ArgMatches(fmt[end], flags, rest) && end + 1 < |fmt|
        && Left(fmt, end + 1, After(fmt[end], rest), out + Convert(fmt[end], flags, rest), goal, nesting)
      else Left(fmt, f + 1, rest, out + ['%' as int], goal, nesting)
  {
    hide Convert;
  }

  lemma ModifiersEnd(fmt: seq<cchar>, first: nat)
    requires IsCString(fmt) && first < |fmt|
    ensures forall k :: first <= k < ScanMods(fmt, first).1 ==> fmt[k] != '%'
  {
  }

  /** The backtracking of an unrecognized escape stops after the escape's own '%'. */
  method BackUp(fmt: seq<cchar>, ghost first: nat, next: nat) returns (f: nat)
    requires 0 < first < next <= |fmt| && fmt[first - 1] == '%'
    requires forall k :: first <= k < next - 1 ==> fmt[k] != '%'
    ensures f == first
  {
    f := next - 1;
    while fmt[f - 1] != '%'
      invariant first <= f < next
      decreases f
    {
      f := f - 1;
    }
  }

  /** vprintfmt */
  method Vprintfmt(b: SprintBuf, fmt: seq<cchar>, args: seq<Arg>)
    requires b.Valid() && IsCString(fmt) && Matches(Parse(fmt, 0), args)
    modifies b, b.mem
    decreases Nesting(Parse(fmt, 0)), 1
    ensures b.Valid() && b.out == old(b.out) + Render(Parse(fmt, 0), args)
  {
    hide SprintBuf.Valid, Left, Render, Parse, Matches, Nesting, ScanMods, ModsMatch, Apply, ArgMatches, Convert;
    ghost var goal, nesting := b.out + Render(Parse(fmt, 0), args), Nesting(Parse(fmt, 0));
    LeftStart(fmt, args, b.out);
    var f, ap := 0, args;
    while true
      invariant b.Valid() && f < |fmt| && Left(fmt, f, ap, b.out, goal, nesting)
      decreases |fmt| - f
    {
      var ch := fmt[f];
      f := f + 1;
      while ch != '%'
        invariant b.Valid() && 0 < f <= |fmt| && ch == fmt[f - 1] && Left(fmt, f - 1, ap, b.out, goal, nesting)
        decreases |fmt| - f
      {
        LeftLiteral(fmt, f - 1, ap, b.out, goal, nesting);
        if ch == NUL { return; }
        b.Put(ch as int);
        ch := fmt[f];
        f := f + 1;
      }
      LeftEscape(fmt, f - 1, ap, b.out, goal, nesting);
      ghost var first := f;
      var flags;
      ch, f, flags, ap := ReadModifiers(fmt, f, ap);
      ModifiersEnd(fmt, first);
      if IsConversion(ch) {
        ap := PrintEscape(b, ch, flags, ap, nesting);
      } else {
        // unrecognized: print the '%', and go back to the character after it
        b.Put('%' as int);
        f := BackUp(fmt, first, f);
      }
    }
  }

  const E_INVAL := 3

  /** Memory after printing text into the n bytes at buf: as much of it as fits, and a NUL. */
  ghost function Printed(before: seq<cchar>, buf: nat, n: nat, text: seq<int>): seq<cchar>
    requires 1 <= n && buf + n <= |before|
  {
    var k := Min(|text|, n - 1);
    before[..buf] + Lows(text[..k]) + [NUL] + before[buf + k + 1..]
  }

  lemma TerminatedIsPrinted(before: seq<cchar>, buf: nat, n: nat, text: seq<int>, p: nat, printed: seq<cchar>)
    requires 1 <= n && buf + n <= |before| && p == buf + Min(|text|, n - 1)
    requires printed == before[..buf] + Lows(text[..p - buf]) + before[p..]
    ensures printed[p := NUL] == Printed(before, buf, n, text)
  {
  }

  /** vsnprintf; addresses are indices into memory and the null pointer is 0. */
  method Vsnprintf(mem: array<cchar>, buf: nat, n: int, fmt: seq<cchar>, args: seq<Arg>) returns (rc: int)
    requires IsCString(fmt) && Matches(Parse(fmt, 0), args)
    requires buf != 0 && n >= 1 ==> buf + n <= mem.Length
    modifies mem
    ensures buf == 0 || n < 1 ==> rc == -3 && mem[..] == old(mem[..])
    ensures buf != 0 && n >= 1 ==>
      var text := Render(Parse(fmt, 0), args);
      rc == |text| && mem[..] == Printed(old(mem[..]), buf, n, text)
  {
    hide Parse, Render, Matches, Printed;
    if buf == 0 || n < 1 {
      return -E_INVAL;
    }
    var b := new SprintBuf(mem, buf, n);
    Vprintfmt(b, fmt, args);
    ghost var text, printed := Render(Parse(fmt, 0), args), mem[..];
    assert b.out == text;
    TerminatedIsPrinted(b.before, buf, n, text, b.p, printed);
    mem[b.p] := NUL;
    assert mem[..] == printed[b.p := NUL];
    return b.cnt;
  }

  // ---------- What the fields look like ----------

  /** A number field is padded to at least its width, and its digits come last. */
  lemma NumberFieldLayout(num: nat, base: nat, width: int, padc: int)
    requires 2 <= base <= 16
    ensures var field, d := NumberField(num, base, width, padc), |Digits(num, base)|;
      && |field| == Max(width, d)
      && field[|field| - d..] == Digits(num, base)
      && forall k :: 0 <= k < |field| - d ==> field[k] == padc
  {
  }

  /** The minus sign is not counted in the width: "%2d" prints three characters for -1. */
  lemma MinusOutsideWidth(f: Flags, args: seq<Arg>)
    requires ArgMatches('d', f, args) && Signed(args[0]) < 0
    ensures |Convert('d', f, args)| == 1 + Max(f.width, |Digits(Abs(Signed(args[0])), 10)|)
    ensures Convert('d', DEFAULT.(width := 2), [Word(0xFFFF_FFFF)]) == ['-' as int, ' ' as int, '1' as int]
  {
    NumberFieldLayout(Abs(Signed(args[0])), 10, f.width, f.padc as int);
    assert Digits(1, 10) == ['1' as int] && Repeat(' ' as int, 1) == [' ' as int];
  }

  /** The minus flag pads a number on the left: "%-3d" prints "--7". */
  lemma MinusFlagPadsLeft()
    ensures Convert('d', DEFAULT.(padc := '-', width := 3), [Word(7)]) == ['-' as int, '-' as int, '7' as int]
  {
    assert Digits(7, 10) == ['7' as int] && Repeat('-' as int, 2) == ['-' as int, '-' as int];
  }

  /** A string field shows a prefix of the string, padded to at least its width on one side. */
  lemma StringFieldLayout(s: seq<cchar>, f: Flags)
    requires IsCString(s)
    ensures var field, k := StringField(s, f), ShownLength(s, f.precision);
      && |field| == Max(f.width, k)
      && (f.padc == '-' ==> field[..k] == Shown(s[..k], f.alt) && forall j :: k <= j < |field| ==> field[j] == ' ' as int)
      && (f.padc != '-' ==> field[|field| - k..] == Shown(s[..k], f.alt)
                            && forall j :: 0 <= j < |field| - k ==> field[j] == f.padc as int)
  {
  }

  /** Characters without a '%' are copied. */
  lemma {:induction false} LiteralRun(fmt: seq<cchar>, i: nat, j: nat, args: seq<Arg>)
    requires IsCString(fmt) && i <= j < |fmt| && forall k :: i <= k < j ==> fmt[k] != '%'
    requires Matches(Parse(fmt, j), args)
    ensures Matches(Parse(fmt, i), args) && Render(Parse(fmt, i), args) == Codes(fmt[i..j]) + Render(Parse(fmt, j), args)
    decreases j - i
  {
    hide ScanMods, ModsMatch, Apply, Convert, ArgMatches;
    if i == j {
      assert fmt[i..j] == [];
    } else {
      LiteralRun(fmt, i + 1, j, args);
      assert fmt[i..j] == [fmt[i]] + fmt[i + 1..j];
      assert Codes(fmt[i..j]) == [fmt[i] as int] + Codes(fmt[i + 1..j]);
    }
  }

  lemma RenderUnrecognised(fmt: seq<cchar>, i: nat, args: seq<Arg>)
    requires IsCString(fmt) && i < |fmt| && fmt[i] == '%' && Matches(Parse(fmt, i), args)
    requires !IsConversion(fmt[ScanMods(fmt, i + 1).1])
    ensures var (mods, j) := ScanMods(fmt, i + 1);
      && ModsMatch(mods, DEFAULT, args)
      && var rest := Apply(mods, DEFAULT, args).1;
         Matches(Parse(fmt, i + 1), rest) && Render(Parse(fmt, i), args) == ['%' as int] + Render(Parse(fmt, i + 1), rest)
  {
    hide ScanMods, Apply, ApplyMod, Convert, ArgMatches;
  }

  /** An escape with an unknown conversion character is printed as it stands, up to that character. */
  lemma UnrecognisedIsVerbatim(fmt: seq<cchar>, i: nat, args: seq<Arg>)
    requires IsCString(fmt) && i < |fmt| && fmt[i] == '%' && Matches(Parse(fmt, i), args)
    requires !IsConversion(fmt[ScanMods(fmt, i + 1).1])
    ensures var (mods, j) := ScanMods(fmt, i + 1);
      && ModsMatch(mods, DEFAULT, args)
      && var rest := Apply(mods, DEFAULT, args).1;
         Matches(Parse(fmt, j), rest) && Render(Parse(fmt, i), args) == Codes(fmt[i..j]) + Render(Parse(fmt, j), rest)
  {
    hide ScanMods, ModsMatch, Apply, ApplyMod, Parse, Render, Matches, Convert, ArgMatches;
    RenderUnrecognised(fmt, i, args);
    var (mods, j) := ScanMods(fmt, i + 1);
    ModifiersEnd(fmt, i + 1);
    var rest := Apply(mods, DEFAULT, args).1;
    MatchesLater(fmt, i + 1, j, rest);
    LiteralRun(fmt, i + 1, j, rest);
    assert Codes(fmt[i..j]) == ['%' as int] + Codes(fmt[i + 1..j]);
  }

  lemma {:induction false} MatchesLater(fmt: seq<cchar>, i: nat, j: nat, args: seq<Arg>)
    requires IsCString(fmt) && i <= j < |fmt| && forall k :: i <= k < j ==> fmt[k] != '%'
    requires Matches(Parse(fmt, i), args)
    ensures Matches(Parse(fmt, j), args)
    decreases j - i
  {
    if i < j { MatchesLater(fmt, i + 1, j, args); }
  }
}
