/** The loop of the kernel monitor (kern/monitor.c): a line is typed, edited, split and run, and then the next one. */
module Shell {
  import opened CTypes
  import Format
  import opened Monitor
  import opened Readline
  import opened Screen

  const PROMPT: seq<cchar> := ['K', '>', ' ']

  // ---------- What typed keys mean ----------

  /** What is done with a line, and the strings in argv. */
  datatype Turn = Turn(out: Outcome, args: seq<seq<byte>>)

  /** The words of a line from position i on. */
  function WordStrings(s: seq<byte>, i: nat): seq<seq<byte>>
    requires i <= |s|
    decreases |s| - i
  {
    var a := WordStart(s, i);
    if a == |s| then [] else [s[a..WordEnd(s, a)]] + WordStrings(s, WordEnd(s, a))
  }

  /** The command named by the first word is called with all words. */
  function Meaning(line: seq<byte>): Turn {
    var words := WordStrings(line, 0);
    if |words| >= MAXARGS then Turn(TooMany, [])
    else if words == [] then Turn(Nothing, [])
    else Turn(Command(words[0]), words)
  }

  // ---------- Words, said with the characters themselves ----------

  /** A tab, a newline, a carriage return or a space */
  predicate Separates(c: byte) { c in {9, 10, 13, 32} }

  lemma WordStartIs(s: seq<byte>, i: nat, j: nat)
    requires i <= j <= |s| && (forall k :: i <= k < j ==> IsBlank(s[k])) && (j < |s| ==> !IsBlank(s[j]))
    ensures WordStart(s, i) == j
  {
  }

  lemma WordEndIs(s: seq<byte>, i: nat, j: nat)
    requires i <= j <= |s| && (forall k :: i <= k < j ==> !IsBlank(s[k])) && (j < |s| ==> IsBlank(s[j]))
    ensures WordEnd(s, i) == j
  {
  }

  /** The words of the rest of a line. */
  lemma {:induction false} WordsShift(s: seq<byte>, b: seq<byte>, off: nat, i: nat)
    requires off + i <= |s| && s[off..] == b
    ensures WordStrings(s, off + i) == WordStrings(b, i)
    decreases |b| - i
  {
    hide IsBlank, WordStart, WordEnd, WordStrings;
    var a := WordStart(b, i);
    RestStart(s, b, off, i);
    NextWord(b, i);
    NextWord(s, off + i);
    if a < |b| {
      RestEnd(s, b, off, a);
      RestSlice(s, b, off, a, WordEnd(b, a));
      WordsShift(s, b, off, WordEnd(b, a));
    }
  }

  lemma NextWord(s: seq<byte>, i: nat)
    requires i <= |s|
    ensures var a := WordStart(s, i);
      if a == |s| then WordStrings(s, i) == []
      else !IsBlank(s[a]) && WordStrings(s, i) == [s[a..WordEnd(s, a)]] + WordStrings(s, WordEnd(s, a))
  {
    hide IsBlank;
  }

  lemma RestSlice(s: seq<byte>, b: seq<byte>, off: nat, i: nat, j: nat)
    requires off <= |s| && s[off..] == b && i <= j <= |b|
    ensures s[off + i..off + j] == b[i..j]
  {
    forall k | off <= k < |s| ensures s[k] == b[k - off] {
      assert s[k] == s[off..][k - off];
    }
  }

  lemma RestStart(s: seq<byte>, b: seq<byte>, off: nat, i: nat)
    requires off + i <= |s| && s[off..] == b
    ensures WordStart(s, off + i) == off + WordStart(b, i)
  {
    hide IsBlank;
    forall k | off <= k < |s| ensures s[k] == b[k - off] {
      assert s[k] == s[off..][k - off];
    }
    WordStartIs(s, off + i, off + WordStart(b, i));
  }

  lemma RestEnd(s: seq<byte>, b: seq<byte>, off: nat, i: nat)
    requires off + i <= |s| && s[off..] == b && i < |b| && !IsBlank(b[i])
    ensures WordEnd(s, off + i) == off + WordEnd(b, i) && i < WordEnd(b, i)
  {
    hide IsBlank;
    forall k | off <= k < |s| ensures s[k] == b[k - off] {
      assert s[k] == s[off..][k - off];
    }
    WordEndIs(s, off + i, off + WordEnd(b, i));
  }

  /** The words up to a separator, and then those after it. */
  lemma {:induction false} WordsUpTo(s: seq<byte>, a: seq<byte>, i: nat)
    requires i <= |a| < |s| && s[..|a|] == a && IsBlank(s[|a|])
    ensures WordStrings(s, i) == WordStrings(a, i) + WordStrings(s, |a| + 1)
    decreases |a| - i
  {
    hide IsBlank, WordStart, WordEnd, WordStrings;
    var w := WordStart(a, i);
    FirstPart(s, a, i);
    NextWord(s, i);
    NextWord(a, i);
    NextWord(s, |a| + 1);
    if w < |a| {
      var e := WordEnd(a, w);
      PrefixSlice(s, a, w, e);
      WordsUpTo(s, a, e);
      Regroup([a[w..e]], WordStrings(a, e), WordStrings(s, |a| + 1), WordStrings(a, i), WordStrings(s, i));
    } else {
      Regroup([], [], WordStrings(s, |a| + 1), WordStrings(a, i), WordStrings(s, i));
    }
  }

  lemma PrefixSlice(s: seq<byte>, a: seq<byte>, i: nat, j: nat)
    requires |a| <= |s| && s[..|a|] == a && i <= j <= |a|
    ensures s[i..j] == a[i..j]
  {
    forall k | 0 <= k < |a| ensures s[k] == a[k] {
      assert s[k] == s[..|a|][k];
    }
  }

  lemma FirstPart(s: seq<byte>, a: seq<byte>, i: nat)
    requires i <= |a| < |s| && s[..|a|] == a && IsBlank(s[|a|])
    ensures var w := WordStart(a, i);
      if w < |a| then WordStart(s, i) == w && WordEnd(s, w) == WordEnd(a, w) > w
      else WordStart(s, i) == WordStart(s, |a| + 1)
  {
    hide IsBlank;
    forall k | 0 <= k < |a| ensures s[k] == a[k] {
      assert s[k] == s[..|a|][k];
    }
    var w := WordStart(a, i);
    if w < |a| {
      WordStartIs(s, i, w);
      WordEndIs(s, w, WordEnd(a, w));
    } else {
      WordStartIs(s, i, WordStart(s, |a| + 1));
    }
  }

  /** A separator cuts a line in two. */
  lemma SeparatorCuts(a: seq<byte>, c: byte, b: seq<byte>)
    requires Separates(c)
    ensures WordStrings(a + [c] + b, 0) == WordStrings(a, 0) + WordStrings(b, 0)
  {
    hide WordStrings;
    var s := a + [c] + b;
    CutParts(a, c, b);
    WordsUpTo(s, a, 0);
    WordsShift(s, b, |a| + 1, 0);
  }

  lemma CutParts(a: seq<byte>, c: byte, b: seq<byte>)
    ensures var s := a + [c] + b; |a| + 1 <= |s| && s[|a|] == c && s[|a| + 1..] == b && s[..|a|] == a
  {
  }

  /** Characters without a separator are one word; nothing is no word. */
  lemma WordAlone(a: seq<byte>)
    requires forall k :: 0 <= k < |a| ==> !Separates(a[k])
    ensures WordStrings(a, 0) == if a == [] then [] else [a]
  {
    if a != [] {
      WordStartIs(a, 0, 0);
      WordEndIs(a, 0, |a|);
      assert a[0..|a|] == a;
      WordStartIs(a, |a|, |a|);
    }
  }

  /** Which command is called: help is 0 and kerninfo 1; 16 words are too many. */
  lemma CommandsByName(line: seq<byte>)
    ensures var words := WordStrings(line, 0);
      Meaning(line) ==
        if |words| >= 16 then Turn(TooMany, [])
        else if |words| == 0 then Turn(Nothing, [])
        else if words[0] == [0x68, 0x65, 0x6c, 0x70] then Turn(Invoke(0), words)
        else if words[0] == [0x6b, 0x65, 0x72, 0x6e, 0x69, 0x6e, 0x66, 0x6f] then Turn(Invoke(1), words)
        else Turn(Unknown, words)
  {
    hide WordStrings;
    var words := WordStrings(line, 0);
    if words != [] {
      NamesWithNul(words[0]);
    }
  }

  lemma NamesWithNul(name: seq<byte>)
    ensures Command(name) ==
      if name == [0x68, 0x65, 0x6c, 0x70] then Invoke(0)
      else if name == [0x6b, 0x65, 0x72, 0x6e, 0x69, 0x6e, 0x66, 0x6f] then Invoke(1)
      else Unknown
  {
    assert (name + [0])[..|name|] == name && HELP[..4] == [0x68, 0x65, 0x6c, 0x70];
    assert KERNINFO[..8] == [0x6b, 0x65, 0x72, 0x6e, 0x69, 0x6e, 0x66, 0x6f];
  }

  /** "help" with an argument */
  lemma HelpWithArgument(c: byte, b: seq<byte>)
    requires Separates(c) && b != [] && forall k :: 0 <= k < |b| ==> !Separates(b[k])
    ensures Meaning([0x68, 0x65, 0x6c, 0x70] + [c] + b) == Turn(Invoke(0), [[0x68, 0x65, 0x6c, 0x70], b])
  {
    hide WordStrings, Meaning;
    var help: seq<byte> := [0x68, 0x65, 0x6c, 0x70];
    SeparatorCuts(help, c, b);
    WordAlone(help);
    WordAlone(b);
    CommandsByName(help + [c] + b);
  }

  // ---------- Sessions ----------

  /** Each line that was ended is edited and run. */
  function Session(keys: seq<byte>): seq<Turn>
    decreases |keys|
  {
    var n := Used(keys, 0);
    if n == |keys| then [] else [Meaning(Edited(keys[..n]))] + Session(keys[n + 1..])
  }

  /** The keys after the last line end. */
  function Pending(keys: seq<byte>): seq<byte>
    decreases |keys|
  {
    var n := Used(keys, 0);
    if n == |keys| then keys else Pending(keys[n + 1..])
  }

  /** The last line starts at a position: after a line end or at the start, and with no line end from there on. */
  ghost predicate StartsLastLine(keys: seq<byte>, at: int) {
    && 0 <= at <= |keys| && (at > 0 ==> EndsLine(keys[at - 1]))
    && forall k :: at <= k < |keys| ==> !EndsLine(keys[k])
  }

  lemma LaterLine(keys: seq<byte>, n: nat, at: nat)
    requires n < |keys| && EndsLine(keys[n]) && StartsLastLine(keys[n + 1..], at)
    ensures StartsLastLine(keys, n + 1 + at) && keys[n + 1..][at..] == keys[n + 1 + at..]
  {
    hide EndsLine;
    var tail := keys[n + 1..];
    forall k | n + 1 + at <= k < |keys| ensures !EndsLine(keys[k]) {
      assert keys[k] == tail[k - n - 1];
    }
    assert at > 0 ==> keys[n + at] == tail[at - 1];
  }

  lemma {:induction false} PendingIs(keys: seq<byte>)
    ensures var at := |keys| - |Pending(keys)|; 0 <= at && StartsLastLine(keys, at) && Pending(keys) == keys[at..]
    decreases |keys|
  {
    hide StartsLastLine;
    var n := Used(keys, 0);
    if n < |keys| {
      var tail := keys[n + 1..];
      PendingIs(tail);
      LaterLine(keys, n, |tail| - |Pending(tail)|);
    } else {
      WholeLine(keys);
    }
  }

  lemma WholeLine(keys: seq<byte>)
    requires Used(keys, 0) == |keys|
    ensures StartsLastLine(keys, 0) && keys[0..] == keys
  {
  }

  lemma Concat<T>(a: seq<T>, b: seq<T>, c: seq<T>)
    ensures a + (b + c) == a + b + c
  {
  }

  lemma SessionStep(keys: seq<byte>)
    ensures var n := Used(keys, 0);
      if n == |keys| then Session(keys) == [] && Pending(keys) == keys
      else
        && Session(keys) == [Meaning(Edited(keys[..n]))] + Session(keys[n + 1..])
        && Pending(keys) == Pending(keys[n + 1..])
  {
    hide Meaning, Edited;
  }

  lemma {:induction false} UsedPrefix(a: seq<byte>, b: seq<byte>, i: nat)
    requires i <= |a| && Used(a, i) < |a|
    ensures Used(a + b, i) == Used(a, i)
    decreases |a| - i
  {
    if !EndsLine(a[i]) { UsedPrefix(a, b, i + 1); }
  }

  lemma FirstLine(a: seq<byte>, b: seq<byte>)
    requires Used(a, 0) < |a|
    ensures Used(a + b, 0) == Used(a, 0)
    ensures var n := Used(a, 0); (a + b)[..n] == a[..n] && (a + b)[n + 1..] == a[n + 1..] + b
  {
    UsedPrefix(a, b, 0);
  }

  lemma FirstTurn(a: seq<byte>, b: seq<byte>)
    requires Used(a, 0) < |a|
    ensures var n := Used(a, 0);
      var turn, rest := [Meaning(Edited(a[..n]))], a[n + 1..];
      && Session(a) == turn + Session(rest) && Session(a + b) == turn + Session(rest + b)
      && Pending(a) == Pending(rest) && Pending(a + b) == Pending(rest + b)
  {
    hide Meaning, Edited, Session, Pending, Used;
    FirstLine(a, b);
    SessionStep(a);
    SessionStep(a + b);
  }

  /** It does not matter how ended lines are grouped: what is typed first is run first, and leaves nothing behind. */
  lemma {:induction false} SessionConcat(a: seq<byte>, b: seq<byte>)
    requires Pending(a) == []
    ensures Session(a + b) == Session(a) + Session(b) && Pending(a + b) == Pending(b)
    decreases |a|
  {
    hide Meaning, Edited, Session, Pending, Used;
    SessionStep(a);
    WholeKeys(a);
    if a == [] {
      NothingFirst(b);
    } else {
      FirstTurn(a, b);
      var n := Used(a, 0);
      var turn, rest := [Meaning(Edited(a[..n]))], a[n + 1..];
      SessionConcat(rest, b);
      Regroup(turn, Session(rest), Session(b), Session(a), Session(a + b));
    }
  }

  lemma Regroup<T>(x: seq<T>, y: seq<T>, z: seq<T>, xy: seq<T>, xyz: seq<T>)
    requires xy == x + y && xyz == x + (y + z)
    ensures xyz == xy + z
  {
  }

  lemma NothingFirst(b: seq<byte>)
    ensures Session([] + b) == Session([]) + Session(b) && Pending([] + b) == Pending(b)
  {
    hide Meaning, Edited;
    assert [] + b == b;
    assert [] + Session(b) == Session(b);
  }

  // ---------- What a command finds in argv ----------

  /** The C string at a position, without its NUL. */
  function StringAt(m: seq<byte>, p: nat): seq<byte>
    requires p <= |m|
    decreases |m| - p
  {
    if p == |m| || m[p] == 0 then [] else [m[p]] + StringAt(m, p + 1)
  }

  lemma {:induction false} StringAtIs(m: seq<byte>, a: nat, b: nat)
    requires a <= b < |m| && m[b] == 0 && 0 !in m[a..b]
    ensures StringAt(m, a) == m[a..b]
    decreases b - a
  {
    if a < b {
      assert m[a] == m[a..b][0] && m[a..b] == [m[a]] + m[a + 1..b];
      StringAtIs(m, a + 1, b);
    }
  }

  lemma {:induction false} WordStringsAre(s: seq<byte>, i: nat)
    requires i <= |s|
    ensures var words, strings := Words(s, i), WordStrings(s, i);
      && |strings| == |words|
      && forall k :: 0 <= k < |words| ==> words[k].0 <= words[k].1 <= |s| && strings[k] == s[words[k].0..words[k].1]
    decreases |s| - i
  {
    var a := WordStart(s, i);
    if a < |s| { WordStringsAre(s, WordEnd(s, a)); }
  }

  /** After the split, argv points to the words. */
  lemma SplitStrings(before: seq<byte>, after: seq<byte>, s: seq<byte>, argc: nat, argv: seq<Ptr>)
    requires |argv| == MAXARGS && |s| < |before| && Split(before, after, s, argc, argv, false)
    ensures argc == |WordStrings(s, 0)| < MAXARGS
    ensures forall k :: 0 <= k < argc ==>
      argv[k].To? && argv[k].at <= |after| && StringAt(after, argv[k].at) == WordStrings(s, 0)[k]
  {
    hide Words, WordStrings, StringAt, Blanked;
    WordStringsAre(s, 0);
    var words := Words(s, 0);
    forall k | 0 <= k < argc
      ensures argv[k].To? && argv[k].at <= |after| && StringAt(after, argv[k].at) == WordStrings(s, 0)[k]
    {
      assert WordAt(after, s, words[k].0, words[k].1);
      StringAtIs(after, words[k].0, words[k].1);
    }
  }

  /** The strings that a command finds in argv. */
  method ArgStrings(buf: array<byte>, argv: array<Ptr>, argc: nat) returns (args: seq<seq<byte>>)
    requires argc <= argv.Length && forall k :: 0 <= k < argc ==> argv[k].To? && argv[k].at <= buf.Length
    ensures |args| == argc && forall k :: 0 <= k < argc ==> args[k] == StringAt(buf[..], argv[k].at)
  {
    args := [];
    for i := 0 to argc
      invariant |args| == i && forall k :: 0 <= k < i ==> args[k] == StringAt(buf[..], argv[k].at)
    {
      args := args + [StringAt(buf[..], argv[i].at)];
    }
  }

  // ---------- The loop ----------

  /** runcmd on the line in buf, with what the command finds in argv. */
  method RunLine(buf: array<byte>, ghost line: seq<byte>) returns (turn: Turn)
    requires IsLine(buf[..], line)
    modifies buf
    ensures turn == Meaning(line)
  {
    hide Words, WordStrings, Split, StringAt;
    ghost var before := buf[..];
    WordStringsAre(line, 0);
    var out, argc, argv := RunCmd(buf, line);
    if out.TooMany? {
      return Turn(TooMany, []);
    }
    SplitStrings(before, buf[..], line, argc, argv[..]);
    forall k | 0 <= k < argc ensures argv[k].To? && argv[k].at <= buf.Length {
      assert argv[k] == argv[..][k];
    }
    var args := ArgStrings(buf, argv, argc);
    assert args == WordStrings(line, 0);
    turn := Turn(out, args);
  }

  /** A line that readline leaves in buf. */
  lemma EditedIsLine(m: seq<byte>, line: seq<byte>)
    requires |line| < |m| && m[..|line|] == line && m[|line|] == 0 && forall k :: 0 <= k < |line| ==> line[k] >= SPACE
    ensures IsLine(m, line)
  {
  }

  /** What a command, or the complaint about the line, prints. */
  method Reply(con: Cga, text: seq<int>)
    requires con.Valid()
    modifies con, con.crt_buf
    ensures con.Valid()
  {
    hide Page.Put;
    for k := 0 to |text|
      invariant con.Valid()
    {
      con.Putc(text[k]);
    }
  }

  /** "K> " is on the page just before the last i characters. */
  ghost predicate PromptBefore(p: Page, i: nat) {
    && 3 <= p.pos - i <= p.pos <= |p.cells|
    && p.cells[p.pos - i - 3] == 0x074B && p.cells[p.pos - i - 2] == 0x073E && p.cells[p.pos - i - 1] == 0x0720
  }

  lemma PromptIsPut(p: Page)
    requires p.Valid()
    ensures p.PutAll(Format.Shown(PROMPT, false)) == p.Put(0x4B).Put(0x3E).Put(0x20)
  {
    hide Page.Put;
    var codes := Format.Shown(PROMPT, false);
    assert codes == [0x4B, 0x3E, 0x20] && codes[..2] == [0x4B, 0x3E];
    assert [0x4B, 0x3E][..1] == [0x4B] && [0x4B][..0] == [];
    assert p.PutAll([0x4B]) == p.PutAll([]).Put(0x4B);
    assert p.PutAll([0x4B, 0x3E]) == p.PutAll([0x4B]).Put(0x3E);
  }

  lemma PromptShows(p: Page)
    requires p.Valid()
    ensures PromptBefore(p.PutAll(Format.Shown(PROMPT, false)), 0)
  {
    hide Page.Put, ShowsLine;
    PromptIsPut(p);
    ShowsNothing(p);
    EchoShows(p, p.pos, [], p, 0x4B);
    assert [] + [0x4B] == [0x4B];
    EchoShows(p, p.pos, [0x4B], p.Put(0x4B), 0x3E);
    assert [0x4B] + [0x3E] == [0x4B, 0x3E];
    EchoShows(p, p.pos, [0x4B, 0x3E], p.Put(0x4B).Put(0x3E), 0x20);
    assert [0x4B, 0x3E] + [0x20] == [0x4B, 0x3E, 0x20];
    PromptCells(p, p.Put(0x4B).Put(0x3E).Put(0x20));
  }

  lemma PromptCells(p: Page, q: Page)
    requires p.Valid() && ShowsLine(p, p.pos, [0x4B, 0x3E, 0x20], q)
    ensures PromptBefore(q, 0)
  {
    ShownBlackOnWhite(0x4B);
    ShownBlackOnWhite(0x3E);
    ShownBlackOnWhite(0x20);
    hide Shows;
    var line: seq<byte> := [0x4B, 0x3E, 0x20];
    assert forall k :: 0 <= k < 3 ==> q.cells[p.pos + k] == Shows(line[k]);
    assert line[0] == 0x4B && line[1] == 0x3E && line[2] == 0x20;
  }

  lemma PromptStays(prompted: Page, line: seq<byte>, q: Page)
    requires PromptBefore(prompted, 0) && ShowsLine(prompted, prompted.pos, line, q)
    ensures PromptBefore(q, |line|)
  {
    assert forall k :: 0 <= k < prompted.pos ==> q.cells[..prompted.pos][k] == prompted.cells[..prompted.pos][k];
  }

  /** One turn of monitor's loop: a line is read and, if it was ended, run. */
  method ReadAndRun(con: Cga, buf: array<byte>, keys: seq<byte>) returns (done: bool, i: nat, turn: Turn)
    requires con.Valid() && buf.Length == BUFLEN && buf != con.crt_buf as object
    modifies con, con.crt_buf, buf
    ensures con.Valid() && (done <==> Used(keys, 0) < |keys|)
    ensures done ==> turn == Meaning(Edited(keys[..Used(keys, 0)]))
    ensures !done ==> i == |Edited(keys)| < BUFLEN && buf[..i] == Edited(keys) && OnScreen(con, buf, i)
    ensures !done ==> PromptBefore(con.page, i)
  {
    hide Meaning, Edited, Shows, ShowsLine, PromptBefore, Page.Put, Page.PutAll, IsLine, Used;
    PromptShows(con.page);
    hide Cga.Valid;
    ghost var prompted, page;
    done, i, prompted, page := ReadLine(con, buf, PROMPT, keys);
    ghost var line := Edited(keys[..Used(keys, 0)]);
    turn := Turn(Nothing, []);
    if done {
      EditedPrints(keys[..Used(keys, 0)]);
      EditedIsLine(buf[..], line);
      turn := RunLine(buf, line);
    } else {
      WholeKeys(keys);
      PromptStays(prompted, line, page);
    }
  }

  lemma WholeKeys(keys: seq<byte>)
    ensures Used(keys, 0) <= |keys| && (Used(keys, 0) == |keys| ==> keys[..Used(keys, 0)] == keys)
  {
  }

  lemma EditedPrints(keys: seq<byte>)
    ensures |Edited(keys)| < BUFLEN && forall k :: 0 <= k < |Edited(keys)| ==> Edited(keys)[k] >= SPACE
  {
  }

  /** The first i characters of the buffer are on the screen, just before the cursor. */
  ghost predicate OnScreen(con: Cga, buf: array<byte>, i: nat)
    reads con, con.crt_buf, buf
  {
    && i <= buf.Length && i <= con.crt_pos < con.crt_buf.Length
    && forall k :: 0 <= k < i ==> con.crt_buf[con.crt_pos - i + k] == Shows(buf[k])
  }

  /** monitor, as far as the given keys go, with everything that runcmd prints given in replies. Each ended line is run,
      and what has been typed after the last one is in the buffer and on the screen, whatever was printed in between. */
  method KernelMonitor(con: Cga, buf: array<byte>, keys: seq<byte>, replies: seq<seq<int>>)
    returns (turns: seq<Turn>, i: nat)
    requires con.Valid() && buf.Length == BUFLEN && buf != con.crt_buf as object
    modifies con, con.crt_buf, buf
    ensures con.Valid() && turns == Session(keys)
    ensures i == |Edited(Pending(keys))| < BUFLEN && buf[..i] == Edited(Pending(keys)) && OnScreen(con, buf, i)
    ensures PromptBefore(con.page, i)
  {
    hide Meaning, Edited, OnScreen, PromptBefore, Cga.Valid, Session, Pending, Used;
    turns := [];
    var rest := keys;
    while true
      invariant con.Valid()
      invariant Session(keys) == turns + Session(rest) && Pending(keys) == Pending(rest)
      decreases |rest|
    {
      SessionStep(rest);
      WholeKeys(rest);
      var n := Used(rest, 0);
      var done, turn;
      done, i, turn := ReadAndRun(con, buf, rest);
      if !done {
        return;
      }
      Concat(turns, [turn], Session(rest[n + 1..]));
      turns := turns + [turn];
      if |turns| <= |replies| {
        Reply(con, replies[|turns| - 1]);
      }
      rest := rest[n + 1..];
    }
  }
}
