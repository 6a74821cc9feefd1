/** The command interpreter of kern/monitor.c, which splits its buffer in place. */
module Monitor {
  import opened CTypes

  const MAXARGS := 16

  /** "help", "kerninfo" and "\t\r\n " */
  const HELP: seq<byte> := [0x68, 0x65, 0x6c, 0x70, 0]
  const KERNINFO: seq<byte> := [0x6b, 0x65, 0x72, 0x6e, 0x69, 0x6e, 0x66, 0x6f, 0]
  const WHITESPACE: seq<byte> := [9, 13, 10, 32, 0]

  predicate IsBlank(c: byte) { c == 9 || c == 13 || c == 10 || c == 32 }

  /** The command line s in memory, ended by a NUL. */
  ghost predicate IsLine(m: seq<byte>, s: seq<byte>) {
    |s| < |m| && m[..|s|] == s && m[|s|] == 0 && 0 !in s
  }

  // ---------- The words of a line ----------

  function WordStart(s: seq<byte>, i: nat): (j: nat)
    requires i <= |s|
    decreases |s| - i
    ensures i <= j <= |s| && (j < |s| ==> !IsBlank(s[j]))
    ensures forall k :: i <= k < j ==> IsBlank(s[k])
  {
    if i < |s| && IsBlank(s[i]) then WordStart(s, i + 1) else i
  }

  function WordEnd(s: seq<byte>, i: nat): (j: nat)
    requires i <= |s|
    decreases |s| - i
    ensures i <= j <= |s| && (j < |s| ==> IsBlank(s[j]))
    ensures forall k :: i <= k < j ==> !IsBlank(s[k])
  {
    if i < |s| && !IsBlank(s[i]) then WordEnd(s, i + 1) else i
  }

  /** The words from position i on, each with its start and end. */
  function Words(s: seq<byte>, i: nat): seq<(nat, nat)>
    requires i <= |s|
    decreases |s| - i
  {
    var a := WordStart(s, i);
    if a == |s| then [] else [(a, WordEnd(s, a))] + Words(s, WordEnd(s, a))
  }

  /** A maximal run of characters that are not blank. */
  predicate IsRun(s: seq<byte>, a: int, b: int) {
    && 0 <= a < b <= |s|
    && (forall k :: a <= k < b ==> !IsBlank(s[k]))
    && (a == 0 || IsBlank(s[a - 1])) && (b == |s| || IsBlank(s[b]))
  }

  /** The words are exactly the maximal runs, from left to right. */
  lemma {:induction false} WordsAreRuns(s: seq<byte>, i: nat)
    requires i <= |s| && (i == 0 || i == |s| || IsBlank(s[i]) || IsBlank(s[i - 1]))
    decreases |s| - i
    ensures forall w :: w in Words(s, i) ==> i <= w.0 && IsRun(s, w.0, w.1)
    ensures forall a, b :: i <= a && IsRun(s, a, b) ==> (a, b) in Words(s, i)
    ensures forall j, k :: 0 <= j < k < |Words(s, i)| ==> Words(s, i)[j].1 < Words(s, i)[k].0
  {
    var a := WordStart(s, i);
    var b := WordEnd(s, a);
    if a < |s| {
      WordsAreRuns(s, b);
      assert IsRun(s, a, b);
    }
    forall c, d | i <= c && IsRun(s, c, d) ensures (c, d) in Words(s, i) {
      assert !IsBlank(s[c]) && a <= c;
      if c < b { assert c == a && d == b; }
    }
  }

  // ---------- Library functions ----------

  /** A string with its NUL. */
  predicate IsByteString(q: seq<byte>) { |q| > 0 && q[|q| - 1] == 0 && 0 !in q[..|q| - 1] }

  /** strchr; the result is an index into the string, or -1 for the null pointer. */
  method StrChr(q: seq<byte>, c: byte) returns (at: int)
    requires IsByteString(q)
    ensures if at == -1 then c !in q[..|q| - 1] else 0 <= at < |q| - 1 && q[at] == c && c !in q[..at]
  {
    var k := 0;
    while q[k] != 0
      invariant 0 <= k < |q| && c !in q[..k]
      decreases |q| - k
    {
      if q[k] == c { return k; }
      k := k + 1;
    }
    return -1;
  }

  /** strcmp of the string m[p..end] in memory and the string q */
  method StrCmp(m: array<byte>, p: nat, q: seq<byte>, ghost end: nat) returns (r: int)
    requires p <= end < m.Length && IsByteString(m[p..end + 1]) && IsByteString(q)
    ensures r == 0 <==> m[p..end + 1] == q
    ensures forall k :: 0 <= k < |q| && k <= end - p && m[p..end + 1][..k] == q[..k] && m[p + k] != q[k] ==>
      r == m[p + k] as int - q[k] as int
  {
    ghost var s := m[p..end + 1];
    var k := 0;
    while m[p + k] != 0 && m[p + k] == q[k]
      invariant 0 <= k < |q| && p + k <= end && s[..k] == q[..k]
      decreases |q| - k
    {
      assert s[k] == m[p + k];
      k := k + 1;
    }
    assert s[k] == m[p + k];
    r := m[p + k] as int - q[k] as int;
    forall j | 0 <= j < |q| && j < |s| && s[..j] == q[..j] && s[j] != q[j] ensures j == k {
      FirstDifference(s, q, j, k);
    }
  }

  lemma FirstDifference(s: seq<byte>, q: seq<byte>, j: nat, k: nat)
    requires IsByteString(s) && IsByteString(q) && j < |s| && j < |q| && k < |s| && k < |q|
    requires s[..j] == q[..j] && s[j] != q[j] && s[..k] == q[..k] && (s[k] == 0 || s[k] != q[k])
    ensures j == k
  {
  }

  // ---------- runcmd ----------

  datatype Ptr = Null | To(at: nat)

  /** What runcmd does: nothing, a complaint, or a call of a command with argc and argv. */
  datatype Outcome = Nothing | TooMany | Unknown | Invoke(command: nat)

  /** Memory with the blanks of its first n bytes replaced by NULs. */
  ghost predicate Blanked(before: seq<byte>, after: seq<byte>, n: nat) {
    && n <= |before| == |after|
    && (forall k :: 0 <= k < n ==> after[k] == if IsBlank(before[k]) then 0 else before[k])
    && (forall k :: n <= k < |before| ==> after[k] == before[k])
  }

  /** The command that a name calls. */
  function Command(name: seq<byte>): Outcome {
    if name + [0] == HELP then Invoke(0) else if name + [0] == KERNINFO then Invoke(1) else Unknown
  }

  lemma WordsStep(s: seq<byte>, done: seq<(nat, nat)>, p: nat)
    requires p <= |s| && Words(s, 0) == done + Words(s, p)
    ensures var a := WordStart(s, p);
      Words(s, 0) == if a == |s| then done else done + [(a, WordEnd(s, a))] + Words(s, WordEnd(s, a))
  {
  }

  lemma BlanksOf(c: byte)
    ensures IsByteString(WHITESPACE) && (c in WHITESPACE[..|WHITESPACE| - 1] <==> IsBlank(c))
  {
    assert WHITESPACE[..4] == [9, 13, 10, 32];
  }

  /** The blanks from p on are replaced by NULs. */
  method Gobble(buf: array<byte>, p: nat, ghost s: seq<byte>, ghost before: seq<byte>) returns (q: nat)
    requires IsLine(before, s) && p <= |s| && Blanked(before, buf[..], p)
    modifies buf
    ensures q == WordStart(s, p) && Blanked(before, buf[..], q)
  {
    q := p;
    while true
      invariant p <= q <= |s| && WordStart(s, q) == WordStart(s, p) && Blanked(before, buf[..], q)
      decreases |s| - q
    {
      assert buf[q] == buf[..][q] == before[q] && (q < |s| ==> before[q] == s[q]);
      if buf[q] == 0 { break; }
      BlanksOf(buf[q]);
      var at := StrChr(WHITESPACE, buf[q]);
      if at < 0 { break; }
      buf[q] := 0;
      q := q + 1;
    }
  }

  /** The end of the word at p. */
  method ScanWord(buf: array<byte>, p: nat, ghost s: seq<byte>, ghost before: seq<byte>) returns (q: nat)
    requires IsLine(before, s) && p <= |s| && Blanked(before, buf[..], p)
    ensures q == WordEnd(s, p) && Blanked(before, buf[..], q)
  {
    q := p;
    while true
      invariant p <= q <= |s| && WordEnd(s, q) == WordEnd(s, p) && Blanked(before, buf[..], q)
      decreases |s| - q
    {
      assert buf[q] == buf[..][q] == before[q] && (q < |s| ==> before[q] == s[q]);
      if buf[q] == 0 { break; }
      BlanksOf(buf[q]);
      var at := StrChr(WHITESPACE, buf[q]);
      if at >= 0 { break; }
      q := q + 1;
    }
  }

  /** The C string at a is the word s[a..b]. */
  ghost predicate WordAt(after: seq<byte>, s: seq<byte>, a: nat, b: nat) {
    a < b <= |s| && b < |after| && after[a..b] == s[a..b] && after[b] == 0 && 0 !in s[a..b]
  }

  /** What runcmd makes of a line with the given words: up to 15 words are passed as C strings in argv, which ends with a
      null pointer; a 16th word stops it. */
  ghost predicate Split(before: seq<byte>, after: seq<byte>, s: seq<byte>, argc: nat, argv: seq<Ptr>, tooMany: bool)
    requires |argv| == MAXARGS && |s| < |before|
  {
    var words := Words(s, 0);
    && (tooMany <==> |words| >= MAXARGS)
    && (if tooMany then words[MAXARGS - 1].0 <= |s| && Blanked(before, after, words[MAXARGS - 1].0)
        else
          && Blanked(before, after, |s|)
          && argc == |words| && argv[argc] == Null
          && forall k :: 0 <= k < argc ==>
            argv[k] == To(words[k].0) && WordAt(after, s, words[k].0, words[k].1))
  }

  lemma SplitWord(before: seq<byte>, after: seq<byte>, s: seq<byte>, a: nat, b: nat)
    requires IsLine(before, s) && Blanked(before, after, |s|) && IsRun(s, a, b)
    ensures WordAt(after, s, a, b)
  {
    assert forall k :: a <= k < b ==> after[k] == s[k];
    assert b < |s| ==> before[b] == s[b];
  }

  /** The command table, searched for the string at p. */
  method Dispatch(buf: array<byte>, p: nat, ghost end: nat) returns (out: Outcome)
    requires p <= end < buf.Length && buf[end] == 0 && 0 !in buf[p..end]
    ensures out == Command(buf[p..end])
  {
    assert buf[p..end + 1] == buf[p..end] + [0];
    var r := StrCmp(buf, p, HELP, end);
    if r == 0 { return Invoke(0); }
    r := StrCmp(buf, p, KERNINFO, end);
    if r == 0 { return Invoke(1); }
    return Unknown;
  }

  /** The split is complete at the end of the line, and too long when a 16th word starts. */
  lemma SplitDone(before: seq<byte>, after: seq<byte>, s: seq<byte>, argv: seq<Ptr>, argc: nat)
    requires IsLine(before, s) && Blanked(before, after, |s|) && argc == |Words(s, 0)| < MAXARGS == |argv|
    requires argv[argc] == Null && forall k :: 0 <= k < argc ==> argv[k] == To(Words(s, 0)[k].0)
    ensures Split(before, after, s, argc, argv, false)
    ensures argc > 0 ==> WordAt(after, s, Words(s, 0)[0].0, Words(s, 0)[0].1)
  {
    hide Blanked, Words, IsLine;
    WordsAreRuns(s, 0);
    var words := Words(s, 0);
    forall k | 0 <= k < argc
      ensures words[k] in words && WordAt(after, s, words[k].0, words[k].1)
    {
      SplitWord(before, after, s, words[k].0, words[k].1);
    }
  }

  lemma SplitTooMany(before: seq<byte>, after: seq<byte>, s: seq<byte>, argv: seq<Ptr>, argc: nat, done: seq<(nat, nat)>, p: nat)
    requires p <= |s| < |before| && |argv| == MAXARGS && Words(s, 0) == done + Words(s, p) && |done| == MAXARGS - 1
    requires WordStart(s, p) < |s| && Blanked(before, after, WordStart(s, p))
    ensures Split(before, after, s, argc, argv, true) && |Words(s, 0)| >= MAXARGS
  {
    hide Blanked;
    WordsStep(s, done, p);
  }

  /** The parsing loop of runcmd. */
  method SplitLine(buf: array<byte>, argv: array<Ptr>, ghost s: seq<byte>) returns (argc: nat, tooMany: bool)
    requires IsLine(buf[..], s) && argv.Length == MAXARGS
    modifies buf, argv
    ensures Split(old(buf[..]), buf[..], s, argc, argv[..], tooMany)
    ensures !tooMany && argc > 0 ==> WordAt(buf[..], s, Words(s, 0)[0].0, Words(s, 0)[0].1)
  {
    hide Words, Blanked, WordStart, WordEnd, Split, WordAt;
    ghost var before := buf[..];
    BlankedNone(before);
    argc := 0;
    var p := 0;
    ghost var done: seq<(nat, nat)> := [];
    while true
      invariant p <= |s| && Blanked(before, buf[..], p)
      invariant argc == |done| < MAXARGS && Words(s, 0) == done + Words(s, p)
      invariant forall k :: 0 <= k < argc ==> argv[k] == To(done[k].0)
      decreases |s| - p
    {
      WordsStep(s, done, p);
      ghost var p0 := p;
      p := Gobble(buf, p, s, before);
      AtEnd(before, buf[..], s, p);
      if buf[p] == 0 { break; }
      if argc == MAXARGS - 1 {
        SplitTooMany(before, buf[..], s, argv[..], argc, done, p0);
        return argc, true;
      }
      argv[argc] := To(p);
      argc := argc + 1;
      ghost var a := p;
      p := ScanWord(buf, p, s, before);
      done := done + [(a, p)];
    }
    argv[argc] := Null;
    SplitDone(before, buf[..], s, argv[..], argc);
    return argc, false;
  }

  lemma BlankedNone(m: seq<byte>)
    ensures Blanked(m, m, 0)
  {
  }

  lemma AtEnd(before: seq<byte>, after: seq<byte>, s: seq<byte>, p: nat)
    requires IsLine(before, s) && p <= |s| && Blanked(before, after, p)
    ensures after[p] == 0 <==> p == |s|
  {
  }

  /** runcmd. s is the line in buf; the outcome Invoke stands for the call of a command with argc and argv. */
  method RunCmd(buf: array<byte>, ghost s: seq<byte>) returns (out: Outcome, argc: nat, argv: array<Ptr>)
    requires IsLine(buf[..], s)
    modifies buf
    ensures fresh(argv) && argv.Length == MAXARGS
    ensures Split(old(buf[..]), buf[..], s, argc, argv[..], |Words(s, 0)| >= MAXARGS)
    ensures var words := Words(s, 0);
      out == if |words| >= MAXARGS then TooMany else if |words| == 0 then Nothing else Command(s[words[0].0..words[0].1])
  {
    hide Words, Blanked, Command;
    argv := new Ptr[MAXARGS](_ => Null);
    var tooMany;
    argc, tooMany := SplitLine(buf, argv, s);
    if tooMany {
      return TooMany, argc, argv;
    }
    if argc == 0 {
      return Nothing, argc, argv;
    }
    ghost var word := Words(s, 0)[0];
    assert argv[0] == argv[..][0] == To(word.0) && buf[word.0..word.1] == buf[..][word.0..word.1] && buf[word.1] == buf[..][word.1];
    out := Dispatch(buf, argv[0].at, word.1);
  }
}
