/** debuginfo_eip of kern/kdebug.c: from an instruction address to a file, a line and a function. */
module DebugInfo {
  import opened CTypes
  import opened Stabs

  const ULIM: uint32 := 0xEF80_0000
  const COLON: byte := 0x3A
  const UNKNOWN_LENGTH := 9

  /** A name: the literal "<unknown>", or the string at an offset of the string table. */
  datatype Name = Unknown | At(offset: nat)

  /** The values of struct Eipdebuginfo. */
  datatype Info = Info(file: Name, line: int, fnName: Name, fnNameLen: int, fnAddr: uint32, fnNarg: int)

  /** How a call ends: kernel panic, a read before the start of the table, or a return code. */
  datatype Outcome = Panic | Fault | Returns(code: int)

  class Eipdebuginfo {
    var eip_file: Name
    var eip_line: int
    var eip_fn_name: Name
    var eip_fn_namelen: int
    var eip_fn_addr: uint32
    var eip_fn_narg: int

    constructor ()
    {
      eip_file, eip_fn_name := Unknown, Unknown;
    }

    function Value(): Info
      reads this
    {
      Info(eip_file, eip_line, eip_fn_name, eip_fn_namelen, eip_fn_addr, eip_fn_narg)
    }

    method Initialize(address: uint32)
      modifies this
      ensures Value() == Initial(address)
    {
      eip_file := Unknown;
      eip_line := 0;
      eip_fn_name := Unknown;
      eip_fn_namelen := UNKNOWN_LENGTH;
      eip_fn_addr := address;
      eip_fn_narg := 0;
    }
  }

  // ---------- The reference: linear scans ----------

  predicate ValidStrings(stabstr: seq<byte>) {
    |stabstr| > 0 && stabstr[|stabstr| - 1] == 0
  }

  /** The first position from 'at' on that holds c or ends the string. */
  ghost predicate IsFind(stabstr: seq<byte>, at: nat, c: byte, end: nat) {
    && at <= end < |stabstr|
    && (stabstr[end] == c || stabstr[end] == 0)
    && forall k :: at <= k < end ==> stabstr[k] != c && stabstr[k] != 0
  }

  function Find(stabstr: seq<byte>, at: nat, c: byte): (end: nat)
    requires ValidStrings(stabstr) && at < |stabstr|
    decreases |stabstr| - at
    ensures IsFind(stabstr, at, c, end)
  {
    if stabstr[at] == 0 || stabstr[at] == c then at else Find(stabstr, at + 1, c)
  }

  /** The string-table name of a stab, unknown if its offset is out of range. */
  function NameOf(stab: Stab, stabstr: seq<byte>): Name {
    if stab.n_strx < |stabstr| then At(stab.n_strx) else Unknown
  }

  function NameLength(stabstr: seq<byte>, name: Name): int
    requires ValidStrings(stabstr) && (name.At? ==> name.offset < |stabstr|)
  {
    match name
    case Unknown => UNKNOWN_LENGTH
    case At(offset) => Find(stabstr, offset, COLON) - offset
  }

  /** A stab that names a source file. */
  predicate NamesFile(stab: Stab) {
    stab.n_type == N_SOL || (stab.n_type == N_SO && stab.n_value != 0)
  }

  /** The last stab in [lo, at] that names a source file; lo - 1 if there is none. */
  function FileStab(stabs: seq<Stab>, lo: nat, at: int): (k: int)
    requires lo - 1 <= at < |stabs|
    decreases at - lo
    ensures lo - 1 <= k <= at
    ensures k >= lo ==> NamesFile(stabs[k])
    ensures forall j :: k < j <= at ==> !NamesFile(stabs[j])
  {
    if at < lo || NamesFile(stabs[at]) then at else FileStab(stabs, lo, at - 1)
  }

  /** How many of the stabs from 'from' on, before 'end', are parameters without a gap. */
  function Parameters(stabs: seq<Stab>, from: nat, end: int): (n: nat)
    requires end <= |stabs|
    decreases end - from
    ensures n == 0 || from + n <= end
    ensures forall k :: from <= k < from + n ==> stabs[k].n_type == N_PSYM
    ensures from + n < end ==> stabs[from + n].n_type != N_PSYM
  {
    if from < end && stabs[from].n_type == N_PSYM then 1 + Parameters(stabs, from + 1, end) else 0
  }

  /** The three brackets of a lookup. */
  datatype Brackets = Brackets(lfile: int, rfile: int, lfun: int, rfun: int, lline: int, rline: int)

  function Initial(address: uint32): Info {
    Info(Unknown, 0, Unknown, UNKNOWN_LENGTH, address, 0)
  }

  ghost function FileRegion(stabs: seq<Stab>): Region {
    Region(stabs, 0, |stabs| - 1, N_SO)
  }

  ghost function FunRegion(stabs: seq<Stab>, lfile: int, rfile: int): Region {
    Region(stabs, lfile, rfile, N_FUN)
  }

  /** Lines are searched in the function, or in the whole file if it has no function. */
  ghost function LineRegion(stabs: seq<Stab>, b: Brackets): Region {
    if b.lfun <= b.rfun then Region(stabs, b.lfun, b.rfun, N_SLINE) else Region(stabs, b.lfile, b.rfile, N_SLINE)
  }

  /** Line stabs hold offsets from the start of their function. */
  function LineAddress(stabs: seq<Stab>, lfun: int, rfun: int, address: uint32): uint32
    requires lfun <= rfun ==> 0 <= lfun < |stabs|
  {
    if lfun <= rfun then (address - stabs[lfun].n_value) % 0x1_0000_0000 else address
  }

  /** What a lookup reports about the function. */
  function FunctionInfo(stabs: seq<Stab>, stabstr: seq<byte>, lfun: int, rfun: int, address: uint32): Info
    requires ValidStrings(stabstr) && (lfun <= rfun ==> 0 <= lfun < |stabs|)
  {
    var name := if lfun <= rfun then NameOf(stabs[lfun], stabstr) else Unknown;
    Initial(address).(fnName := name, fnNameLen := NameLength(stabstr, name),
                      fnAddr := if lfun <= rfun then stabs[lfun].n_value else address)
  }

  /** What a successful lookup reports. */
  function FullInfo(stabs: seq<Stab>, stabstr: seq<byte>, lfile: nat, lfun: int, rfun: int, lline: nat, address: uint32): Info
    requires ValidStrings(stabstr) && (lfun <= rfun ==> 0 <= lfun < |stabs|)
    requires lline < |stabs| && -1 <= lfun && rfun < |stabs|
  {
    var at := if lline < lfile then -1 else FileStab(stabs, lfile, lline);
    FunctionInfo(stabs, stabstr, lfun, rfun, address).(
      line := stabs[lline].n_desc,
      file := if at >= lfile then NameOf(stabs[at], stabstr) else Unknown,
      fnNarg := Parameters(stabs, lfun + 1, rfun))
  }

  lemma BracketBounds(g: Region, a: int)
    requires g.Valid()
    ensures var (left, right) := g.Bracket(a);
      if g.None(g.lo, g.hi) then left == g.lo && right == g.lo - 1
      else
        && g.lo - 1 <= left <= g.hi && g.lo - 1 <= right <= g.hi
        && (left == g.lo || left == g.lo - 1 || (g.Match(left) && g.stabs[left].n_value <= a))
        && (left < g.lo ==> g.Match(g.lo) && g.stabs[g.lo].n_value > a)
        && (g.Sorted() ==> left <= right && (g.Match(g.lo) && g.stabs[g.lo].n_value > a ==> left < g.lo))
  {
  }

  /** The brackets of an address, by linear scans throughout. */
  ghost function Located(stabs: seq<Stab>, address: uint32): (b: Brackets)
    ensures 0 < b.lfile ==> 0 <= b.lfun && b.rfun < |stabs| && b.rfile < |stabs| && (b.lfun <= b.rfun ==> b.lfun < |stabs|)
  {
    var (lfile, rfile) := FileRegion(stabs).Bracket(address);
    BracketBounds(FileRegion(stabs), address);
    if lfile <= 0 then Brackets(lfile, rfile, 0, -1, 0, -1)
    else
      var (lfun, rfun) := FunRegion(stabs, lfile, rfile).Bracket(address);
      BracketBounds(FunRegion(stabs, lfile, rfile), address);
      var b := Brackets(lfile, rfile, lfun, rfun, 0, -1);
      var (lline, rline) := LineRegion(stabs, b).Bracket(LineAddress(stabs, b.lfun, b.rfun, address));
      b.(lline := lline, rline := rline)
  }

  /** All three searches are on sorted entries, and no hit leads them astray. */
  ghost predicate Regular(stabs: seq<Stab>, address: uint32) {
    var b := Located(stabs, address);
    && Exact(FileRegion(stabs), address)
    && (0 < b.lfile ==>
      && Exact(FunRegion(stabs, b.lfile, b.rfile), address)
      && Exact(LineRegion(stabs, b), LineAddress(stabs, b.lfun, b.rfun, address)))
  }

  lemma RegularNests(stabs: seq<Stab>, address: uint32)
    requires Regular(stabs, address)
    ensures var b := Located(stabs, address);
      && -1 <= b.lfile
      && (b.lfile == -1 <==> StartsAbove(stabs, address))
      && (0 < b.lfile ==>
        && b.lfile <= b.rfile < |stabs| && stabs[b.lfile].n_type == N_SO && stabs[b.lfile].n_value <= address
        && b.lfile <= b.lfun && b.lfun - 1 <= b.rfun <= b.rfile
        && b.lfile <= b.lline && b.lline - 1 <= b.rline <= b.rfile
        && (b.lfun <= b.rfun ==> b.lfun <= b.lline && b.rline <= b.rfun))
  {
    hide Region.Bracket, Region.Sorted, BumpIsHarmless;
    var b := Located(stabs, address);
    assert |stabs| > 0 && stabs[0].n_type == N_SO ==> FileRegion(stabs).Match(0);
    BracketBounds(FileRegion(stabs), address);
    if 0 < b.lfile {
      BracketBounds(FunRegion(stabs, b.lfile, b.rfile), address);
      BracketBounds(LineRegion(stabs, b), LineAddress(stabs, b.lfun, b.rfun, address));
    }
  }

  /** The outcome of a lookup and what it reports, given the brackets it found. */
  ghost predicate Reported(stabs: seq<Stab>, stabstr: seq<byte>, address: uint32, b: Brackets, res: Outcome, info: Info)
    requires ValidStrings(stabstr)
  {
    if b.lfile < 0 then res == Fault && info == Initial(address)
    else if b.lfile == 0 then res == Returns(-1) && info == Initial(address)
    else
      && -1 <= b.lfun && b.rfun < |stabs| && (b.lfun <= b.rfun ==> 0 <= b.lfun < |stabs|)
      && if b.lline > b.rline then res == Returns(-1) && info == FunctionInfo(stabs, stabstr, b.lfun, b.rfun, address)
         else if b.lline < 0 then res == Fault
         else
           && b.lline < |stabs|
           && res == Returns(0) && info == FullInfo(stabs, stabstr, b.lfile, b.lfun, b.rfun, b.lline, address)
  }

  /** The three searches of a regular lookup. */
  lemma RegularSearches(stabs: seq<Stab>, address: uint32)
    ensures Regular(stabs, address) ==>
      var b := Located(stabs, address);
      && Exact(FileRegion(stabs), address) && FileRegion(stabs).Bracket(address) == (b.lfile, b.rfile)
      && (b.lfile <= 0 ==> b == Brackets(b.lfile, b.rfile, 0, -1, 0, -1))
      && (0 < b.lfile ==>
        && Exact(FunRegion(stabs, b.lfile, b.rfile), address)
        && FunRegion(stabs, b.lfile, b.rfile).Bracket(address) == (b.lfun, b.rfun)
        && Exact(LineRegion(stabs, b), LineAddress(stabs, b.lfun, b.rfun, address))
        && LineRegion(stabs, b).Bracket(LineAddress(stabs, b.lfun, b.rfun, address)) == (b.lline, b.rline))
  {
    hide Region.Bracket, Region.Occurs, Region.None, Exact;
    BracketBounds(FileRegion(stabs), address);
  }

  /** A file region starts above the address. */
  predicate StartsAbove(stabs: seq<Stab>, address: uint32) {
    |stabs| > 0 && stabs[0].n_type == 0x64 && stabs[0].n_value > address
  }

  /** stab_binsearch as a lookup needs it: its bounds on any table, its left end on a sorted one, the bracket on an exact one. */
  method SearchRegion(stabs: seq<Stab>, lo: int, hi: int, typ: byte, address: uint32) returns (left: int, right: int)
    requires 0 <= lo && hi < |stabs|
    ensures left <= right ==> lo - 1 <= left && right <= hi && (left < lo ==> lo <= hi && stabs[lo].n_type == typ)
    ensures left > right ==> left == lo && right == lo - 1
    ensures Region(stabs, lo, hi, typ).Sorted() && address < UINT_MAX ==>
      (left < lo <==> lo <= hi && stabs[lo].n_type == typ && stabs[lo].n_value > address)
    ensures Exact(Region(stabs, lo, hi, typ), address) ==> (left, right) == Region(stabs, lo, hi, typ).Bracket(address)
  {
    ghost var bumps, steps;
    left, right, bumps, steps := StabBinsearch(stabs, lo, hi, typ, address);
  }

  /** strfind, as an index into the string table. */
  method StrFind(stabstr: seq<byte>, at: nat, c: byte) returns (end: nat)
    requires ValidStrings(stabstr) && at < |stabstr|
    ensures end == Find(stabstr, at, c)
  {
    end := at;
    while stabstr[end] != 0
      invariant at <= end < |stabstr|
      invariant Find(stabstr, at, c) == Find(stabstr, end, c)
      decreases |stabstr| - end
    {
      if stabstr[end] == c { break; }
      end := end + 1;
    }
  }

  /** The function's part of the info, and the address to search its lines for. */
  method DescribeFunction(stabs: seq<Stab>, stabstr: seq<byte>, lfun: int, rfun: int, address: uint32, info: Eipdebuginfo)
    returns (addr: uint32)
    requires ValidStrings(stabstr) && (lfun <= rfun ==> 0 <= lfun < |stabs|)
    requires info.Value() == Initial(address)
    modifies info
    ensures info.Value() == FunctionInfo(stabs, stabstr, lfun, rfun, address)
    ensures addr == LineAddress(stabs, lfun, rfun, address)
    ensures info.eip_file == Unknown && info.eip_fn_narg == 0
  {
    addr := address;
    if lfun <= rfun {
      if stabs[lfun].n_strx < |stabstr| {
        info.eip_fn_name := At(stabs[lfun].n_strx);
      }
      info.eip_fn_addr := stabs[lfun].n_value;
      addr := (addr - info.eip_fn_addr) % 0x1_0000_0000;
    } else {
      info.eip_fn_addr := addr;
    }
    if info.eip_fn_name.At? {
      var end := StrFind(stabstr, info.eip_fn_name.offset, COLON);
      info.eip_fn_namelen := end - info.eip_fn_name.offset;
    }
  }

  /** The backward walk from a line stab to the stab that names its file. */
  method WalkToFile(stabs: seq<Stab>, lfile: nat, start: int) returns (lline: int)
    requires start < |stabs|
    ensures lline == if start < lfile then start else FileStab(stabs, lfile, start)
  {
    lline := start;
    while lline >= lfile
        && stabs[lline].n_type != N_SOL
        && (stabs[lline].n_type != N_SO || stabs[lline].n_value == 0)
      invariant lline <= start
      invariant start < lfile ==> lline == start
      invariant start >= lfile ==> lfile - 1 <= lline && FileStab(stabs, lfile, start) == FileStab(stabs, lfile, lline)
    {
      lline := lline - 1;
    }
  }

  /** The parameter loop. */
  method CountParameters(stabs: seq<Stab>, lfun: int, rfun: int, info: Eipdebuginfo)
    requires -1 <= lfun && rfun < |stabs|
    modifies info
    ensures info.Value() == old(info.Value()).(fnNarg := old(info.eip_fn_narg) + Parameters(stabs, lfun + 1, rfun))
  {
    if lfun < rfun {
      var lline := lfun + 1;
      while lline < rfun && stabs[lline].n_type == N_PSYM
        invariant lfun + 1 <= lline
        invariant info.Value() == old(info.Value()).(fnNarg := info.eip_fn_narg)
        invariant info.eip_fn_narg + Parameters(stabs, lline, rfun) == old(info.eip_fn_narg) + Parameters(stabs, lfun + 1, rfun)
      {
        info.eip_fn_narg := info.eip_fn_narg + 1;
        lline := lline + 1;
      }
    }
  }

  /** The line's part of the info: line number, file name and parameters. */
  method DescribeLine(stabs: seq<Stab>, stabstr: seq<byte>, lfile: nat, lfun: int, rfun: int, lline: nat,
                      ghost address: uint32, info: Eipdebuginfo)
    requires ValidStrings(stabstr) && (lfun <= rfun ==> 0 <= lfun < |stabs|)
    requires lline < |stabs| && -1 <= lfun && rfun < |stabs|
    requires info.Value() == FunctionInfo(stabs, stabstr, lfun, rfun, address)
    modifies info
    ensures info.Value() == FullInfo(stabs, stabstr, lfile, lfun, rfun, lline, address)
  {
    info.eip_line := stabs[lline].n_desc;

    var at := WalkToFile(stabs, lfile, lline);
    if at >= lfile && stabs[at].n_strx < |stabstr| {
      info.eip_file := At(stabs[at].n_strx);
    }
    CountParameters(stabs, lfun, rfun, info);
  }

  // ---------- The naive nested scan ----------

  /** left is the last match not above a and right the entry before the first match above a, by two linear scans. */
  ghost predicate Scanned(g: Region, a: uint32, left: int, right: int) {
    && g.Valid() && g.lo <= g.hi
    && left == g.LastAtMost(g.hi, a) && g.lo <= left
    && right == g.FirstAbove(g.lo, a) - 1
  }

  /** The address has a file, in it a function, and in that a line, found by nested linear scans with brackets n:
      the last file not above the address (the entry 0 is a header), the last function of that file not above it,
      the last line of that function not above the offset of the address in it. */
  ghost predicate HasLine(stabs: seq<Stab>, address: uint32, n: Brackets) {
    && Scanned(Region(stabs, 0, |stabs| - 1, 0x64), address, n.lfile, n.rfile) && 0 < n.lfile
    && Scanned(Region(stabs, n.lfile, n.rfile, 0x24), address, n.lfun, n.rfun)
    && 0 <= address - stabs[n.lfun].n_value
    && Scanned(Region(stabs, n.lfun, n.rfun, 0x44), address - stabs[n.lfun].n_value, n.lline, n.rline)
  }

  /** At each level the entries are sorted and no hit leads the search astray; source files have nonzero addresses. */
  ghost predicate WellFormed(stabs: seq<Stab>, address: uint32, n: Brackets)
    requires HasLine(stabs, address, n)
  {
    && (forall k :: 0 <= k < |stabs| && stabs[k].n_type == 0x64 ==> stabs[k].n_value != 0)
    && Exact(Region(stabs, 0, |stabs| - 1, 0x64), address)
    && Exact(Region(stabs, n.lfile, n.rfile, 0x24), address)
    && Exact(Region(stabs, n.lfun, n.rfun, 0x44), address - stabs[n.lfun].n_value)
  }

  lemma ScannedBracket(g: Region, a: uint32, left: int, right: int)
    requires Scanned(g, a, left, right)
    ensures g.Bracket(a) == (left, right)
    ensures Exact(g, a) ==> left <= right
  {
    hide BumpIsHarmless;
    assert g.Match(left);
  }

  lemma WellFormedIsRegular(stabs: seq<Stab>, address: uint32, n: Brackets)
    requires HasLine(stabs, address, n) && WellFormed(stabs, address, n)
    ensures Located(stabs, address) == n && Regular(stabs, address)
    ensures n.lfile <= n.lfun <= n.lline <= n.rline <= n.rfun <= n.rfile < |stabs|
  {
    hide Region.Bracket, Region.None, Region.LastAtMost, Region.FirstAbove, Exact;
    ScannedBracket(FileRegion(stabs), address, n.lfile, n.rfile);
    ScannedBracket(FunRegion(stabs, n.lfile, n.rfile), address, n.lfun, n.rfun);
    ScannedBracket(Region(stabs, n.lfun, n.rfun, N_SLINE), address - stabs[n.lfun].n_value, n.lline, n.rline);
  }

  lemma FileNamesItself(stabs: seq<Stab>, address: uint32, n: Brackets)
    requires HasLine(stabs, address, n) && WellFormed(stabs, address, n)
    ensures n.lfile < |stabs| && NamesFile(stabs[n.lfile])
  {
    assert FileRegion(stabs).Match(n.lfile);
  }

  /** The name at an offset of the string table, if the offset is within it, and its length up to a colon. */
  ghost predicate IsName(stabstr: seq<byte>, offset: nat, name: Name, length: int) {
    if offset < |stabstr| then
      && name == At(offset) && 0 <= length && offset + length < |stabstr|
      && stabstr[offset + length] in {0, 0x3A} && (forall k :: offset <= k < offset + length ==> stabstr[k] !in {0, 0x3A})
    else name == Unknown && length == 9
  }

  /** The last stab at or before the line that names a source file: N_SOL, or N_SO with an address. */
  ghost predicate LastNaming(stabs: seq<Stab>, at: int, line: int) {
    && 0 <= at <= line < |stabs| && (stabs[at].n_type == 0x84 || (stabs[at].n_type == 0x64 && stabs[at].n_value != 0))
    && forall k :: at < k <= line ==> stabs[k].n_type != 0x84 && (stabs[k].n_type != 0x64 || stabs[k].n_value == 0)
  }

  /** The stabs after the function's, before 'end', are N_PSYM as far as its parameters go. */
  ghost predicate HasParameters(stabs: seq<Stab>, from: int, end: int, n: int) {
    && 0 <= n && 0 <= from && end <= |stabs| && (n == 0 || from + n <= end)
    && (forall k :: from <= k < from + n ==> stabs[k].n_type == 0xA0)
    && (from + n < end ==> stabs[from + n].n_type != 0xA0)
  }

  /** The report of a nested scan with brackets n, which nest: its function and line; the name of the last naming stab at or
      before the line, which is in the file; the parameters of the function up to the first gap. */
  ghost predicate ReportsScan(stabs: seq<Stab>, stabstr: seq<byte>, n: Brackets, res: Outcome, info: Info) {
    && 0 < n.lfile <= n.lfun <= n.lline <= n.rline <= n.rfun <= n.rfile < |stabs|
    && res == Returns(0)
    && info.fnAddr == stabs[n.lfun].n_value
    && IsName(stabstr, stabs[n.lfun].n_strx, info.fnName, info.fnNameLen)
    && info.line == stabs[n.lline].n_desc
    && (exists at :: n.lfile <= at && LastNaming(stabs, at, n.lline)
          && info.file == if stabs[at].n_strx < |stabstr| then At(stabs[at].n_strx) else Unknown)
    && HasParameters(stabs, n.lfun + 1, n.rfun, info.fnNarg)
  }

  /** On a well-formed table what debuginfo_eip reports (see its contract) is the report of the nested scan. */
  lemma LookupIsNaive(stabs: seq<Stab>, stabstr: seq<byte>, address: uint32, n: Brackets, b: Brackets, res: Outcome, info: Info)
    requires HasLine(stabs, address, n) && WellFormed(stabs, address, n)
    ensures ValidStrings(stabstr) && Reported(stabs, stabstr, address, b, res, info)
            && (Regular(stabs, address) ==> b == Located(stabs, address))
            ==> ReportsScan(stabs, stabstr, n, res, info)
  {
    hide Exact, Regular, Located, Scanned, WellFormed;
    FileNamesItself(stabs, address, n);
    WellFormedIsRegular(stabs, address, n);
    if ValidStrings(stabstr) && Reported(stabs, stabstr, address, b, res, info) && b == n {
      FullInfoMeans(stabs, stabstr, n, address);
    }
  }

  /** The info of a successful lookup, field by field. */
  lemma FullInfoMeans(stabs: seq<Stab>, stabstr: seq<byte>, n: Brackets, address: uint32)
    requires ValidStrings(stabstr) && 0 < n.lfile <= n.lfun <= n.lline <= n.rline <= n.rfun <= n.rfile < |stabs|
    requires NamesFile(stabs[n.lfile])
    ensures ReportsScan(stabs, stabstr, n, Returns(0), FullInfo(stabs, stabstr, n.lfile, n.lfun, n.rfun, n.lline, address))
  {
    hide IsName, HasParameters, LastNaming, Parameters, NameLength, FileStab;
    NameMeans(stabs[n.lfun], stabstr);
    ParametersMean(stabs, n.lfun + 1, n.rfun);
    FileStabMeans(stabs, n.lfile, n.lline);
  }

  lemma NameMeans(stab: Stab, stabstr: seq<byte>)
    requires ValidStrings(stabstr)
    ensures IsName(stabstr, stab.n_strx, NameOf(stab, stabstr), NameLength(stabstr, NameOf(stab, stabstr)))
  {
  }

  lemma ParametersMean(stabs: seq<Stab>, from: nat, end: int)
    requires end <= |stabs|
    ensures HasParameters(stabs, from, end, Parameters(stabs, from, end))
  {
  }

  /** There is a naming stab if the file starts with one. */
  lemma FileStabMeans(stabs: seq<Stab>, lfile: nat, line: nat)
    requires lfile <= line < |stabs|
    ensures var at := FileStab(stabs, lfile, line);
      (at >= lfile ==> LastNaming(stabs, at, line)) && (NamesFile(stabs[lfile]) ==> at >= lfile)
  {
  }

  lemma ScansAreReported(stabs: seq<Stab>, stabstr: seq<byte>, address: uint32)
    requires ValidStrings(stabstr)
    ensures forall n, b, res, info ::
      HasLine(stabs, address, n) && WellFormed(stabs, address, n) && Reported(stabs, stabstr, address, b, res, info)
      && (Regular(stabs, address) ==> b == Located(stabs, address))
      ==> ReportsScan(stabs, stabstr, n, res, info)
  {
    hide HasLine, WellFormed, Reported, Regular, Located, ReportsScan;
    forall n, b, res, info | HasLine(stabs, address, n) && WellFormed(stabs, address, n)
                             && Reported(stabs, stabstr, address, b, res, info)
                             && (Regular(stabs, address) ==> b == Located(stabs, address))
      ensures ReportsScan(stabs, stabstr, n, res, info)
    {
      LookupIsNaive(stabs, stabstr, address, n, b, res, info);
    }
  }

  // ---------- Files without functions, and failures ----------

  /** The address has a file without functions, and in it a line: the last line of the file not above the address itself. */
  ghost predicate HasAssemblyLine(stabs: seq<Stab>, address: uint32, n: Brackets) {
    && Scanned(Region(stabs, 0, |stabs| - 1, 0x64), address, n.lfile, n.rfile) && 0 < n.lfile <= n.rfile < |stabs|
    && Region(stabs, n.lfile, n.rfile, 0x24).None(n.lfile, n.rfile) && n.lfun == n.lfile && n.rfun == n.lfile - 1
    && Scanned(Region(stabs, n.lfile, n.rfile, 0x44), address, n.lline, n.rline)
    && (forall k :: 0 <= k < |stabs| && stabs[k].n_type == 0x64 ==> stabs[k].n_value != 0)
    && Exact(Region(stabs, 0, |stabs| - 1, 0x64), address) && Exact(Region(stabs, n.lfile, n.rfile, 0x44), address)
  }

  /** File and line are reported; the function is unknown and starts at the address. */
  ghost predicate ReportsAssembly(stabs: seq<Stab>, stabstr: seq<byte>, address: uint32, n: Brackets, res: Outcome, info: Info) {
    && res == Returns(0) && 0 < n.lfile <= n.lline < |stabs|
    && info.fnAddr == address && info.fnName == Unknown && info.fnNameLen == 9 && info.fnNarg == 0
    && info.line == stabs[n.lline].n_desc
    && exists at :: n.lfile <= at && LastNaming(stabs, at, n.lline)
         && info.file == if stabs[at].n_strx < |stabstr| then At(stabs[at].n_strx) else Unknown
  }

  lemma NoMatchExact(g: Region, a: uint32)
    requires g.Valid() && g.None(g.lo, g.hi)
    ensures Exact(g, a) && g.Bracket(a) == (g.lo, g.lo - 1)
  {
  }

  lemma AssemblyIsRegular(stabs: seq<Stab>, address: uint32, n: Brackets)
    requires HasAssemblyLine(stabs, address, n)
    ensures Located(stabs, address) == n && Regular(stabs, address)
    ensures n.lfile <= n.lline <= n.rline <= n.rfile && NamesFile(stabs[n.lfile])
  {
    hide Region.Bracket, Region.None, Region.LastAtMost, Region.FirstAbove, Exact;
    ScannedBracket(FileRegion(stabs), address, n.lfile, n.rfile);
    NoMatchExact(FunRegion(stabs, n.lfile, n.rfile), address);
    ScannedBracket(Region(stabs, n.lfile, n.rfile, N_SLINE), address, n.lline, n.rline);
    assert FileRegion(stabs).Match(n.lfile);
  }

  lemma AssemblyInfoMeans(stabs: seq<Stab>, stabstr: seq<byte>, address: uint32, n: Brackets)
    requires ValidStrings(stabstr) && 0 < n.lfile <= n.lline < |stabs| && n.lfun == n.lfile && n.rfun == n.lfile - 1
    requires NamesFile(stabs[n.lfile])
    ensures ReportsAssembly(stabs, stabstr, address, n, Returns(0),
                            FullInfo(stabs, stabstr, n.lfile, n.lfun, n.rfun, n.lline, address))
  {
    assert LastNaming(stabs, FileStab(stabs, n.lfile, n.lline), n.lline);
  }

  lemma AssemblyIsReported(stabs: seq<Stab>, stabstr: seq<byte>, address: uint32)
    requires ValidStrings(stabstr)
    ensures forall n, b, res, info ::
      HasAssemblyLine(stabs, address, n) && Reported(stabs, stabstr, address, b, res, info)
      && (Regular(stabs, address) ==> b == Located(stabs, address))
      ==> ReportsAssembly(stabs, stabstr, address, n, res, info)
  {
    hide HasAssemblyLine, Regular, Located, ReportsAssembly, FullInfo, FunctionInfo, NamesFile;
    forall n, b, res, info | HasAssemblyLine(stabs, address, n) && Reported(stabs, stabstr, address, b, res, info)
                             && (Regular(stabs, address) ==> b == Located(stabs, address))
      ensures ReportsAssembly(stabs, stabstr, address, n, res, info)
    {
      AssemblyShape(stabs, address, n);
      AssemblyIsRegular(stabs, address, n);
      AssemblyInfoMeans(stabs, stabstr, address, n);
    }
  }

  lemma AssemblyShape(stabs: seq<Stab>, address: uint32, n: Brackets)
    requires HasAssemblyLine(stabs, address, n)
    ensures 0 < n.lfile <= n.rfile < |stabs| && n.lfun == n.lfile && n.rfun == n.lfile - 1
  {
  }

  /** What is reported on any table, by the brackets that were found: also when no file or no line is found. */
  ghost predicate ReportMeans(stabs: seq<Stab>, stabstr: seq<byte>, address: uint32, b: Brackets, res: Outcome, info: Info) {
    && (b.lfile < 0 ==> res == Fault) && (b.lfile == 0 ==> res == Returns(-1))
    && (b.lfile <= 0 ==> info == Info(Unknown, 0, Unknown, 9, address, 0))
    && (b.lfile > 0 && b.lline > b.rline ==>
          res == Returns(-1) && info.file == Unknown && info.line == 0 && info.fnNarg == 0)
    && (b.lfile > 0 && 0 <= b.lline <= b.rline ==>
          && b.lline < |stabs| && res == Returns(0) && info.line == stabs[b.lline].n_desc
          && ((info.file == Unknown && forall k :: b.lfile <= k <= b.lline ==> !LastNaming(stabs, k, b.lline))
              || exists at :: b.lfile <= at && LastNaming(stabs, at, b.lline)
                   && info.file == if stabs[at].n_strx < |stabstr| then At(stabs[at].n_strx) else Unknown))
    && (b.lfile > 0 && res.Returns? ==>
          if b.lfun <= b.rfun then
            && 0 <= b.lfun < |stabs| && info.fnAddr == stabs[b.lfun].n_value
            && IsName(stabstr, stabs[b.lfun].n_strx, info.fnName, info.fnNameLen)
          else info.fnAddr == address && info.fnName == Unknown && info.fnNameLen == 9)
  }

  lemma ReportedMeans(stabs: seq<Stab>, stabstr: seq<byte>, address: uint32, b: Brackets, res: Outcome, info: Info)
    requires ValidStrings(stabstr) && Reported(stabs, stabstr, address, b, res, info)
    ensures ReportMeans(stabs, stabstr, address, b, res, info)
  {
    if b.lfile > 0 && 0 <= b.lline <= b.rline && b.lfile <= b.lline {
      var at := FileStab(stabs, b.lfile, b.lline);
      assert at >= b.lfile ==> LastNaming(stabs, at, b.lline);
    }
  }

  // ---------- The lookup ----------

  /** debuginfo_eip. The indices are those of the table; an access before its start ends the call with Fault. */
  method DebuginfoEip(stabs: seq<Stab>, stabstr: seq<byte>, address: uint32, info: Eipdebuginfo)
    returns (res: Outcome, ghost b: Brackets)
    modifies info
    ensures res == Panic <==> address < 0xEF80_0000
    ensures res == Panic || !ValidStrings(stabstr) ==> info.Value() == Info(Unknown, 0, Unknown, 9, address, 0)
    ensures address >= ULIM && !ValidStrings(stabstr) ==> res == Returns(-1)
    ensures address >= ULIM && ValidStrings(stabstr) ==> Reported(stabs, stabstr, address, b, res, info.Value())
    ensures address >= ULIM && ValidStrings(stabstr) && Regular(stabs, address) ==> b == Located(stabs, address)
    ensures res == Fault ==> |stabs| > 0 && stabs[0].n_type in {N_SO, N_FUN, N_SLINE}
    ensures address >= ULIM && ValidStrings(stabstr) && FileRegion(stabs).Sorted() && address < UINT_MAX ==>
      (b.lfile < 0 <==> StartsAbove(stabs, address)) && (StartsAbove(stabs, address) ==> res == Fault)
    ensures address >= ULIM && ValidStrings(stabstr) && Regular(stabs, address) ==>
      (res == Fault <==> StartsAbove(stabs, address))
    ensures address >= ULIM && ValidStrings(stabstr) ==>
      forall n :: HasLine(stabs, address, n) && WellFormed(stabs, address, n) ==> ReportsScan(stabs, stabstr, n, res, info.Value())
    ensures address >= ULIM && ValidStrings(stabstr) ==>
      forall n :: HasAssemblyLine(stabs, address, n) ==> ReportsAssembly(stabs, stabstr, address, n, res, info.Value())
  {
    hide Exact, Regular, Located, Region.Bracket, Region.Sorted, FunctionInfo, FullInfo, LineAddress;
    hide HasLine, WellFormed, ReportsScan, HasAssemblyLine, ReportsAssembly;
    b := Brackets(0, -1, 0, -1, 0, -1);
    info.Initialize(address);
    if address < ULIM {
      return Panic, b;
    }
    if |stabstr| <= 0 || stabstr[|stabstr| - 1] != 0 {
      return Returns(-1), b;
    }
    RegularSearches(stabs, address);
    if Regular(stabs, address) { RegularNests(stabs, address); }
    ScansAreReported(stabs, stabstr, address);
    AssemblyIsReported(stabs, stabstr, address);
    var lfile, rfile := SearchRegion(stabs, 0, |stabs| - 1, N_SO, address);
    b := b.(lfile := lfile, rfile := rfile);
    if lfile == 0 {
      return Returns(-1), b;
    }
    if lfile < 0 {
      return Fault, b;
    }
    var lfun, rfun := SearchRegion(stabs, lfile, rfile, N_FUN, address);
    b := b.(lfun := lfun, rfun := rfun);
    var addr := DescribeFunction(stabs, stabstr, lfun, rfun, address, info);
    var lline, rline := if lfun <= rfun then lfun else lfile, if lfun <= rfun then rfun else rfile;
    lline, rline := SearchRegion(stabs, lline, rline, N_SLINE, addr);
    b := b.(lline := lline, rline := rline);
    if lline > rline {
      return Returns(-1), b;
    }
    if lline < 0 {
      return Fault, b;
    }
    DescribeLine(stabs, stabstr, lfile, lfun, rfun, lline, address, info);
    return Returns(0), b;
  }

  /** A table whose only entry is a source file at 0xf0200000, in which 0xf0100000 is looked up: the search gives
      lfile = -1, which is not 0. */
  lemma HeaderAboveFaults(stabs: seq<Stab>)
    requires |stabs| == 1 && stabs[0].n_type == N_SO && stabs[0].n_value == 0xF020_0000
    ensures Regular(stabs, 0xF010_0000) && Located(stabs, 0xF010_0000).lfile == -1 && StartsAbove(stabs, 0xF010_0000)
  {
    assert FileRegion(stabs).Match(0);
    SimpleIsExact(FileRegion(stabs), 0xF010_0000);
  }
}
