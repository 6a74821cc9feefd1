/** The stabs table (inc/stab.h) and the binary search over it (kern/kdebug.c). */
module Stabs {
  import opened CTypes

  const N_FUN: byte := 0x24
  const N_SLINE: byte := 0x44
  const N_SO: byte := 0x64
  const N_SOL: byte := 0x84
  const N_PSYM: byte := 0xa0

  datatype Stab = Stab(n_strx: uint32, n_type: byte, n_other: byte, n_desc: uint16, n_value: uint32)

  /** Entries lo..hi of a table, of which only those of type typ matter. */
  datatype Region = Region(stabs: seq<Stab>, lo: int, hi: int, typ: byte) {
    predicate Valid() {
      0 <= lo && hi < |stabs|
    }

    predicate Match(k: int)
      requires Valid()
    {
      lo <= k <= hi && stabs[k].n_type == typ
    }

    ghost predicate None(from: int, upto: int)
      requires Valid()
    {
      forall k :: from <= k <= upto ==> !Match(k)
    }

    ghost predicate Occurs(v: int)
      requires Valid()
    {
      exists k :: Match(k) && stabs[k].n_value == v
    }

    ghost predicate Sorted()
      requires Valid()
    {
      forall i, j :: Match(i) && Match(j) && i < j ==> stabs[i].n_value <= stabs[j].n_value
    }

    ghost predicate StrictlySorted()
      requires Valid()
    {
      forall i, j :: Match(i) && Match(j) && i < j ==> stabs[i].n_value < stabs[j].n_value
    }

    /** The last match in lo..upto whose value is at most a, found by a linear scan; lo - 1 if there is none. */
    function LastAtMost(upto: int, a: int): (k: int)
      requires Valid() && lo - 1 <= upto <= hi
      decreases upto - lo
      ensures lo - 1 <= k
      ensures k >= lo ==> k <= upto && Match(k) && stabs[k].n_value <= a
      ensures forall j :: k < j <= upto && Match(j) ==> stabs[j].n_value > a
    {
      if upto < lo then lo - 1
      else if Match(upto) && stabs[upto].n_value <= a then upto
      else LastAtMost(upto - 1, a)
    }

    /** The first match in from..hi whose value is above a, found by a linear scan; hi + 1 if there is none. */
    function FirstAbove(from: int, a: int): (k: int)
      requires Valid() && lo <= from <= hi + 1
      decreases hi - from
      ensures from <= k <= hi + 1
      ensures k <= hi ==> Match(k) && stabs[k].n_value > a
      ensures forall j :: from <= j < k && Match(j) ==> stabs[j].n_value <= a
    {
      if from > hi then hi + 1
      else if Match(from) && stabs[from].n_value > a then from
      else FirstAbove(from + 1, a)
    }

    /** The first match whose value is at least v; hi + 1 (or lo, if there are no entries) if there is none. */
    function First(v: int): (k: int)
      requires Valid()
    {
      if lo > hi then lo else FirstAbove(lo, v - 1)
    }

    /** Bisecting l..r, which holds the matches i0 < i1, lands between i0 and i1 before it lands on i1: a probe takes
        the last match up to the middle, and one beyond i1 cuts the range off before that match. */
    function LandsBetween(l: int, r: int, i0: int, i1: int): bool
      requires Valid() && lo <= l <= i0 < i1 <= r <= hi && Match(i1)
      decreases r - l
    {
      var mid := (l + r) / 2;
      if mid < i0 then LandsBetween(mid + 1, r, i0, i1)
      else if mid < i1 then true
      else
        var m := LastAtMost(mid, UINT_MAX);
        m != i1 && LandsBetween(l, m - 1, i0, i1)
    }

    /** The match that bisecting l..r lands on when it first lands on i1 or beyond. */
    function LandingFrom(l: int, r: int, i1: int): int
      requires Valid() && lo <= l <= i1 <= r <= hi
      decreases r - l
    {
      var mid := (l + r) / 2;
      if mid < i1 then LandingFrom(mid + 1, r, i1) else LastAtMost(mid, UINT_MAX)
    }

    /** The match that the bisection, having landed between i0 and i1 and gone on from there, lands on when it next
        lands on i1 or beyond. */
    function SecondLanding(l: int, r: int, i0: int, i1: int): int
      requires Valid() && lo <= l <= i0 < i1 <= r <= hi && Match(i0) && Match(i1)
      requires LandsBetween(l, r, i0, i1)
      decreases r - l
    {
      var mid := (l + r) / 2;
      if mid < i0 then SecondLanding(mid + 1, r, i0, i1)
      else if mid < i1 then LandingFrom(LastAtMost(mid, UINT_MAX), r, i1)
      else SecondLanding(l, LastAtMost(mid, UINT_MAX) - 1, i0, i1)
    }

    /** The bracket of a: the last match not above a (or the region's left end, if that is still in the bracket),
        and the entry before the first match above a. */
    ghost function Bracket(a: int): (int, int)
      requires Valid()
    {
      if None(lo, hi) then (lo, lo - 1)
      else
        var right := FirstAbove(lo, a) - 1;
        var left := LastAtMost(hi, a);
        (if left < lo then Min(lo, right) else left, right)
    }
  }

  /** The length of n in binary: floor(log2(n)) + 1 for positive n. */
  function BitLength(n: int): nat {
    if n <= 0 then 0 else 1 + BitLength(n / 2)
  }

  function PowerOf2(k: nat): nat { if k == 0 then 1 else 2 * PowerOf2(k - 1) }

  /** It is the exponent of the first power of 2 above n. */
  lemma {:induction false} BitLengthIs(n: nat)
    ensures n < PowerOf2(BitLength(n)) && (n > 0 ==> BitLength(n) > 0 && PowerOf2(BitLength(n) - 1) <= n)
  {
    if n > 0 { BitLengthIs(n / 2); }
  }

  lemma {:induction false} BitLengthMonotone(m: int, n: int)
    requires m <= n
    ensures BitLength(m) <= BitLength(n)
    decreases n
  {
    if m > 0 { BitLengthMonotone(m / 2, n / 2); }
  }

  lemma Halve(size: int, half: int)
    requires 0 < size && half <= size / 2
    ensures 1 + BitLength(half) <= BitLength(size)
  {
    BitLengthMonotone(half, size / 2);
  }

  /** addr++ on a 32-bit address. */
  function Next(addr: uint32): uint32 {
    if addr == UINT_MAX then 0 else addr + 1
  }

  function Advanced(addr: uint32, n: nat): uint32 {
    if n == 0 then addr else Next(Advanced(addr, n - 1))
  }

  // ---------- What the search loop keeps ----------

  /** The state of the search loop; bumps counts the executions of addr++. */
  datatype Search = Search(l: int, r: int, left: int, any: bool, addr: uint32, bumps: nat) {
    function Skipped(mid: int): Search { this.(l := mid + 1) }

    function Below(m: int, mid: int): Search { this.(l := mid + 1, left := m, any := true) }

    function Above(m: int): Search { this.(r := m - 1, any := true) }

    function Hit(m: int): Search { this.(l := m, left := m, any := true, addr := Next(addr), bumps := bumps + 1) }

    /** The last address that was hit, or before the first hit the searched one. */
    function Target(): int { if bumps == 0 then addr else addr - 1 }
  }

  /** On every table, sorted or not. */
  ghost predicate Inv(g: Region, s: Search) {
    && g.Valid()
    && g.lo <= s.l && s.r <= g.hi
    && (s.l <= s.r + 1 || (s.l == g.lo && s.r == g.hi))
    && (!s.any ==> s.r == g.hi && s.left == g.lo && s.bumps == 0 && g.None(g.lo, s.l - 1))
    && (s.any ==> !g.None(g.lo, g.hi))
    && (s.r < g.hi ==> g.Match(s.r + 1))
    && (s.bumps > 0 ==> g.Match(s.left))
    && ((s.left == g.lo && g.None(g.lo, s.l - 1)) || (g.Match(s.left) && (s.left < s.l || (s.left == s.l && s.bumps > 0))))
    && g.None(s.left + 1, s.l - 1)
  }

  /** Every address that was hit is the value of a match. */
  ghost predicate Hits(g: Region, s: Search, address: uint32) {
    && g.Valid()
    && s.addr == Advanced(address, s.bumps)
    && (forall j :: 0 <= j < s.bumps ==> g.Occurs(Advanced(address, j)))
  }

  /** On a sorted table while addr does not wrap: matches left of l are below addr, matches right of r above the target. */
  ghost predicate Split(g: Region, s: Search)
    requires Inv(g, s)
  {
    && (forall k :: g.Match(k) && k < s.l ==> g.stabs[k].n_value < s.addr)
    && (forall k :: g.Match(k) && k > s.r ==> g.stabs[k].n_value > s.Target())
    && (s.bumps > 0 ==> g.stabs[s.left].n_value < s.addr)
  }

  /** On a sorted table searched for the last address: a hit makes addr 0, and from then on l stays at the hit
      while r moves below it. */
  ghost predicate Wrapping(g: Region, s: Search)
    requires Inv(g, s)
  {
    if s.bumps == 0 then
      s.addr == UINT_MAX && s.r == g.hi && forall k :: g.Match(k) && k < s.l ==> g.stabs[k].n_value < UINT_MAX
    else
      s.addr == 0 && s.l == s.left && forall k :: g.Match(k) && s.left <= k ==> g.stabs[k].n_value == UINT_MAX
  }

  lemma SkipKeeps(g: Region, s: Search, mid: int)
    requires Inv(g, s) && s.l <= mid <= s.r && g.None(s.l, mid)
    ensures Inv(g, s.Skipped(mid))
    ensures Split(g, s) ==> Split(g, s.Skipped(mid))
    ensures Wrapping(g, s) ==> Wrapping(g, s.Skipped(mid))
  {
  }

  lemma BelowKeeps(g: Region, s: Search, m: int, mid: int)
    requires Inv(g, s) && s.l <= m <= mid <= s.r && g.Match(m) && g.None(m + 1, mid) && g.stabs[m].n_value < s.addr
    ensures Inv(g, s.Below(m, mid))
    ensures g.Sorted() && Split(g, s) ==> Split(g, s.Below(m, mid))
    ensures g.Sorted() && Wrapping(g, s) ==> Wrapping(g, s.Below(m, mid))
  {
  }

  lemma AboveKeeps(g: Region, s: Search, m: int)
    requires Inv(g, s) && s.l <= m <= s.r && g.Match(m) && g.stabs[m].n_value > s.addr
    ensures Inv(g, s.Above(m))
    ensures g.Sorted() && Split(g, s) ==> Split(g, s.Above(m))
    ensures Wrapping(g, s) ==> Wrapping(g, s.Above(m))
  {
  }

  lemma HitKeeps(g: Region, s: Search, m: int)
    requires Inv(g, s) && s.l <= m <= s.r && g.Match(m) && g.stabs[m].n_value == s.addr
    ensures Inv(g, s.Hit(m))
    ensures g.Sorted() && Split(g, s) && s.addr < UINT_MAX && (s.bumps > 0 ==> g.StrictlySorted()) ==> Split(g, s.Hit(m))
    ensures g.Sorted() && Wrapping(g, s) ==> Wrapping(g, s.Hit(m))
  {
  }

  // ---------- What holds at the end of the loop ----------

  /** Where the trailing walk stops. */
  function Walked(s: Search): int {
    if s.left > s.r then s.r else s.left
  }

  lemma SplitIsBracket(g: Region, s: Search)
    requires Inv(g, s) && s.l > s.r && s.any && Split(g, s)
    ensures (Walked(s), s.r) == g.Bracket(s.Target())
  {
    var t := s.Target();
    var above, last := g.FirstAbove(g.lo, t), g.LastAtMost(g.hi, t);
    assert s.l == s.r + 1 && above == s.r + 1;
    if g.Match(s.left) && s.left <= s.r {
      assert last == s.left;
    } else {
      assert last < g.lo;
    }
  }

  lemma WrappingIsNoBracket(g: Region, s: Search)
    requires Inv(g, s) && s.l > s.r && Wrapping(g, s) && g.Occurs(UINT_MAX)
    ensures s.any && s.r != g.Bracket(UINT_MAX).1
  {
    assert g.FirstAbove(g.lo, UINT_MAX) == g.hi + 1;
  }

  /** The address occurs only if it is not the last one and its successor does not occur. */
  ghost predicate Simple(g: Region, address: uint32)
    requires g.Valid()
  {
    g.Sorted() && (g.Occurs(address) ==> address < UINT_MAX && !g.Occurs(address + 1))
  }

  ghost predicate Wraps(g: Region, address: uint32)
    requires g.Valid()
  {
    g.Sorted() && address == UINT_MAX && g.Occurs(UINT_MAX)
  }

  /** The address and its successor are both values of matches. */
  ghost predicate Pair(g: Region, address: uint32)
    requires g.Valid()
  {
    var i0, i1 := g.First(address), g.First(address + 1);
    && g.Sorted() && i0 < i1 && g.Match(i0) && g.Match(i1)
    && g.stabs[i0].n_value == address && g.stabs[i1].n_value == address + 1
  }

  lemma PairIff(g: Region, address: uint32)
    requires g.Valid() && g.Sorted()
    ensures Pair(g, address) <==> g.Occurs(address) && g.Occurs(address + 1)
  {
    if g.Occurs(address) && g.Occurs(address + 1) {
      var k0 :| g.Match(k0) && g.stabs[k0].n_value == address;
      var k1 :| g.Match(k1) && g.stabs[k1].n_value == address + 1;
      assert g.First(address) <= k0 && g.First(address + 1) <= k1;
    }
  }

  lemma PairPositions(g: Region, address: uint32)
    requires g.Valid() && Pair(g, address)
    ensures forall k :: g.Match(k) && k < g.First(address) ==> g.stabs[k].n_value < address
    ensures forall k :: g.Match(k) && k < g.First(address + 1) ==> g.stabs[k].n_value <= address
  {
  }

  lemma PairBracket(g: Region, address: uint32)
    requires g.Valid() && Pair(g, address)
    ensures var before := g.First(address + 1) - 1;
      g.Bracket(address).1 == before && (g.Bracket(address).0 == before <==> g.Match(before))
  {
  }

  /** The bisection lands on the address (or between it and its successor) before it lands on the successor. */
  ghost predicate LandsFirst(g: Region, address: uint32)
    requires g.Valid() && Pair(g, address)
  {
    g.LandsBetween(g.lo, g.hi, g.First(address), g.First(address + 1))
  }

  ghost function Second(g: Region, address: uint32): int
    requires g.Valid() && Pair(g, address) && LandsFirst(g, address)
  {
    g.SecondLanding(g.lo, g.hi, g.First(address), g.First(address + 1))
  }

  /** Both were hit, or the address was and the successor will be; if that is the last address, the search is left
      with nothing but what lies before the second hit. */
  ghost predicate Overshot(g: Region, s: Search, address: uint32)
    requires g.Valid() && Pair(g, address) && LandsFirst(g, address)
  {
    var i1 := g.First(address + 1);
    if s.bumps < 2 then
      && s.bumps == 1 && s.addr == address + 1 && g.lo <= s.l <= i1 <= s.r <= g.hi
      && (address + 1 == UINT_MAX ==> g.LandingFrom(s.l, s.r, i1) == Second(g, address))
    else if address + 1 < UINT_MAX then i1 <= s.r && i1 <= s.l && (s.l > i1 || s.addr > address + 1)
    else
      && s.bumps == 2 && s.addr == 0 && s.left == s.l == Second(g, address) && s.r >= s.l - 1
      && g.Match(s.l) && g.stabs[s.l].n_value == UINT_MAX
  }

  /** Until a probe lands on one of the two, both are in range; if it lands on the address, the successor is still in
      range and will be hit too; if it lands on the successor, that is out of range from then on. */
  ghost predicate Overshooting(g: Region, s: Search, address: uint32)
    requires g.Valid()
  {
    Pair(g, address) ==>
      var i0, i1 := g.First(address), g.First(address + 1);
      if s.bumps == 0 && g.lo <= s.l <= i0 && i1 <= s.r <= g.hi then
        && s.addr == address && g.LandsBetween(s.l, s.r, i0, i1) == LandsFirst(g, address)
        && (LandsFirst(g, address) ==> g.SecondLanding(s.l, s.r, i0, i1) == Second(g, address))
      else if LandsFirst(g, address) then Overshot(g, s, address)
      else s.bumps <= 1 && s.r < i1
  }

  lemma SkipOvershoots(g: Region, s: Search, mid: int, address: uint32)
    requires g.Valid() && s.l <= mid <= s.r && mid == (s.l + s.r) / 2 && g.None(s.l, mid)
    requires Overshooting(g, s, address)
    ensures Overshooting(g, s.Skipped(mid), address)
  {
    hide LandsFirst, Second, Region.First;
  }

  lemma BelowOvershoots(g: Region, s: Search, m: int, mid: int, address: uint32)
    requires g.Valid() && s.l <= m <= mid <= s.r && mid == (s.l + s.r) / 2 && g.Match(m) && g.None(m + 1, mid)
    requires Overshooting(g, s, address) && g.stabs[m].n_value < s.addr
    ensures Overshooting(g, s.Below(m, mid), address)
  {
    hide LandsFirst, Second, Region.First;
    if Pair(g, address) {
      var i0, i1 := g.First(address), g.First(address + 1);
      if s.addr == address + 1 { assert m < i1 && mid < i1; }
      if s.addr == address { assert m < i0 && mid < i0; }
    }
  }

  lemma AboveOvershoots(g: Region, s: Search, m: int, mid: int, address: uint32)
    requires g.Valid() && s.l <= m <= mid <= s.r && mid == (s.l + s.r) / 2 && g.Match(m) && g.None(m + 1, mid)
    requires Overshooting(g, s, address) && g.stabs[m].n_value > s.addr
    ensures Overshooting(g, s.Above(m), address)
  {
    hide LandsFirst, Second, Region.First;
    if Pair(g, address) {
      PairPositions(g, address);
      if s.bumps == 0 && g.lo <= s.l <= g.First(address) && g.First(address + 1) <= s.r <= g.hi {
        assert m >= g.First(address + 1) && m == g.LastAtMost(mid, UINT_MAX);
      }
    }
  }

  /** A probe that lands on m, between i0 and i1. */
  lemma LandsHere(g: Region, l: int, r: int, m: int, mid: int, i0: int, i1: int)
    requires g.Valid() && g.lo <= l <= i0 <= m <= mid < i1 <= r <= g.hi && mid == (l + r) / 2
    requires g.Match(i0) && g.Match(i1) && g.Match(m) && g.None(m + 1, mid)
    ensures g.LandsBetween(l, r, i0, i1) && g.SecondLanding(l, r, i0, i1) == g.LandingFrom(m, r, i1)
  {
    assert m == g.LastAtMost(mid, UINT_MAX);
  }

  /** The first landing, on the address. */
  lemma FirstHitOvershoots(g: Region, s: Search, m: int, mid: int, address: uint32)
    requires g.Valid() && s.l <= m <= mid <= s.r && mid == (s.l + s.r) / 2 && g.Match(m) && g.None(m + 1, mid)
    requires Pair(g, address) && Overshooting(g, s, address) && g.stabs[m].n_value == address
    requires s.bumps == 0 && g.lo <= s.l <= g.First(address) && g.First(address + 1) <= s.r <= g.hi
    ensures Overshooting(g, s.Hit(m), address)
  {
    hide LandsFirst, Second, Region.First, Region.LandsBetween, Region.SecondLanding, Region.LandingFrom;
    PairPositions(g, address);
    LandsHere(g, s.l, s.r, m, mid, g.First(address), g.First(address + 1));
  }

  /** A later landing. */
  lemma NextHitOvershoots(g: Region, s: Search, m: int, mid: int, address: uint32)
    requires g.Valid() && s.l <= m <= mid <= s.r && mid == (s.l + s.r) / 2 && g.Match(m) && g.None(m + 1, mid)
    requires Pair(g, address) && Overshooting(g, s, address) && g.stabs[m].n_value == s.addr
    requires s.bumps <= 1 ==> s.addr == address + s.bumps
    requires !(s.bumps == 0 && g.lo <= s.l <= g.First(address) && g.First(address + 1) <= s.r <= g.hi)
    ensures Overshooting(g, s.Hit(m), address)
  {
    hide LandsFirst, Second, Region.First, Region.LandsBetween, Region.SecondLanding;
    PairPositions(g, address);
    if LandsFirst(g, address) {
      assert s.bumps < 2 ==> g.First(address + 1) <= m && m == g.LastAtMost(mid, UINT_MAX);
    } else {
      assert s.bumps == 0;
    }
  }

  lemma HitOvershoots(g: Region, s: Search, m: int, mid: int, address: uint32)
    requires g.Valid() && s.l <= m <= mid <= s.r && mid == (s.l + s.r) / 2 && g.Match(m) && g.None(m + 1, mid)
    requires Overshooting(g, s, address) && g.stabs[m].n_value == s.addr
    requires Pair(g, address) && s.bumps <= 1 ==> s.addr == address + s.bumps
    ensures Overshooting(g, s.Hit(m), address)
  {
    hide Pair, Overshot, LandsFirst, Second, Region.First, Region.LandsBetween, Region.SecondLanding;
    if Pair(g, address) {
      if s.bumps == 0 && g.lo <= s.l <= g.First(address) && g.First(address + 1) <= s.r <= g.hi {
        FirstHitOvershoots(g, s, m, mid, address);
      } else {
        NextHitOvershoots(g, s, m, mid, address);
      }
    }
  }

  /** On a sorted table this is exactly when the search finds the bracket of the address: the address is hit only after
      its successor got out of range, or never; or the next hit is on the last address, which makes the search fall back
      to the entry before that hit, and this entry is the last one with the address. */
  ghost predicate BumpIsHarmless(g: Region, address: uint32)
    requires g.Valid()
  {
    if Pair(g, address) then
      || !LandsFirst(g, address)
      || (address + 1 == UINT_MAX && Second(g, address) == g.First(UINT_MAX) && g.Match(g.First(UINT_MAX) - 1))
    else !(address == UINT_MAX && g.Occurs(UINT_MAX))
  }

  /** The search for the address is on sorted entries and finds its bracket. */
  ghost predicate Exact(g: Region, address: uint32)
    requires g.Valid()
  {
    g.Sorted() && BumpIsHarmless(g, address)
  }

  lemma SimpleIsExact(g: Region, address: uint32)
    requires g.Valid() && Simple(g, address)
    ensures Exact(g, address)
  {
    PairIff(g, address);
  }

  lemma OvershotIff(g: Region, s: Search, address: uint32)
    requires Inv(g, s) && s.l > s.r && s.any && Pair(g, address) && Overshooting(g, s, address)
    requires s.bumps <= 1 ==> Split(g, s) && s.addr == address + s.bumps
    ensures (Walked(s), s.r) == g.Bracket(address) <==> BumpIsHarmless(g, address)
    ensures g.lo <= Walked(s)
  {
    hide LandsFirst, Second, Region.First, Region.Bracket;
    PairBracket(g, address);
    if !LandsFirst(g, address) {
      SplitIsBracket(g, s);
    } else if address + 1 < UINT_MAX {
      assert s.r >= g.First(address + 1);
    } else {
      assert (Walked(s), s.r) == (s.l - 1, s.l - 1);
    }
  }

  /** Everything the loop keeps; the last four clauses are about kinds of sorted table. */
  ghost predicate Kept(g: Region, s: Search, address: uint32, steps: nat) {
    && Inv(g, s)
    && Hits(g, s, address)
    && steps + BitLength(s.r - s.l + 1) <= BitLength(g.hi - g.lo + 1) + s.bumps
    && (Simple(g, address) ==> s.bumps <= 1 && address + s.bumps <= UINT_MAX)
    && ((g.StrictlySorted() || (g.Sorted() && s.bumps <= 1)) && address + s.bumps <= UINT_MAX ==>
          s.addr == address + s.bumps && Split(g, s))
    && (Wraps(g, address) ==> Wrapping(g, s))
    && Overshooting(g, s, address)
  }

  lemma KeptAtStart(g: Region, address: uint32)
    requires g.Valid()
    ensures Kept(g, Search(g.lo, g.hi, g.lo, false, address, 0), address, 0)
  {
    hide Region.LandsBetween, Region.SecondLanding, Region.FirstAbove, Region.Occurs, BitLength;
  }

  lemma SkipKept(g: Region, s: Search, mid: int, address: uint32, steps: nat)
    requires Kept(g, s, address, steps) && s.l <= s.r && mid == (s.l + s.r) / 2 && g.None(s.l, mid)
    ensures Kept(g, s.Skipped(mid), address, steps + 1)
  {
    hide Overshooting, Inv, Split, Wrapping, Simple, Wraps, Advanced, BitLength, Region.Occurs;
    SkipKeeps(g, s, mid);
    SkipOvershoots(g, s, mid, address);
    Halve(s.r - s.l + 1, s.r - mid);
  }

  lemma BelowKept(g: Region, s: Search, m: int, mid: int, address: uint32, steps: nat)
    requires Kept(g, s, address, steps) && s.l <= m <= mid <= s.r && mid == (s.l + s.r) / 2
    requires g.Match(m) && g.None(m + 1, mid) && g.stabs[m].n_value < s.addr
    ensures Kept(g, s.Below(m, mid), address, steps + 1)
  {
    hide Overshooting, Inv, Split, Wrapping, Advanced, BitLength, Region.Occurs;
    BelowKeeps(g, s, m, mid);
    BelowOvershoots(g, s, m, mid, address);
    Halve(s.r - s.l + 1, s.r - mid);
  }

  lemma AboveKept(g: Region, s: Search, m: int, mid: int, address: uint32, steps: nat)
    requires Kept(g, s, address, steps) && s.l <= m <= mid <= s.r && mid == (s.l + s.r) / 2
    requires g.Match(m) && g.None(m + 1, mid) && g.stabs[m].n_value > s.addr
    ensures Kept(g, s.Above(m), address, steps + 1)
  {
    hide Overshooting, Inv, Split, Wrapping, Wraps, Advanced, BitLength, Region.Occurs;
    AboveKeeps(g, s, m);
    AboveOvershoots(g, s, m, mid, address);
    Halve(s.r - s.l + 1, m - s.l);
  }

  lemma HitKept(g: Region, s: Search, m: int, mid: int, address: uint32, steps: nat)
    requires Kept(g, s, address, steps) && s.l <= m <= mid <= s.r && mid == (s.l + s.r) / 2
    requires g.Match(m) && g.None(m + 1, mid) && g.stabs[m].n_value == s.addr
    ensures Kept(g, s.Hit(m), address, steps + 1)
  {
    hide Overshooting, Inv, Split, Wrapping, BitLength;
    HitKeeps(g, s, m);
    HitOvershoots(g, s, m, mid, address);
    assert g.Occurs(Advanced(address, s.bumps));
    BitLengthMonotone(s.r - m + 1, s.r - s.l + 1);
  }

  // ---------- What the search promises ----------

  /** On every table, sorted or not: only a region without a match is reported as left > right. */
  ghost predicate OnEveryTable(g: Region, left: int, right: int)
    requires g.Valid()
  {
    if g.None(g.lo, g.hi) then left == g.lo && right == g.lo - 1
    else g.lo - 1 <= left <= right <= g.hi && (left < g.lo ==> g.Match(g.lo))
  }

  /** On every table: each skipped address occurred, and there are no more other steps than halvings of the region. */
  ghost predicate StepsTaken(g: Region, address: uint32, bumps: nat, steps: nat)
    requires g.Valid()
  {
    && steps <= BitLength(g.hi - g.lo + 1) + bumps
    && (forall j :: 0 <= j < bumps ==> g.Occurs(Advanced(address, j)))
    && (Simple(g, address) ==> bumps <= 1)
  }

  /** On a sorted table the result is the bracket of the address if and only if the bump does no harm; harmful or not,
      the left end falls before the region exactly if the region starts with a match above the address. */
  ghost predicate OnSortedTable(g: Region, address: uint32, left: int, right: int)
    requires g.Valid()
  {
    g.Sorted() ==>
      && ((left, right) == g.Bracket(address) <==> BumpIsHarmless(g, address))
      && (address < UINT_MAX ==> (left < g.lo <==> g.Match(g.lo) && g.stabs[g.lo].n_value > address))
  }

  /** On a strictly sorted table the result is the bracket of address or of the last later address that was hit, unless
      the hits reached the last address of all; they do not reach an address that does not occur. */
  ghost predicate OnStrictTable(g: Region, address: uint32, left: int, right: int, bumps: nat)
    requires g.Valid()
  {
    && (g.StrictlySorted() && address + bumps <= UINT_MAX ==>
          (left, right) == g.Bracket(if bumps == 0 then address else address + bumps - 1))
    && forall v :: address <= v <= UINT_MAX && !g.Occurs(v) ==> address + bumps <= v
  }

  lemma SearchEndsEvery(g: Region, s: Search)
    requires Inv(g, s) && s.l > s.r
    ensures g.None(s.left + 1, s.r)
    ensures OnEveryTable(g, if s.any then Walked(s) else s.left, if s.any then s.r else s.left - 1)
  {
  }

  lemma BracketLeft(g: Region, a: int)
    requires g.Valid() && g.Sorted() && !g.None(g.lo, g.hi)
    ensures g.Bracket(a).0 < g.lo <==> g.Match(g.lo) && g.stabs[g.lo].n_value > a
  {
  }

  lemma NoMatchEndsSorted(g: Region, address: uint32)
    requires g.Valid() && g.None(g.lo, g.hi)
    ensures OnSortedTable(g, address, g.lo, g.lo - 1)
  {
  }

  lemma SearchEndsSorted(g: Region, s: Search, address: uint32, steps: nat)
    requires Kept(g, s, address, steps) && s.l > s.r
    ensures OnSortedTable(g, address, if s.any then Walked(s) else s.left, if s.any then s.r else s.left - 1)
  {
    hide Overshooting, Split, Wrapping, BitLength, Hits, LandsFirst, Second, Region.First, Region.Bracket;
    if !s.any {
      NoMatchEndsSorted(g, address);
    } else if g.Sorted() {
      PairIff(g, address);
      if Pair(g, address) {
        OvershotIff(g, s, address);
        PairPositions(g, address);
      } else if Wraps(g, address) {
        WrappingIsNoBracket(g, s);
      } else {
        SplitIsBracket(g, s);
        BracketLeft(g, address);
      }
    }
  }

  lemma {:induction false} AdvancedSum(address: uint32, n: nat)
    requires address + n <= UINT_MAX
    ensures Advanced(address, n) == address + n
  {
    if n > 0 { AdvancedSum(address, n - 1); }
  }

  lemma SearchEndsStrict(g: Region, s: Search, address: uint32, steps: nat)
    requires Kept(g, s, address, steps) && s.l > s.r
    ensures OnStrictTable(g, address, if s.any then Walked(s) else s.left, if s.any then s.r else s.left - 1, s.bumps)
  {
    hide Overshooting, Split, Wrapping, BitLength;
    if s.any && g.StrictlySorted() && address + s.bumps <= UINT_MAX {
      SplitIsBracket(g, s);
    }
    forall v | address <= v <= UINT_MAX && !g.Occurs(v) ensures address + s.bumps <= v {
      AdvancedSum(address, v - address);
    }
  }

  lemma SearchEnds(g: Region, s: Search, address: uint32, steps: nat)
    requires Kept(g, s, address, steps) && s.l > s.r
    ensures g.None(s.left + 1, s.r)
    ensures var right := if s.any then s.r else s.left - 1;
      var left := if s.any then Walked(s) else s.left;
      && OnEveryTable(g, left, right)
      && StepsTaken(g, address, s.bumps, steps)
      && OnSortedTable(g, address, left, right)
      && OnStrictTable(g, address, left, right, s.bumps)
  {
    SearchEndsEvery(g, s);
    SearchEndsSorted(g, s, address, steps);
    SearchEndsStrict(g, s, address, steps);
  }

  // ---------- Where the search misses the bracket ----------

  /** A table of two entries with the values 5 and 6, searched for 5: the hit on 5 sends the search on to 6. */
  lemma FiveGivesSix(stabs: seq<Stab>, left: int, right: int)
    requires |stabs| == 2 && stabs[0].n_type == stabs[1].n_type == N_SLINE
    requires stabs[0].n_value == 5 && stabs[1].n_value == 6
    ensures var g := Region(stabs, 0, 1, N_SLINE);
      && g.StrictlySorted() && g.Bracket(5) == (0, 0)
      && (OnSortedTable(g, 5, left, right) ==> (left, right) != (0, 0))
  {
    var g := Region(stabs, 0, 1, N_SLINE);
    assert g.Match(0) && g.Match(1);
    assert g.First(5) == 0 && g.First(6) == 1 && g.LandsBetween(0, 1, 0, 1);
  }

  /** The same with the last two addresses: the second bump makes the address 0, and the search falls back. */
  lemma LastTwoAreFound(stabs: seq<Stab>, left: int, right: int)
    requires |stabs| == 2 && stabs[0].n_type == stabs[1].n_type == N_SLINE
    requires stabs[0].n_value == 0xFFFF_FFFE && stabs[1].n_value == 0xFFFF_FFFF
    ensures var g := Region(stabs, 0, 1, N_SLINE);
      && LandsFirst(g, 0xFFFF_FFFE)
      && (OnSortedTable(g, 0xFFFF_FFFE, left, right) ==> (left, right) == g.Bracket(0xFFFF_FFFE) == (0, 0))
  {
    var g := Region(stabs, 0, 1, N_SLINE);
    assert g.Match(0) && g.Match(1);
    assert g.First(UINT_MAX - 1) == 0 && g.First(UINT_MAX) == 1;
    assert g.LandsBetween(0, 1, 0, 1) && g.LastAtMost(0, UINT_MAX) == 0;
    assert g.LandingFrom(0, 1, 1) == g.LandingFrom(1, 1, 1) == 1;
  }

  /** A single entry with the last address, searched for that address. */
  lemma LastAddressIsMissed(stabs: seq<Stab>, left: int, right: int)
    requires |stabs| == 1 && stabs[0].n_type == N_SLINE && stabs[0].n_value == 0xFFFF_FFFF
    ensures var g := Region(stabs, 0, 0, N_SLINE);
      && g.StrictlySorted() && g.Bracket(0xFFFF_FFFF) == (0, 0)
      && (OnSortedTable(g, 0xFFFF_FFFF, left, right) ==> (left, right) != (0, 0))
  {
    var g := Region(stabs, 0, 0, N_SLINE);
    assert g.Match(0);
  }

  /** stab_binsearch, returning region_left and region_right instead of writing through pointers to them;
      bumps counts the executions of addr++ and steps the iterations of the outer loop. */
  method StabBinsearch(stabs: seq<Stab>, regionLeft: int, regionRight: int, typ: byte, address: uint32)
    returns (left: int, right: int, ghost bumps: nat, ghost steps: nat)
    requires 0 <= regionLeft && regionRight < |stabs|
    ensures OnEveryTable(Region(stabs, regionLeft, regionRight, typ), left, right)
    ensures OnSortedTable(Region(stabs, regionLeft, regionRight, typ), address, left, right)
    ensures OnStrictTable(Region(stabs, regionLeft, regionRight, typ), address, left, right, bumps)
    ensures StepsTaken(Region(stabs, regionLeft, regionRight, typ), address, bumps, steps)
  {
    hide Kept, OnEveryTable, StepsTaken, OnSortedTable, OnStrictTable;
    ghost var g := Region(stabs, regionLeft, regionRight, typ);
    KeptAtStart(g, address);
    var addr := address;
    var l, r, anyMatches := regionLeft, regionRight, false;
    left, right, bumps, steps := regionLeft, regionRight, 0, 0;
    while l <= r
      invariant right == r && regionLeft <= l && r <= regionRight
      invariant Kept(g, Search(l, r, left, anyMatches, addr, bumps), address, steps)
      decreases r - l, if g.Match(l) && stabs[l].n_value == addr then 1 else 0
    {
      ghost var s := Search(l, r, left, anyMatches, addr, bumps);
      var trueM := (l + r) / 2;
      var m := trueM;
      while m >= l && stabs[m].n_type != typ
        invariant l - 1 <= m <= trueM
        invariant g.None(m + 1, trueM)
      {
        m := m - 1;
      }
      if m < l {
        SkipKept(g, s, trueM, address, steps);
        l := trueM + 1;
      } else {
        anyMatches := true;
        if stabs[m].n_value < addr {
          BelowKept(g, s, m, trueM, address, steps);
          left := m;
          l := trueM + 1;
        } else if stabs[m].n_value > addr {
          AboveKept(g, s, m, trueM, address, steps);
          right := m - 1;
          r := m - 1;
        } else {
          HitKept(g, s, m, trueM, address, steps);
          left := m;
          l := m;
          addr := Next(addr);
          bumps := bumps + 1;
        }
      }
      steps := steps + 1;
    }
    ghost var s := Search(l, r, left, anyMatches, addr, bumps);
    SearchEnds(g, s, address, steps);
    if !anyMatches {
      right := left - 1;
    } else {
      l := right;
      while l > left && stabs[l].n_type != typ
        invariant l == right || left <= l <= right
        invariant l > left ==> !g.Match(l)
      {
        l := l - 1;
      }
      left := l;
    }
  }
}
