/** The text screen of kern/console.c: a 25-row window onto a page that only grows. */
module Screen {
  import opened CTypes

  const COLS := 80
  /** of 25 rows */
  const SIZE := 2000

  /** black on white */
  const BLANK: uint16 := 0x0720

  const BACKSPACE := 8
  const TAB := 9
  const NEWLINE := 10
  const RETURN := 13
  const SPACE := 32

  /** Everything ever shown: cells of the page, the number of rows above the window, and the cursor's place on the page. */
  datatype Page = Page(cells: seq<uint16>, top: nat, pos: nat) {
    predicate Valid() {
      |cells| == COLS * top + SIZE && COLS * top <= pos < |cells|
    }

    /** The screen shows the last 25 rows. */
    function Window(): seq<uint16>
      requires Valid()
    {
      cells[COLS * top..]
    }

    /** A cursor that has left the page gets a blank row, and the window slides down to it. */
    function Extended(): Page {
      if pos >= |cells| then Page(cells + seq(COLS, _ => BLANK), top + 1, pos) else this
    }

    /** The effect of one character other than a tab, before the page is extended. */
    function Bare(c: int): (p: Page)
      requires Valid()
      ensures |p.cells| == COLS * p.top + SIZE && COLS * p.top <= p.pos <= |p.cells|
    {
      var cell := Colored(c);
      match c % 0x100
      case 8 =>
        if pos > COLS * top then Page(cells[pos - 1 := Stored(cell - cell % 0x100 + SPACE)], top, pos - 1) else this
      case 10 => this.(pos := pos + COLS - pos % COLS)
      case 13 => this.(pos := pos - pos % COLS)
      case _ => Page(cells[pos := Stored(cell)], top, pos + 1)
    }

    function PutOne(c: int): (p: Page)
      requires Valid()
      ensures p.Valid()
    {
      Bare(c).Extended()
    }

    /** A tab is five spaces. */
    function Put(c: int): (p: Page)
      requires Valid()
      ensures p.Valid()
    {
      if c % 0x100 == TAB then PutOne(SPACE).PutOne(SPACE).PutOne(SPACE).PutOne(SPACE).PutOne(SPACE) else PutOne(c)
    }

    function PutAll(cs: seq<int>): (p: Page)
      requires Valid()
      decreases |cs|
      ensures p.Valid()
    {
      if cs == [] then this else PutAll(cs[..|cs| - 1]).Put(cs[|cs| - 1])
    }
  }

  /** A character without an attribute is shown black on white. */
  function Colored(c: int): int { if 0 <= c < 0x100 then c + 0x0700 else c }

  /** What a 16-bit cell keeps of an int. */
  function Stored(c: int): uint16 { c % 0x1_0000 }

  /** The display: crt_buf and crt_pos, which page accounts for. */
  class Cga {
    const crt_buf: array<uint16>
    var crt_pos: nat
    ghost var page: Page

    ghost predicate Valid()
      reads this, crt_buf
    {
      && page.Valid()
      && crt_buf[..] == page.Window()
      && crt_pos == page.pos - COLS * page.top
    }

    /** cga_init: the display as it is found, with the cursor on the screen. */
    constructor (found: array<uint16>, pos: nat)
      requires found.Length == SIZE && pos < SIZE
      ensures Valid() && crt_buf == found && page == Page(found[..], 0, pos)
    {
      crt_buf, crt_pos, page := found, pos, Page(found[..], 0, pos);
    }

    /** The end of cga_putc: a cursor below the screen scrolls it by a row. next is the page before it is extended. */
    method Scroll(ghost next: Page)
      requires crt_buf.Length == SIZE && |next.cells| == COLS * next.top + SIZE
      requires crt_buf[..] == next.cells[COLS * next.top..]
      requires COLS * next.top <= next.pos <= |next.cells| && crt_pos == next.pos - COLS * next.top
      modifies this, crt_buf
      ensures Valid() && page == next.Extended()
    {
      if crt_pos >= SIZE {
        ghost var was := crt_buf[..];
        for i := 0 to SIZE - COLS
          modifies crt_buf
          invariant forall k :: 0 <= k < i ==> crt_buf[k] == was[k + COLS]
          invariant forall k :: i <= k < SIZE ==> crt_buf[k] == was[k]
        {
          crt_buf[i] := crt_buf[i + COLS];
        }
        for i := SIZE - COLS to SIZE
          modifies crt_buf
          invariant forall k :: 0 <= k < SIZE - COLS ==> crt_buf[k] == was[k + COLS]
          invariant forall k :: SIZE - COLS <= k < i ==> crt_buf[k] == BLANK
        {
          crt_buf[i] := BLANK;
        }
        crt_pos := crt_pos - COLS;
      }
      page := next.Extended();
      assert crt_buf[..] == page.cells[COLS * page.top..];
    }

    /** Stores a cell and moves the cursor. */
    method Store(at: nat, cell: uint16, pos: nat)
      requires Valid() && at < SIZE
      modifies this, crt_buf
      ensures crt_buf[..] == old(crt_buf[..])[at := cell] && crt_pos == pos
      ensures crt_buf[..] == old(page).cells[old(page).pos - old(crt_pos) + at := cell][COLS * old(page).top..]
    {
      crt_buf[at] := cell;
      crt_pos := pos;
    }

    /** The cases of cga_putc other than the tab. */
    method PutBare(ch: int)
      requires Valid() && ch % 0x100 != TAB
      modifies this, crt_buf
      ensures crt_buf[..] == old(page).Bare(ch).cells[COLS * old(page).Bare(ch).top..]
      ensures crt_pos == old(page).Bare(ch).pos - COLS * old(page).Bare(ch).top
    {
      var c := if 0 <= ch < 0x100 then ch + 0x0700 else ch;
      assert c % 0x100 == ch % 0x100 && c == Colored(ch);
      hide Colored, Stored;
      if c % 0x100 == BACKSPACE {
        if crt_pos > 0 {
          Store(crt_pos - 1, Stored(c - c % 0x100 + SPACE), crt_pos - 1);
        }
      } else if c % 0x100 == NEWLINE || c % 0x100 == RETURN {
        RowStart(page.top, page.pos, crt_pos);
        if c % 0x100 == NEWLINE {
          crt_pos := crt_pos + COLS;
        }
        crt_pos := crt_pos - crt_pos % COLS;
      } else {
        Store(crt_pos, Stored(c), crt_pos + 1);
      }
    }

    /** cga_putc (and cons_putc, whose other two devices are left out) */
    method Putc(ch: int)
      requires Valid()
      modifies this, crt_buf
      decreases if ch % 0x100 == TAB then 1 else 0, 1
      ensures Valid() && page == old(page).Put(ch)
    {
      hide Page.Bare, Page.Extended;
      if ch % 0x100 == TAB {
        PutTab();
      } else {
        PutBare(ch);
        Scroll(old(page).Bare(ch));
      }
    }

    /** The tab case of cga_putc; its cursor is back on the screen already. */
    method PutTab()
      requires Valid()
      modifies this, crt_buf
      decreases 1, 0
      ensures Valid() && page == old(page).Put(TAB)
    {
      hide Page.PutOne;
      Putc(SPACE);
      Putc(SPACE);
      Putc(SPACE);
      Putc(SPACE);
      Putc(SPACE);
      Scroll(page);
    }
  }

  /** Rows start at the same cells on the page and on the screen. */
  lemma RowStart(top: nat, pos: nat, crt: nat)
    requires pos == COLS * top + crt
    ensures pos % COLS == crt % COLS && (crt + COLS) % COLS == crt % COLS
  {
  }

  // ---------- The characters, in numbers ----------

  /** The screen shows the last 25 rows of 80 cells, and the cursor is on it. */
  lemma WindowMeans(p: Page)
    requires p.Valid()
    ensures |p.Window()| == 2000 && |p.cells| == 80 * p.top + 2000 && 80 * p.top <= p.pos < 80 * p.top + 2000
    ensures forall k :: 0 <= k < 2000 ==> p.Window()[k] == p.cells[80 * p.top + k]
  {
  }

  /** If the cursor leaves the page, a row of blanks is added and the window slides by one row. */
  ghost predicate Grows(p: Page, q: Page) {
    if q.pos < 80 * p.top + 2000 then q.top == p.top && |q.cells| == |p.cells|
    else
      && q.top == p.top + 1 && |q.cells| == |p.cells| + 80
      && forall k :: |p.cells| <= k < |q.cells| ==> q.cells[k] == 0x0720
  }

  /** A character is stored at the cursor, with attribute 7 unless it has one, and the cursor moves on. */
  lemma CharacterPut(p: Page, c: int)
    requires p.Valid() && c % 0x100 !in {8, 9, 10, 13}
    ensures var q := p.Put(c);
      && q.pos == p.pos + 1 && Grows(p, q) && |p.cells| <= |q.cells|
      && q.cells[..|p.cells|] == p.cells[p.pos := (if 0 <= c < 0x100 then 0x0700 + c else c) % 0x1_0000]
  {
    hide Colored, Stored;
    assert Stored(Colored(c)) == (if 0 <= c < 0x100 then 0x0700 + c else c) % 0x1_0000 by { StoredMeans(c); }
  }

  lemma StoredMeans(c: int)
    ensures Stored(Colored(c)) == (if 0 <= c < 0x100 then 0x0700 + c else c) % 0x1_0000
    ensures Stored(Colored(8) - 8 + 0x20) == 0x0720
  {
  }

  /** A backspace moves the cursor back and blanks the cell there; at the start of the screen it does nothing. */
  lemma BackspacePut(p: Page)
    requires p.Valid()
    ensures p.Put(8) == if p.pos > 80 * p.top then Page(p.cells[p.pos - 1 := 0x0720], p.top, p.pos - 1) else p
  {
    hide Stored;
    assert Colored(8) % 0x100 == 8;
    StoredMeans(8);
  }

  /** A newline moves the cursor to the start of the next row. */
  lemma NewlinePut(p: Page)
    requires p.Valid()
    ensures var q := p.Put(10);
      q.pos % 80 == 0 && p.pos < q.pos <= p.pos + 80 && Grows(p, q) && |p.cells| <= |q.cells| && q.cells[..|p.cells|] == p.cells
  {
    NextRow(p.pos);
    var r := p.(pos := p.pos + 80 - p.pos % 80);
    assert p.Bare(10) == r;
    hide Page.Bare;
    assert p.Put(10) == r.Extended();
  }

  lemma NextRow(pos: nat)
    ensures (pos + 80 - pos % 80) % 80 == 0 && pos < pos + 80 - pos % 80 <= pos + 80
    ensures (pos - pos % 80) % 80 == 0 && pos - pos % 80 <= pos < pos - pos % 80 + 80
  {
  }

  /** A carriage return moves it to the start of its own row. */
  lemma ReturnPut(p: Page)
    requires p.Valid()
    ensures var q := p.Put(13);
      q.pos % 80 == 0 && q.pos <= p.pos < q.pos + 80 && q.top == p.top && q.cells == p.cells
  {
    NextRow(p.pos);
    assert p.Bare(13) == p.(pos := p.pos - p.pos % 80);
  }

  /** A tab is five spaces. */
  lemma TabPut(p: Page)
    requires p.Valid()
    ensures p.Put(9) == p.Put(0x20).Put(0x20).Put(0x20).Put(0x20).Put(0x20)
  {
    hide Page.PutOne;
  }

  // ---------- What holds of every run ----------

  /** q follows from p: the window has not moved up, and the rows above p's window are as they were. */
  predicate Follows(p: Page, q: Page) {
    && p.Valid() && q.Valid()
    && p.top <= q.top
    && q.cells[..COLS * p.top] == p.cells[..COLS * p.top]
  }

  lemma OneFollows(p: Page, c: int)
    requires p.Valid()
    ensures Follows(p, p.PutOne(c)) && p.PutOne(c).top <= p.top + 1
  {
    var q := p.Bare(c);
    assert q.cells[..COLS * p.top] == p.cells[..COLS * p.top];
  }

  /** A scroll slides the window by one row, onto a blank row that the cursor is the start of; otherwise the window stays. */
  lemma ScrollSlides(p: Page, c: int)
    requires p.Valid()
    ensures var q, bare := p.PutOne(c), p.Bare(c);
      if q.top == p.top then q == bare
      else
        && q.top == p.top + 1 && q.pos == COLS * q.top + SIZE - COLS
        && q.Window() == bare.cells[COLS * p.top + COLS..] + seq(COLS, _ => BLANK)
  {
    RowStart(p.top, p.pos, p.pos - COLS * p.top);
  }

  lemma FollowsTransitive(p: Page, q: Page, r: Page)
    requires Follows(p, q) && Follows(q, r)
    ensures Follows(p, r)
  {
    assert r.cells[..COLS * p.top] == r.cells[..COLS * q.top][..COLS * p.top];
    assert q.cells[..COLS * p.top] == q.cells[..COLS * q.top][..COLS * p.top];
  }

  lemma PutFollows(p: Page, c: int)
    requires p.Valid()
    ensures Follows(p, p.Put(c))
  {
    hide Page.PutOne, Follows;
    OneFollows(p, c);
    OneFollows(p, SPACE);
    var p1 := p.PutOne(SPACE);
    OneFollows(p1, SPACE);
    var p2 := p1.PutOne(SPACE);
    OneFollows(p2, SPACE);
    var p3 := p2.PutOne(SPACE);
    OneFollows(p3, SPACE);
    var p4 := p3.PutOne(SPACE);
    OneFollows(p4, SPACE);
    var p5 := p4.PutOne(SPACE);
    FollowsTransitive(p, p1, p2);
    FollowsTransitive(p, p2, p3);
    FollowsTransitive(p, p3, p4);
    FollowsTransitive(p, p4, p5);
  }

  /** After any characters, rows that have left the window are as they were when they left it. */
  lemma {:induction false} HistoryIsKept(p: Page, cs: seq<int>)
    requires p.Valid()
    ensures Follows(p, p.PutAll(cs))
    decreases |cs|
  {
    if cs != [] {
      hide Page.Put;
      var q := p.PutAll(cs[..|cs| - 1]);
      HistoryIsKept(p, cs[..|cs| - 1]);
      PutFollows(q, cs[|cs| - 1]);
      FollowsTransitive(p, q, q.Put(cs[|cs| - 1]));
    }
  }
}
