/** The line editor of lib/readline.c, and what it leaves on the screen. */
module Readline {
  import opened CTypes
  import opened Format
  import opened Screen

  const BUFLEN := 1024
  const DELETE := 0x7F

  // ---------- The line that is typed ----------

  predicate EndsLine(key: byte) { key == NEWLINE || key == RETURN }

  /** The effect of a key that does not end the line. */
  function Edit(line: seq<byte>, key: byte): seq<byte> {
    if (key == BACKSPACE || key == DELETE) && line != [] then line[..|line| - 1]
    else if key >= SPACE && |line| < BUFLEN - 1 then line + [key]
    else line
  }

  function Edited(keys: seq<byte>): (line: seq<byte>)
    ensures |line| < BUFLEN
    ensures forall k :: 0 <= k < |line| ==> line[k] >= SPACE
  {
    if keys == [] then [] else Edit(Edited(keys[..|keys| - 1]), keys[|keys| - 1])
  }

  /** How many of the keys are used: up to the first that ends the line. */
  function Used(keys: seq<byte>, from: nat): (n: nat)
    requires from <= |keys|
    decreases |keys| - from
    ensures from <= n <= |keys| && (n < |keys| ==> EndsLine(keys[n]))
    ensures forall k :: from <= k < n ==> !EndsLine(keys[k])
  {
    if from == |keys| || EndsLine(keys[from]) then from else Used(keys, from + 1)
  }

  lemma EditedAppend(keys: seq<byte>, c: byte)
    ensures Edited(keys + [c]) == Edit(Edited(keys), c)
  {
    assert (keys + [c])[..|keys|] == keys;
  }

  /** A printable character is appended, up to 1023 of them; 0x7f is one only on an empty line. */
  lemma CharacterAppends(keys: seq<byte>, c: byte)
    requires 0x20 <= c && (c == 0x7F ==> Edited(keys) == [])
    ensures Edited(keys + [c]) == if |Edited(keys)| < 1023 then Edited(keys) + [c] else Edited(keys)
  {
    EditedAppend(keys, c);
  }

  /** Backspace and delete remove the last character. */
  lemma BackspaceRemoves(keys: seq<byte>, d: byte)
    requires d in {0x08, 0x7F} && Edited(keys) != []
    ensures Edited(keys + [d]) == Edited(keys)[..|Edited(keys)| - 1]
  {
    EditedAppend(keys, d);
  }

  /** So a character that is typed and erased might as well not have been typed. */
  lemma TypedAndErased(keys: seq<byte>, c: byte, d: byte)
    requires 0x20 <= c && (c == 0x7F ==> Edited(keys) == []) && d in {0x08, 0x7F} && |Edited(keys)| < 1023
    ensures Edited(keys + [c, d]) == Edited(keys)
  {
    hide Edited;
    CharacterAppends(keys, c);
    BackspaceRemoves(keys + [c], d);
    assert keys + [c, d] == keys + [c] + [d];
  }

  /** Every other control character is ignored, and so is backspace on an empty line. */
  lemma ControlIsIgnored(keys: seq<byte>, c: byte)
    requires c < 0x20 && (c == 0x08 ==> Edited(keys) == [])
    ensures Edited(keys + [c]) == Edited(keys)
  {
    EditedAppend(keys, c);
  }

  /** The line ends with the first newline or carriage return. */
  lemma LineEndsAt(keys: seq<byte>, c: byte, rest: seq<byte>)
    requires 10 !in keys && 13 !in keys && c in {10, 13}
    ensures Used(keys + [c] + rest, 0) == |keys| && (keys + [c] + rest)[..|keys|] == keys
    ensures Used(keys, 0) == |keys|
  {
    var all := keys + [c] + rest;
    forall k | 0 <= k < |keys| ensures all[k] == keys[k] && !EndsLine(keys[k]) {
      assert keys[k] in keys;
    }
    assert all[|keys|] == c;
  }

  /** A character is shown black on white. */
  lemma ShownBlackOnWhite(c: byte)
    ensures Shows(c) == 0x0700 + c
  {
  }

  /** Delete on an empty line is a character like any other; backspace is not, as it is below a space. */
  lemma DeleteOnEmptyLine()
    ensures Edited([0x7F]) == [0x7F] && Edited([0x08]) == [] && Edited([0x7F, 0x7F]) == []
  {
    CharacterAppends([], 0x7F);
    ControlIsIgnored([], 0x08);
    TypedAndErased([], 0x7F, 0x7F);
    assert [] + [0x7F] == [0x7F] && [] + [0x08] == [0x08] && [] + [0x7F, 0x7F] == [0x7F, 0x7F];
  }

  // ---------- What is on the screen ----------

  /** The cell that shows a character of the line. */
  function Shows(c: byte): uint16 { Stored(Colored(c)) }

  /** The line is on the page from position 'start' on, with the cursor after it, all of it is in the window,
      and everything before it is as it was on page p. */
  ghost predicate ShowsLine(p: Page, start: nat, line: seq<byte>, q: Page) {
    && q.Valid() && start <= |p.cells| && p.top <= q.top
    && COLS * q.top <= start && q.pos == start + |line|
    && q.cells[..start] == p.cells[..start]
    && forall k :: 0 <= k < |line| ==> q.cells[start + k] == Shows(line[k])
  }

  lemma PutKey(q: Page, c: byte)
    requires q.Valid() && c >= SPACE
    ensures q.Put(c) == Page(q.cells[q.pos := Shows(c)], q.top, q.pos + 1).Extended()
  {
    hide Page.Extended, Stored;
    assert c % 0x100 == c;
    assert q.Bare(c) == Page(q.cells[q.pos := Shows(c)], q.top, q.pos + 1);
  }

  lemma PutBackspace(q: Page)
    requires q.Valid() && q.pos > COLS * q.top
    ensures q.Put(BACKSPACE) == Page(q.cells[q.pos - 1 := BLANK], q.top, q.pos - 1)
  {
    hide Page.Window;
    assert Colored(BACKSPACE) == 0x0708 && Stored(0x0720) == BLANK;
    hide Colored, Stored;
    assert q.Bare(BACKSPACE) == Page(q.cells[q.pos - 1 := BLANK], q.top, q.pos - 1);
  }

  /** An echoed backspace blanks the cell of the character that is removed from the line. */
  lemma BackspaceErases(p: Page, start: nat, line: seq<byte>, q: Page)
    requires ShowsLine(p, start, line, q) && line != []
    ensures ShowsLine(p, start, line[..|line| - 1], q.Put(BACKSPACE))
    ensures q.Put(BACKSPACE).cells == q.cells[start + |line| - 1 := BLANK]
  {
    hide Page.Put;
    PutBackspace(q);
    var r := Page(q.cells[q.pos - 1 := BLANK], q.top, q.pos - 1);
    assert r.cells[..start] == q.cells[..start];
  }

  /** An echoed character appears after the line; if that scrolls, the line is short enough to stay in the window. */
  lemma EchoShows(p: Page, start: nat, line: seq<byte>, q: Page, c: byte)
    requires ShowsLine(p, start, line, q) && |line| < BUFLEN - 1 && c >= SPACE
    ensures ShowsLine(p, start, line + [c], q.Put(c))
  {
    hide Page.Put, Shows;
    PutKey(q, c);
    var r := Page(q.cells[q.pos := Shows(c)], q.top, q.pos + 1);
    var e := r.Extended();
    assert r.cells[..start] == q.cells[..start];
    assert e.cells[..start] == r.cells[..start];
    forall k | 0 <= k < |line + [c]| ensures e.cells[start + k] == Shows((line + [c])[k]) {
      assert e.cells[start + k] == r.cells[start + k];
    }
  }

  lemma EditStep(keys: seq<byte>, n: nat)
    requires n < |keys|
    ensures Edited(keys[..n + 1]) == Edit(Edited(keys[..n]), keys[n])
  {
    assert keys[..n + 1][..n] == keys[..n];
  }

  /** cprintf("%s", prompt) */
  method PrintPrompt(con: Cga, prompt: seq<cchar>)
    requires con.Valid()
    modifies con, con.crt_buf
    ensures con.Valid() && con.page == old(con.page).PutAll(Shown(prompt, false))
  {
    hide Page.Put;
    ghost var codes := Shown(prompt, false);
    for k := 0 to |prompt|
      invariant con.Valid() && con.page == old(con.page).PutAll(codes[..k])
    {
      con.Putc(SignedChar(prompt[k]));
      assert codes[..k + 1][..k] == codes[..k];
    }
    assert codes[..|prompt|] == codes;
  }

  /** One turn of readline's loop. line is shown from 'start' on, after page p. */
  method TypeKey(con: Cga, buf: array<byte>, i: nat, c: byte, ghost p: Page, ghost start: nat, ghost line: seq<byte>)
    returns (next: nat, done: bool)
    requires con.Valid() && ShowsLine(p, start, line, con.page)
    requires buf.Length == BUFLEN && buf != con.crt_buf as object && i == |line| < BUFLEN && buf[..i] == line
    modifies con, con.crt_buf, buf
    ensures con.Valid() && (done <==> EndsLine(c))
    ensures next == |Edit(line, c)| < BUFLEN && buf[..next] == Edit(line, c)
    ensures if done then buf[next] == 0 && con.page == old(con.page).Put(NEWLINE)
            else ShowsLine(p, start, Edit(line, c), con.page)
  {
    hide Page.Put, ShowsLine;
    next, done := i, false;
    if (c == BACKSPACE || c == DELETE) && i > 0 {
      BackspaceErases(p, start, line, con.page);
      con.Putc(BACKSPACE);
      next := i - 1;
    } else if c >= SPACE && i < BUFLEN - 1 {
      EchoShows(p, start, line, con.page, c);
      con.Putc(c);
      buf[i] := c;
      next := i + 1;
    } else if c == NEWLINE || c == RETURN {
      con.Putc(NEWLINE);
      buf[i] := 0;
      done := true;
    }
  }

  /** readline. keys are the characters that getchar delivers; done says that one of them ended the line;
      prompted is the page after the prompt and page the one before the line was ended. */
  method ReadLine(con: Cga, buf: array<byte>, prompt: seq<cchar>, keys: seq<byte>)
    returns (done: bool, i: nat, ghost prompted: Page, ghost page: Page)
    requires con.Valid() && buf.Length == BUFLEN && buf != con.crt_buf as object
    modifies con, con.crt_buf, buf
    ensures con.Valid() && prompted == old(con.page).PutAll(Shown(prompt, false))
    ensures done <==> Used(keys, 0) < |keys|
    ensures var line := Edited(keys[..Used(keys, 0)]);
      && i == |line| && buf[..i] == line
      && ShowsLine(prompted, prompted.pos, line, page)
    ensures if done then buf[i] == 0 && con.page == page.Put(NEWLINE) else con.page == page
    // while the line is being typed, the cells before the cursor are the buffer's characters
    ensures !done ==>
      && i <= con.crt_pos < con.crt_buf.Length
      && forall k :: 0 <= k < i ==> con.crt_buf[con.crt_pos - i + k] == Shows(buf[k])
  {
    hide Page.Put, Edit, Edited, Shown, ShowsLine;
    PrintPrompt(con, prompt);
    i, done, prompted, page := 0, false, con.page, con.page;
    ghost var start := page.pos;
    ShowsNothing(page);
    ghost var line := [];
    var n := 0;
    while n < |keys|
      invariant 0 <= n <= |keys| && Used(keys, n) == Used(keys, 0)
      invariant con.Valid() && con.page == page
      invariant line == Edited(keys[..n]) && i == |line| < BUFLEN && buf[..i] == line
      invariant ShowsLine(prompted, start, line, page)
    {
      EditStep(keys, n);
      i, done := TypeKey(con, buf, i, keys[n], prompted, start, line);
      if done {
        EndIsNoEdit(line, keys[n]);
        return;
      }
      page, line := con.page, Edit(line, keys[n]);
      n := n + 1;
    }
    assert keys[..n] == keys;
    LineOnScreen(con, prompted, start, line);
    assert forall k :: 0 <= k < i ==> buf[k] == buf[..i][k];
  }

  lemma EndIsNoEdit(line: seq<byte>, c: byte)
    requires EndsLine(c)
    ensures Edit(line, c) == line
  {
  }

  /** A line shown on the page of the display is on the screen, up to the cursor. */
  lemma LineOnScreen(con: Cga, p: Page, start: nat, line: seq<byte>)
    requires con.Valid() && ShowsLine(p, start, line, con.page)
    ensures |line| <= con.crt_pos < con.crt_buf.Length
    ensures forall k :: 0 <= k < |line| ==> con.crt_buf[con.crt_pos - |line| + k] == Shows(line[k])
  {
    forall k | 0 <= k < |line| ensures con.crt_buf[con.crt_pos - |line| + k] == Shows(line[k]) {
      assert con.crt_buf[con.crt_pos - |line| + k] == con.crt_buf[..][con.crt_pos - |line| + k] == con.page.cells[start + k];
    }
  }

  lemma ShowsNothing(p: Page)
    requires p.Valid()
    ensures ShowsLine(p, p.pos, [], p) && Edited([]) == []
  {
  }
}
