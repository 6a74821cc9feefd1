/** The keyboard, key by key: which scancodes give which characters and which are modifiers. */
module Layout {
  import opened CTypes
  import opened Keyboard

  /** The character of a key without and with the shift key. */
  function Plain(code: byte): byte { KeyChar(IDLE, code) }

  function Shifted(code: byte): byte { KeyChar(IDLE.(shift := true), code) }

  function Controlled(code: byte): byte { KeyChar(IDLE.(ctl := true), code) }

  // ---------- Characters ----------

  lemma DigitRow(k: nat)
    requires k < 12
    ensures Plain(0x02 + k) == "1234567890-="[k] as int && Shifted(0x02 + k) == "!@#$%^&*()_+"[k] as int
  {
    if k < 6 { assert k in {0, 1, 2, 3, 4, 5}; } else { assert k in {6, 7, 8, 9, 10, 11}; }
  }

  lemma TopRow(k: nat)
    requires k < 12
    ensures Plain(0x10 + k) == "qwertyuiop[]"[k] as int && Shifted(0x10 + k) == "QWERTYUIOP{}"[k] as int
  {
    if k < 6 { assert k in {0, 1, 2, 3, 4, 5}; } else { assert k in {6, 7, 8, 9, 10, 11}; }
  }

  lemma HomeRow(k: nat)
    requires k < 12
    ensures Plain(0x1E + k) == "asdfghjkl;'`"[k] as int && Shifted(0x1E + k) == "ASDFGHJKL:\"~"[k] as int
  {
    if k < 6 { assert k in {0, 1, 2, 3, 4, 5}; } else { assert k in {6, 7, 8, 9, 10, 11}; }
  }

  lemma BottomRow(k: nat)
    requires k < 11
    ensures Plain(0x2B + k) == "\\zxcvbnm,./"[k] as int && Shifted(0x2B + k) == "|ZXCVBNM<>?"[k] as int
  {
    if k < 6 { assert k in {0, 1, 2, 3, 4, 5}; } else { assert k in {6, 7, 8, 9, 10}; }
  }

  lemma OtherKeys()
    ensures Plain(0x01) == Shifted(0x01) == 0x1B && Plain(0x0E) == Shifted(0x0E) == 8 && Plain(0x0F) == Shifted(0x0F) == 9
    ensures Plain(0x1C) == Shifted(0x1C) == 10 && Controlled(0x1C) == 13 && Plain(0x39) == Shifted(0x39) == 32
    ensures Plain(0x37) == Shifted(0x37) == '*' as int
  {
  }

  /** The number pad */
  lemma Keypad(k: nat)
    requires k < 13
    ensures Plain(0x47 + k) == Shifted(0x47 + k) == "789-456+1230."[k] as int && Controlled(0x47 + k) == 0
  {
    if k < 6 { assert k in {0, 1, 2, 3, 4, 5}; } else { assert k in {6, 7, 8, 9, 10, 11, 12}; }
  }

  /** With the control key a letter key gives the letter's place in the alphabet, the two slash keys 0x1c and 0xef,
      and the other keys of the rows nothing. */
  lemma ControlTop(k: nat)
    requires k < 12
    ensures Controlled(0x10 + k) == if k < 10 then Plain(0x10 + k) - 96 else 0
    ensures k < 10 ==> 97 <= Plain(0x10 + k) < 123
  {
    hide Plain;
    TopRow(k);
    if k < 6 { assert k in {0, 1, 2, 3, 4, 5}; } else { assert k in {6, 7, 8, 9, 10, 11}; }
  }

  lemma ControlHome(k: nat)
    requires k < 12
    ensures Controlled(0x1E + k) == if k < 9 then Plain(0x1E + k) - 96 else 0
    ensures k < 9 ==> 97 <= Plain(0x1E + k) < 123
  {
    hide Plain;
    HomeRow(k);
    if k < 6 { assert k in {0, 1, 2, 3, 4, 5}; } else { assert k in {6, 7, 8, 9, 10, 11}; }
  }

  lemma ControlBottom(k: nat)
    requires k < 11
    ensures Controlled(0x2B + k) == if k == 0 then 0x1C else if k < 8 then Plain(0x2B + k) - 96 else if k == 10 then 0xEF else 0
    ensures 0 < k < 8 ==> 97 <= Plain(0x2B + k) < 123
  {
    hide Plain;
    BottomRow(k);
    if k < 6 { assert k in {0, 1, 2, 3, 4, 5}; } else { assert k in {6, 7, 8, 9, 10}; }
  }

  lemma ControlLow(code: byte)
    requires code < 0x10 || code in {0x1D, 0x2A}
    ensures Controlled(code) == 0
  {
  }

  /** The lock swaps the case of a letter and leaves other characters, whichever modifiers are held. */
  lemma CapsSwapsCase(s: State, code: byte)
    requires !s.caps
    ensures var c := KeyChar(s, code);
      KeyChar(s.(caps := true), code) == if 97 <= c < 123 then c - 32 else if 65 <= c < 91 then c + 32 else c
  {
    hide PlainMap, ControlMap;
  }

  /** The keys behind the escape: cursor keys, slash and enter of the pad. With the control key they give the same, but
      for slash, enter and the home key, whose entry is at another place of the table. */
  lemma EscapedKeys(s: State, b: byte)
    requires s.e0 && !s.caps && b < 0x80 && b !in {0x1D, 0x38}
    ensures s.Char(b) ==
      match b
      case 0x47 => if s.ctl then 0 else 0xE0
      case 0x17 => if s.ctl then 0xE0 else 0
      case 0x1C => if s.ctl then 0 else 10
      case 0x35 => if s.ctl then 0xEF else 0x2F
      case 0x48 => 0xE2
      case 0x49 => 0xE6
      case 0x4B => 0xE4
      case 0x4D => 0xE5
      case 0x4F => 0xE1
      case 0x50 => 0xE3
      case 0x51 => 0xE7
      case 0x52 => 0xE8
      case 0x53 => 0xE9
      case _ => 0
  {
    OtherBytes(s, b);
    hide State.After;
    assert s.Char(b) == KeyChar(s.(e0 := false), b + 0x80);
  }

  /** The release of a key gives no character, and neither does the escape. */
  lemma ReleaseIsSilent(s: State, b: byte)
    requires b >= 0x80
    ensures s.Char(b) == 0
  {
  }

  // ---------- Modifiers ----------

  /** Without the escape: two shift keys, the left control and alt keys, and the locks. */
  lemma ShiftKeys(s: State)
    requires !s.e0
    ensures s.After(0x2A) == s.After(0x36) == s.(shift := true) && s.After(0xAA) == s.After(0xB6) == s.(shift := false)
  {
  }

  lemma LeftModifiers(s: State)
    requires !s.e0
    ensures s.After(0x1D) == s.(ctl := true) && s.After(0x9D) == s.(ctl := false)
    ensures s.After(0x38) == s.(alt := true) && s.After(0xB8) == s.(alt := false)
    ensures s.After(0xE0) == s.(e0 := true)
  {
  }

  lemma LockKeys(s: State)
    requires !s.e0
    ensures s.After(0x3A) == s.(caps := !s.caps) && s.After(0x45) == s.(num := !s.num) && s.After(0x46) == s.(scroll := !s.scroll)
  {
  }

  /** With it: the right control and alt keys. */
  lemma EscapedModifiers(s: State)
    requires s.e0
    ensures s.After(0x1D) == s.(ctl := true, e0 := false) && s.After(0x9D) == s.(ctl := false, e0 := false)
    ensures s.After(0x38) == s.(alt := true, e0 := false) && s.After(0xB8) == s.(alt := false, e0 := false)
    ensures s.After(0xE0) == s
  {
  }

  /** Every other byte only ends the escape. */
  lemma OtherBytes(s: State, b: byte)
    requires b !in {0xE0, 0x1D, 0x9D, 0x38, 0xB8}
    requires s.e0 || b !in {0x2A, 0x36, 0xAA, 0xB6, 0x3A, 0x45, 0x46}
    ensures s.After(b) == s.(e0 := false)
  {
  }

  /** Control, alt and delete: what kbd_proc_data reboots on. */
  lemma ThreeFingers()
    ensures var s := IDLE.AfterAll([0x1D, 0x38, 0xE0]);
      s.Char(0x53) == KEY_DEL == 0xE9 && s.After(0x53).ctl && s.After(0x53).alt
  {
    hide State.After, State.Char;
    var bytes: seq<byte> := [0x1D, 0x38, 0xE0];
    assert bytes[..2] == [0x1D, 0x38] && [0x1D, 0x38][..1] == [0x1D] && [0x1D][..0] == [];
    assert IDLE.AfterAll([0x1D]) == IDLE.AfterAll([]).After(0x1D);
    assert IDLE.AfterAll([0x1D, 0x38]) == IDLE.After(0x1D).After(0x38);
    var c := IDLE.(ctl := true);
    LeftModifiers(IDLE);
    LeftModifiers(c);
    LeftModifiers(c.(alt := true));
    EscapedKeys(c.(alt := true, e0 := true), 0x53);
    OtherBytes(c.(alt := true, e0 := true), 0x53);
  }
}
