/** The scancode state machine of kern/console.c. */
module Keyboard {
  import opened CTypes

  const E0 := 0xE0
  const KEY_DEL: byte := 0xE9

  datatype Modifier = NoModifier | Shift | Ctl | Alt

  datatype Lock = NoLock | CapsLock | NumLock | ScrollLock

  /** shiftcode */
  function ShiftCode(code: byte): Modifier {
    match code
    case 0x1D => Ctl
    case 0x2A => Shift
    case 0x36 => Shift
    case 0x38 => Alt
    case 0x9D => Ctl
    case 0xB8 => Alt
    case _ => NoModifier
  }

  /** togglecode */
  function ToggleCode(code: byte): Lock {
    match code
    case 0x3A => CapsLock
    case 0x45 => NumLock
    case 0x46 => ScrollLock
    case _ => NoLock
  }

  // ---------- The key maps ----------

  const NORMAL_00: string := "\0\U{1B}1234567890-=\U{08}\t"
  const NORMAL_10: string := "qwertyuiop[]\n\0as"
  const NORMAL_20: string := "dfghjkl;'`\0\\zxcv"
  const NORMAL_30: string := "bnm,./\0*\0 "
  const SHIFTED_00: string := "\0\U{1B}!@#$%^&*()_+\U{08}\t"
  const SHIFTED_10: string := "QWERTYUIOP{}\n\0AS"
  const SHIFTED_20: string := "DFGHJKL:\"~\0|ZXCV"
  const SHIFTED_30: string := "BNM<>?\0*\0 "
  const CONTROL_10: string := "QWERTYUIOP\0\0\0\0AS"
  const CONTROL_20: string := "DFGHJKL\0\0\0\0\\ZXCV"
  const CONTROL_30: string := "BNM\0\0/"
  const KEYPAD: string := "789-456+1230."

  /** normalmap and shiftmap up to 0x39 */
  function MainKey(shift: bool, code: byte): char
    requires code < 0x3A
  {
    if code < 0x10 then (if shift then SHIFTED_00 else NORMAL_00)[code]
    else if code < 0x20 then (if shift then SHIFTED_10 else NORMAL_10)[code - 0x10]
    else if code < 0x30 then (if shift then SHIFTED_20 else NORMAL_20)[code - 0x20]
    else (if shift then SHIFTED_30 else NORMAL_30)[code - 0x30]
  }

  /** ctlmap from 0x10 to 0x35, without the '@' that is taken off */
  function ControlKey(code: byte): char
    requires 0x10 <= code < 0x36
  {
    if code < 0x20 then CONTROL_10[code - 0x10]
    else if code < 0x30 then CONTROL_20[code - 0x20]
    else CONTROL_30[code - 0x30]
  }

  function Code(c: char): byte { c as int % 0x100 }

  /** The keys that the E0 escape selects; KEY_UP and so on. */
  function Special(code: byte): byte {
    match code
    case 0xC8 => 0xE2
    case 0xC9 => 0xE6
    case 0xCB => 0xE4
    case 0xCD => 0xE5
    case 0xCF => 0xE1
    case 0xD0 => 0xE3
    case 0xD1 => 0xE7
    case 0xD2 => 0xE8
    case 0xD3 => KEY_DEL
    case _ => 0
  }

  function PlainMap(shift: bool, code: byte): byte {
    if code < 0x3A then Code(MainKey(shift, code))
    else if 0x47 <= code <= 0x53 then Code(KEYPAD[code - 0x47])
    else if code == 0xC7 then 0xE0
    else if code == 0x9C then Code('\n')
    else if code == 0xB5 then Code('/')
    else Special(code)
  }

  /** ctlmap: the control characters of letters, backslash and slash */
  function ControlMap(code: byte): byte {
    if 0x10 <= code <= 0x35 then
      if code == 0x1C then Code('\r')
      else
        var c := ControlKey(code);
        if c == '\0' then 0 else (c as int - '@' as int) % 0x100
    else if code == 0x97 then 0xE0
    else if code == 0xB5 then ('/' as int - '@' as int) % 0x100
    else Special(code)
  }

  // ---------- The state machine ----------

  /** The bits of kbd_proc_data's static variable shift. */
  datatype State = State(shift: bool, ctl: bool, alt: bool, caps: bool, num: bool, scroll: bool, e0: bool) {
    function Set(m: Modifier, held: bool): State {
      match m
      case NoModifier => this
      case Shift => this.(shift := held)
      case Ctl => this.(ctl := held)
      case Alt => this.(alt := held)
    }

    function Toggle(l: Lock): State {
      match l
      case NoLock => this
      case CapsLock => this.(caps := !caps)
      case NumLock => this.(num := !num)
      case ScrollLock => this.(scroll := !scroll)
    }

    predicate Holds(m: Modifier) {
      match m
      case NoModifier => false
      case Shift => shift
      case Ctl => ctl
      case Alt => alt
    }

    /** The key code of a byte: the escape selects the second half of the tables. */
    function CodeOf(b: byte): byte
      requires b != E0
    {
      if b >= 0x80 then (if e0 then b else b - 0x80) else (if e0 then b + 0x80 else b)
    }

    function After(b: byte): State {
      if b == E0 then this.(e0 := true)
      else if b >= 0x80 then Set(ShiftCode(CodeOf(b)), false).(e0 := false)
      else this.(e0 := false).Set(ShiftCode(CodeOf(b)), true).Toggle(ToggleCode(CodeOf(b)))
    }

    function Char(b: byte): byte {
      if b >= 0x80 then 0 else KeyChar(After(b), CodeOf(b))
    }

    function AfterAll(bytes: seq<byte>): State {
      if bytes == [] then this else AfterAll(bytes[..|bytes| - 1]).After(bytes[|bytes| - 1])
    }

    predicate On(l: Lock) {
      match l
      case NoLock => false
      case CapsLock => caps
      case NumLock => num
      case ScrollLock => scroll
    }
  }

  const IDLE := State(false, false, false, false, false, false, false)

  function SwapCase(c: byte): byte {
    if 'a' as int <= c <= 'z' as int then c - 0x20
    else if 'A' as int <= c <= 'Z' as int then c + 0x20
    else c
  }

  /** The character of a key under modifiers; a control key counts before a shift key. */
  function KeyChar(s: State, code: byte): byte {
    var c := if s.ctl then ControlMap(code) else PlainMap(s.shift, code);
    if s.caps then SwapCase(c) else c
  }

  class Keyboard {
    var state: State

    constructor ()
      ensures state == IDLE
    {
      state := IDLE;
    }

    /** The character of a key code under the present modifiers. */
    method Translate(data: byte) returns (c: byte)
      ensures c == KeyChar(state, data)
    {
      hide ControlMap, PlainMap;
      c := if state.ctl then ControlMap(data) else PlainMap(state.shift, data);
      if state.caps {
        if 'a' as int <= c <= 'z' as int {
          c := c - 0x20;
        } else if 'A' as int <= c <= 'Z' as int {
          c := c + 0x20;
        }
      }
    }

    /** kbd_proc_data; ready says whether the controller has data. reboot stands for the Ctrl-Alt-Del branch. */
    method KbdProcData(ready: bool, byte0: byte) returns (c: int, reboot: bool)
      modifies this
      ensures !ready ==> c == -1 && !reboot && state == old(state)
      ensures ready ==> state == old(state).After(byte0) && c == old(state).Char(byte0) && 0 <= c < 0x100
      ensures reboot <==> ready && c == KEY_DEL && state.ctl && state.alt
    {
      hide ShiftCode, ToggleCode, KeyChar, State.Set, State.Toggle;
      var data := byte0;
      reboot := false;
      if !ready {
        return -1, false;
      }
      if data == E0 {
        state := state.(e0 := true);
        return 0, false;
      } else if data >= 0x80 {
        data := if state.e0 then data else data - 0x80;
        state := state.Set(ShiftCode(data), false).(e0 := false);
        return 0, false;
      } else if state.e0 {
        data := data + 0x80;
        state := state.(e0 := false);
      }
      state := state.Set(ShiftCode(data), true);
      state := state.Toggle(ToggleCode(data));
      c := Translate(data);
      reboot := state.ctl && state.alt && c == KEY_DEL;
    }
  }

  // ---------- Whole streams ----------

  /** The key code of the byte at i, if it is not the escape: a byte is escaped if the byte before it is the escape. */
  function CodeAt(bytes: seq<byte>, i: nat): byte
    requires i < |bytes| && bytes[i] != E0
  {
    IDLE.(e0 := i > 0 && bytes[i - 1] == E0).CodeOf(bytes[i])
  }

  /** The byte at i presses or releases a key of the modifier. */
  predicate Moves(bytes: seq<byte>, i: nat, m: Modifier) {
    i < |bytes| && bytes[i] != E0 && ShiftCode(CodeAt(bytes, i)) == m
  }

  /** The last byte that moves a key of the modifier is a press. */
  ghost predicate LastPressed(bytes: seq<byte>, m: Modifier) {
    exists i: nat :: LastMove(bytes, i, m) && bytes[i] < 0x80
  }

  ghost predicate LastMove(bytes: seq<byte>, i: nat, m: Modifier)
    ensures LastMove(bytes, i, m) ==> i < |bytes|
  {
    Moves(bytes, i, m) && forall j: nat :: i < j ==> !Moves(bytes, j, m)
  }

  /** How often the lock key has been pressed. */
  function Presses(bytes: seq<byte>, l: Lock): nat {
    if bytes == [] then 0
    else
      var last := |bytes| - 1;
      Presses(bytes[..last], l)
        + (if bytes[last] < 0x80 && ToggleCode(CodeAt(bytes, last)) == l then 1 else 0)
  }

  lemma MovesPrefix(bytes: seq<byte>, i: nat, m: Modifier)
    requires i < |bytes| - 1
    ensures Moves(bytes[..|bytes| - 1], i, m) == Moves(bytes, i, m)
  {
    hide ShiftCode;
  }

  lemma LastMoveStep(bytes: seq<byte>, i: nat, m: Modifier)
    requires bytes != []
    ensures var last := |bytes| - 1;
      LastMove(bytes, i, m) <==> if Moves(bytes, last, m) then i == last else LastMove(bytes[..last], i, m)
  {
    hide ShiftCode;
    var last := |bytes| - 1;
    forall k: nat | k < last ensures Moves(bytes[..last], k, m) == Moves(bytes, k, m) {
      MovesPrefix(bytes, k, m);
    }
  }

  /** One more byte either moves the modifier or leaves it. */
  lemma LastPressedStep(bytes: seq<byte>, m: Modifier)
    requires bytes != []
    ensures var last := |bytes| - 1;
      LastPressed(bytes, m) <==> if Moves(bytes, last, m) then bytes[last] < 0x80 else LastPressed(bytes[..last], m)
  {
    hide Moves, LastMove;
    forall i: nat {
      LastMoveStep(bytes, i, m);
    }
  }

  lemma SetMeaning(s: State, code: Modifier, held: bool, m: Modifier, l: Lock)
    requires m != NoModifier
    ensures s.Set(code, held).Holds(m) <==> if code == m then held else s.Holds(m)
    ensures s.Set(code, held).On(l) == s.On(l) && s.Set(code, held).e0 == s.e0
  {
  }

  lemma ToggleMeaning(s: State, code: Lock, m: Modifier, l: Lock)
    requires l != NoLock
    ensures s.Toggle(code).On(l) <==> if code == l then !s.On(l) else s.On(l)
    ensures s.Toggle(code).Holds(m) == s.Holds(m) && s.Toggle(code).e0 == s.e0
  {
  }

  lemma EscapeMeaning(s: State, e0: bool, m: Modifier, l: Lock)
    ensures s.(e0 := e0).Holds(m) == s.Holds(m) && s.(e0 := e0).On(l) == s.On(l)
  {
  }

  /** What one byte does to one modifier, one lock and the escape. */
  lemma AfterMeaning(s: State, b: byte, m: Modifier, l: Lock)
    requires m != NoModifier && l != NoLock
    ensures s.After(b).Holds(m) <==> if b != E0 && ShiftCode(s.CodeOf(b)) == m then b < 0x80 else s.Holds(m)
    ensures s.After(b).On(l) <==> if b < 0x80 && ToggleCode(s.CodeOf(b)) == l then !s.On(l) else s.On(l)
    ensures s.After(b).e0 <==> b == E0
  {
    hide ShiftCode, ToggleCode, State.Set, State.Toggle, State.Holds, State.On;
    if b == E0 {
      EscapeMeaning(s, true, m, l);
    } else {
      var code := s.CodeOf(b);
      var s0 := s.(e0 := false);
      EscapeMeaning(s, false, m, l);
      if b < 0x80 {
        SetMeaning(s0, ShiftCode(code), true, m, l);
        ToggleMeaning(s0.Set(ShiftCode(code), true), ToggleCode(code), m, l);
      } else {
        SetMeaning(s, ShiftCode(code), false, m, l);
        EscapeMeaning(s.Set(ShiftCode(code), false), false, m, l);
      }
    }
  }

  /** After any stream of bytes a modifier is held exactly if its last movement was a press (of any of its keys), a lock is on
      exactly after an odd number of presses, and the escape is pending exactly if it was the last byte. */
  lemma {:induction false} StreamMeaning(bytes: seq<byte>, m: Modifier, l: Lock)
    requires m != NoModifier && l != NoLock
    ensures var s := IDLE.AfterAll(bytes);
      && (s.Holds(m) <==> LastPressed(bytes, m))
      && (s.On(l) <==> Presses(bytes, l) % 2 == 1)
      && (s.e0 <==> bytes != [] && bytes[|bytes| - 1] == E0)
    decreases |bytes|
  {
    hide ShiftCode, ToggleCode, State.After, State.Holds, State.On, LastPressed, LastMove;
    if bytes == [] {
      IdleMeaning(m, l);
    } else {
      var last := |bytes| - 1;
      var s := IDLE.AfterAll(bytes[..last]);
      StreamMeaning(bytes[..last], m, l);
      LastPressedStep(bytes, m);
      assert s.e0 <==> last > 0 && bytes[last - 1] == E0;
      AfterMeaning(s, bytes[last], m, l);
    }
  }

  /** Moving any key of a modifier settles the modifier, whatever its other keys do: it is held exactly if this was a press. */
  lemma AnyKeySettles(bytes: seq<byte>, b: byte, m: Modifier)
    requires m != NoModifier && Moves(bytes + [b], |bytes|, m)
    ensures IDLE.AfterAll(bytes + [b]).Holds(m) <==> b < 0x80
  {
    StreamMeaning(bytes + [b], m, CapsLock);
    LastPressedStep(bytes + [b], m);
  }

  lemma IdleMeaning(m: Modifier, l: Lock)
    ensures !IDLE.Holds(m) && !IDLE.On(l) && !LastPressed([], m)
  {
  }
}
