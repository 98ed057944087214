/** The PS/2 keyboard driver of keyboard.c run without interruption: scan codes become characters in
    a bounded queue, and keyboard_read takes them out in order. */
module Keyboard {
  import opened Words

  const BUFFER_SIZE := 256
  const KEY_RELEASED: byte := 0x80
  const KEY_SHIFT_LEFT: byte := 0x2A
  const KEY_SHIFT_RIGHT: byte := 0x36
  const KEY_CAPSLOCK: byte := 0x3A
  const KEY_SPACE: byte := 0x39
  const KEY_TAB: byte := 0x0F

  /** keyboard_map and keyboard_map_shift, row by row; the entries left out are 0. */
  const ROW_0 := "\0\U{001B}1234567890-=\U{0008}\t"
  const ROW_0_SHIFT := "\0\U{001B}!@#$%^&*()_+\U{0008}\t"
  const ROW_16 := "qwertyuiop[]\n"
  const ROW_16_SHIFT := "QWERTYUIOP{}\n"
  const ROW_30 := "asdfghjkl;'`"
  const ROW_30_SHIFT := "ASDFGHJKL:\"~"
  const ROW_43 := "\\zxcvbnm,./\0*\0 "
  const ROW_43_SHIFT := "|ZXCVBNM<>?\0*\0 "
  const KEYPAD := "789-456+1230."

  function MapEntry(shifted: bool, code: byte): char {
    if code < 16 then (if shifted then ROW_0_SHIFT[code] else ROW_0[code])
    else if code < 29 then (if shifted then ROW_16_SHIFT[code - 16] else ROW_16[code - 16])
    else if 30 <= code < 42 then (if shifted then ROW_30_SHIFT[code - 30] else ROW_30[code - 30])
    else if 43 <= code < 58 then (if shifted then ROW_43_SHIFT[code - 43] else ROW_43[code - 43])
    else if 71 <= code < 84 then KEYPAD[code - 71]
    else '\0'
  }

  /** The modifier flags. */
  datatype Modifiers = Modifiers(shift: bool, caps: bool)

  predicate IsShift(code: byte) {
    code == KEY_SHIFT_LEFT || code == KEY_SHIFT_RIGHT
    || code == KEY_SHIFT_LEFT + KEY_RELEASED || code == KEY_SHIFT_RIGHT + KEY_RELEASED
  }

  function NextModifiers(k: Modifiers, code: byte): Modifiers {
    if IsShift(code) then k.(shift := code < KEY_RELEASED)
    else if code == KEY_CAPSLOCK then k.(caps := !k.caps)
    else k
  }

  /** The characters a scan code types, before the queue's bound is applied. */
  function Typed(k: Modifiers, code: byte): (cs: seq<char>)
    ensures '\0' !in cs && |cs| <= 4
  {
    if IsShift(code) || code == KEY_CAPSLOCK || code >= KEY_RELEASED then []
    else if code == KEY_SPACE then [' ']
    else if code == KEY_TAB then [' ', ' ', ' ', ' ']
    else
      var c := MapEntry(k.shift || k.caps, code);
      if c == '\0' then [] else [c]
  }

  /** The text that a key types, in small letters or with its capitals and shifted signs (`up`): the
      keyboard's rows as they are printed on the keys, the five keys without a sign, and nothing. */
  predicate KeyTypes(up: bool, code: byte, text: string) {
    && (2 <= code <= 13 ==> text == [if up then "!@#$%^&*()_+"[code - 2] else "1234567890-="[code - 2]])
    && (16 <= code <= 27 ==> text == [if up then "QWERTYUIOP{}"[code - 16] else "qwertyuiop[]"[code - 16]])
    && (30 <= code <= 41 ==> text == [if up then "ASDFGHJKL:\"~"[code - 30] else "asdfghjkl;'`"[code - 30]])
    && (43 <= code <= 53 ==> text == [if up then "|ZXCVBNM<>?"[code - 43] else "\\zxcvbnm,./"[code - 43]])
    && (71 <= code <= 83 ==> text == ["789-456+1230."[code - 71]])
    && (code == 1 ==> text == "\U{001B}") && (code == 14 ==> text == "\U{0008}") && (code == 15 ==> text == "    ")
    && (code == 28 ==> text == "\n") && (code == 55 ==> text == "*") && (code == 57 ==> text == " ")
    && (code in {0, 29, 42, 54, 56} || 58 <= code <= 70 || code >= 84 ==> text == "")
  }

  predicate Ascii(s: string) {
    forall c :: c in s ==> '\0' < c < '\U{0080}'
  }

  /** Every scan code types what its key says, the capital or shifted sign exactly when Shift is held
      or Caps Lock is on; it is plain ASCII. */
  lemma TypedAsPrinted(k: Modifiers, code: byte)
    ensures KeyTypes(k.shift || k.caps, code, Typed(k, code)) && Ascii(Typed(k, code))
  {
    if code < 8 {
      TypedRow0(k, code);
    } else if code < 12 {
      TypedRow8(k, code);
    } else if code < 16 {
      TypedRow12(k, code);
    } else if code < 29 {
      TypedRow16(k, code);
    } else if code < 43 {
      TypedRow30(k, code);
    } else {
      TypedRow43(k, code);
    }
  }

  lemma TypedRow0(k: Modifiers, code: byte)
    requires code < 8
    ensures KeyTypes(k.shift || k.caps, code, Typed(k, code)) && Ascii(Typed(k, code))
  {
  }

  lemma TypedRow8(k: Modifiers, code: byte)
    requires 8 <= code < 12
    ensures KeyTypes(k.shift || k.caps, code, Typed(k, code)) && Ascii(Typed(k, code))
  {
  }

  lemma TypedRow12(k: Modifiers, code: byte)
    requires 12 <= code < 16
    ensures KeyTypes(k.shift || k.caps, code, Typed(k, code)) && Ascii(Typed(k, code))
  {
  }

  lemma TypedRow16(k: Modifiers, code: byte)
    requires 16 <= code < 29
    ensures KeyTypes(k.shift || k.caps, code, Typed(k, code)) && Ascii(Typed(k, code))
  {
  }

  lemma TypedRow30(k: Modifiers, code: byte)
    requires 29 <= code < 43
    ensures KeyTypes(k.shift || k.caps, code, Typed(k, code)) && Ascii(Typed(k, code))
  {
  }

  lemma TypedRow43(k: Modifiers, code: byte)
    requires 43 <= code
    ensures KeyTypes(k.shift || k.caps, code, Typed(k, code)) && Ascii(Typed(k, code))
  {
  }

  /** What of cs still fits a queue that holds n characters: it never holds more than 255. */
  function Taken(n: nat, cs: seq<char>): (t: seq<char>)
    ensures t <= cs
    ensures n <= BUFFER_SIZE - 1 ==> n + |t| <= BUFFER_SIZE - 1
    ensures n + |t| < BUFFER_SIZE - 1 ==> t == cs
  {
    if n + |cs| <= BUFFER_SIZE - 1 then cs
    else if n >= BUFFER_SIZE - 1 then []
    else cs[..BUFFER_SIZE - 1 - n]
  }

  /** The first 255 characters: all that the queue holds of a text. */
  function Held(text: seq<char>): seq<char> {
    if |text| <= 255 then text else text[..255]
  }

  lemma TakenFills(queue: seq<char>, cs: seq<char>)
    requires |queue| <= 255
    ensures queue + Taken(|queue|, cs) == Held(queue + cs)
  {
  }

  /** What a full queue has dropped stays dropped. */
  lemma HeldTwice(text: seq<char>, more: seq<char>)
    ensures Held(Held(text) + more) == Held(text + more)
  {
  }

  /** Characters are taken one by one as they are taken together. */
  lemma TakenOneMore(n: nat, cs: seq<char>, i: nat)
    requires n <= BUFFER_SIZE - 1 && i < |cs|
    ensures var t := Taken(n, cs[..i]); Taken(n, cs[..i + 1]) == t + Taken(n + |t|, [cs[i]])
  {
    assert cs[..i + 1] == cs[..i] + [cs[i]];
  }

  lemma TakenNone(n: nat)
    ensures Taken(n, []) == []
  {
  }

  /** The queue after the shift: all but its first character. */
  lemma ShiftedDown(was: seq<char>, now: seq<char>, n: nat)
    requires 1 <= n <= |was| == |now| && forall k :: 0 <= k < n - 1 ==> now[k] == was[k + 1]
    ensures was[..n] == [was[0]] + now[..n - 1]
  {
  }

  class KeyboardDriver {
    const buffer: array<char>
    var position: nat
    var shiftPressed: bool
    var capsLock: bool

    ghost predicate Valid()
      reads this, buffer
    {
      buffer.Length == BUFFER_SIZE && position <= BUFFER_SIZE - 1 && '\0' !in buffer[..position]
    }

    /** The queued characters, oldest first. */
    ghost function Contents(): seq<char>
      reads this, buffer
      requires Valid()
    {
      buffer[..position]
    }

    function Flags(): Modifiers
      reads this
    {
      Modifiers(shiftPressed, capsLock)
    }

    constructor ()
      ensures Valid() && Contents() == [] && Flags() == Modifiers(false, false) && fresh(buffer)
    {
      buffer := new char[BUFFER_SIZE](_ => '\0');
      position := 0;
      shiftPressed, capsLock := false, false;
    }

    /** `if (buffer_position < sizeof(keyboard_buffer) - 1) keyboard_buffer[buffer_position++] = c` */
    method Put(c: char)
      requires Valid() && c != '\0'
      modifies this`position, buffer
      ensures Valid() && Contents() == old(Contents()) + Taken(old(position), [c])
    {
      if position < BUFFER_SIZE - 1 {
        buffer[position] := c;
        position := position + 1;
      }
    }

    /** The four spaces of the Tab key. */
    method PutTab()
      requires Valid()
      modifies this`position, buffer
      ensures Valid() && Contents() == old(Contents()) + Taken(old(position), [' ', ' ', ' ', ' '])
    {
      hide Taken;
      ghost var spaces := [' ', ' ', ' ', ' '];
      TakenNone(position);
      for i := 0 to 4
        invariant Valid() && Contents() == old(Contents()) + Taken(old(position), spaces[..i])
      {
        TakenOneMore(old(position), spaces, i);
        Put(' ');
      }
      assert spaces[..4] == spaces;
    }

    /** What keyboard_handler_main does with a scan code it has read. */
    method ScanCode(keycode: byte)
      requires Valid()
      modifies this, buffer
      ensures Valid() && Flags() == NextModifiers(old(Flags()), keycode)
      ensures Contents() == old(Contents()) + Taken(old(position), Typed(old(Flags()), keycode))
    {
      hide Taken, MapEntry;
      if IsShift(keycode) {
        shiftPressed := !(keycode >= KEY_RELEASED);
      } else if keycode == KEY_CAPSLOCK && !(keycode >= KEY_RELEASED) {
        capsLock := !capsLock;
      } else if keycode == KEY_SPACE && !(keycode >= KEY_RELEASED) {
        Put(' ');
      } else if !(keycode >= KEY_RELEASED) && keycode < 128 {
        if keycode == KEY_TAB {
          PutTab();
        } else {
          var c := MapEntry(shiftPressed || capsLock, keycode);
          if c != '\0' {
            Put(c);
          }
        }
      }
    }

    /** keyboard_handler_main: status and keycode are what the two port reads return. The text is what
        the keyboard's keys say; of a full queue and the text the first 255 characters stay. */
    method HandlerMain(status: byte, keycode: byte) returns (ghost text: string)
      requires Valid()
      modifies this, buffer
      ensures Valid()
      ensures status % 2 == 0 ==> Contents() == old(Contents()) && Flags() == old(Flags())
      ensures status % 2 == 1 ==>
                && shiftPressed == (keycode == 0x2A || keycode == 0x36
                                    || (keycode != 0xAA && keycode != 0xB6 && old(shiftPressed)))
                && capsLock == (old(capsLock) != (keycode == 0x3A))
                && KeyTypes(old(shiftPressed) || old(capsLock), keycode, text)
                && Contents() == Held(old(Contents()) + text)
      ensures status % 2 == 1 ==>
                && Flags() == NextModifiers(old(Flags()), keycode) && text == Typed(old(Flags()), keycode)
                && Contents() == old(Contents()) + Taken(old(position), text)
    {
      hide Taken, Typed, KeyTypes, Held;
      text := Typed(Flags(), keycode);
      TypedAsPrinted(Flags(), keycode);
      TakenFills(Contents(), text);
      if status % 2 == 1 {
        ScanCode(keycode);
      }
    }

    /** keyboard_read: the oldest character, or 0 exactly when there is none. */
    method Read() returns (key: char)
      requires Valid()
      modifies this`position, buffer
      ensures Valid()
      ensures key == '\0' <==> old(Contents()) == []
      ensures old(Contents()) == [] ==> Contents() == []
      ensures old(Contents()) != [] ==> old(Contents()) == [key] + Contents()
    {
      if position > 0 {
        key := buffer[0];
        ghost var was := buffer[..];
        var i := 1;
        while i < position
          invariant 1 <= i <= position == old(position) <= BUFFER_SIZE - 1
          invariant forall k :: 0 <= k < i - 1 ==> buffer[k] == was[k + 1]
          invariant forall k :: i - 1 <= k < buffer.Length ==> buffer[k] == was[k]
        {
          buffer[i - 1] := buffer[i];
          i := i + 1;
        }
        position := position - 1;
        ShiftedDown(was, buffer[..], i);
        return key;
      }
      return '\0';
    }
  }

  // ---- Runs ----

  /** Shift is held after these scan codes, if it was (`held`) before them: the last scan code of a
      shift key is a press, or there is none. */
  ghost predicate ShiftAfter(held: bool, codes: seq<byte>) {
    (exists i :: 0 <= i < |codes| && IsPress(codes[i]) && NoReleaseFrom(codes, i))
    || (held && NoReleaseFrom(codes, 0))
  }

  predicate IsPress(code: byte) {
    code == 0x2A || code == 0x36
  }

  ghost predicate NoReleaseFrom(codes: seq<byte>, i: nat) {
    forall j :: i <= j < |codes| ==> codes[j] != 0xAA && codes[j] != 0xB6
  }

  /** Caps Lock: each press of its key turns it round. */
  function CapsPresses(codes: seq<byte>): set<nat> {
    set i: nat | i < |codes| && codes[i] == 0x3A
  }

  ghost predicate CapsAfter(on: bool, codes: seq<byte>) {
    on != (|CapsPresses(codes)| % 2 == 1)
  }

  /** The texts of the keys one after the other, each with the modifiers as the scan codes before it
      left them. */
  ghost predicate TextsOf(shift: bool, caps: bool, codes: seq<byte>, texts: seq<string>) {
    |texts| == |codes| && forall j :: 0 <= j < |codes| ==>
      KeyTypes(ShiftAfter(shift, codes[..j]) || CapsAfter(caps, codes[..j]), codes[j], texts[j])
  }

  function Flat(texts: seq<string>): string {
    if |texts| == 0 then "" else Flat(texts[..|texts| - 1]) + texts[|texts| - 1]
  }

  lemma ModifiersOneMore(shift: bool, caps: bool, codes: seq<byte>, c: byte)
    ensures ShiftAfter(shift, codes + [c]) <==>
            IsPress(c) || (c != 0xAA && c != 0xB6 && ShiftAfter(shift, codes))
    ensures CapsAfter(caps, codes + [c]) <==> CapsAfter(caps, codes) != (c == 0x3A)
  {
    ShiftOneMore(shift, codes, c);
    CapsOneMore(codes, c);
  }

  lemma ShiftOneMore(shift: bool, codes: seq<byte>, c: byte)
    ensures ShiftAfter(shift, codes + [c]) <==>
            IsPress(c) || (c != 0xAA && c != 0xB6 && ShiftAfter(shift, codes))
  {
    var more := codes + [c];
    forall i: nat | i <= |codes|
      ensures NoReleaseFrom(more, i) <==> NoReleaseFrom(codes, i) && c != 0xAA && c != 0xB6
    {
      assert more[|codes|] == c && forall j :: 0 <= j < |codes| ==> codes[j] == more[j];
    }
    if IsPress(c) {
      assert more[|codes|] == c && NoReleaseFrom(more, |codes|);
    }
    if i :| 0 <= i < |codes| && IsPress(codes[i]) && NoReleaseFrom(codes, i) {
      assert more[i] == codes[i];
    }
  }

  lemma CapsOneMore(codes: seq<byte>, c: byte)
    ensures |CapsPresses(codes + [c])| == |CapsPresses(codes)| + if c == 0x3A then 1 else 0
  {
    var more := codes + [c];
    if c == 0x3A {
      assert CapsPresses(more) == CapsPresses(codes) + {|codes|};
    } else {
      assert CapsPresses(more) == CapsPresses(codes);
    }
  }

  /** The driver over any run of scan codes: its modifiers are decided by the shift and Caps Lock codes
      alone, and its queue holds the first 255 characters of what was in it and what the keys say. */
  method HandlerRun(d: KeyboardDriver, codes: seq<byte>) returns (ghost texts: seq<string>)
    requires d.Valid()
    modifies d, d.buffer
    ensures d.Valid() && TextsOf(old(d.shiftPressed), old(d.capsLock), codes, texts)
    ensures d.shiftPressed == ShiftAfter(old(d.shiftPressed), codes)
    ensures d.capsLock == CapsAfter(old(d.capsLock), codes)
    ensures d.Contents() == Held(old(d.Contents()) + Flat(texts))
  {
    hide KeyTypes, ShiftAfter, CapsAfter, Held, Flat, TextsOf;
    ghost var shift, caps, queue := d.shiftPressed, d.capsLock, d.Contents();
    texts := [];
    NothingYet(shift, caps, queue);
    for k := 0 to |codes|
      invariant d.Valid() && TextsOf(shift, caps, codes[..k], texts)
      invariant d.shiftPressed == ShiftAfter(shift, codes[..k]) && d.capsLock == CapsAfter(caps, codes[..k])
      invariant d.Contents() == Held(queue + Flat(texts))
    {
      ghost var done := codes[..k];
      OneMore(codes, k);
      ModifiersOneMore(shift, caps, done, codes[k]);
      ghost var text := d.HandlerMain(1, codes[k]);
      TextsOneMore(shift, caps, done, codes[k], texts, text);
      HeldTwice(queue + Flat(texts), text);
      FlatOneMore(queue, texts, text);
      texts := texts + [text];
    }
    assert codes[..|codes|] == codes;
  }

  lemma OneMore(codes: seq<byte>, k: nat)
    requires k < |codes|
    ensures codes[..k + 1] == codes[..k] + [codes[k]]
  {
  }

  lemma FlatOneMore(queue: string, texts: seq<string>, text: string)
    ensures (queue + Flat(texts)) + text == queue + Flat(texts + [text])
  {
    assert (texts + [text])[..|texts|] == texts;
  }

  lemma NothingYet(shift: bool, caps: bool, queue: string)
    requires |queue| <= 255
    ensures ShiftAfter(shift, []) == shift && CapsAfter(caps, []) == caps
    ensures TextsOf(shift, caps, [], []) && Held(queue + Flat([])) == queue
  {
    assert NoReleaseFrom([], 0) && CapsPresses([]) == {};
  }

  lemma TextsOneMore(shift: bool, caps: bool, codes: seq<byte>, c: byte, texts: seq<string>, text: string)
    requires TextsOf(shift, caps, codes, texts)
    requires KeyTypes(ShiftAfter(shift, codes) || CapsAfter(caps, codes), c, text)
    ensures TextsOf(shift, caps, codes + [c], texts + [text])
  {
    hide KeyTypes, ShiftAfter, CapsAfter;
    var more := codes + [c];
    assert more[..|codes|] == codes;
    assert forall j :: 0 <= j < |codes| ==> more[..j] == codes[..j];
  }
}
