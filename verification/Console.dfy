/** The text console of video.c: 80 by 25 cells of a character and an attribute byte, and a cursor
    that is a byte offset into them. */
module Console {
  import opened Words

  const SCREEN_SIZE := 4000
  const LINE_SIZE := 160
  const NEWLINE: byte := 10
  const BACKSPACE: byte := 8
  const SPACE: byte := 0x20
  const PLAIN: byte := 0x07

  /** A C string: the bytes before the first 0. */
  function Text(str: seq<byte>): (t: seq<byte>)
    requires 0 in str
    ensures 0 !in t && |t| < |str| && t == str[..|t|] && str[|t|] == 0
  {
    if str[0] == 0 then [] else [str[0]] + Text(str[1..])
  }

  lemma TextIs(str: seq<byte>, t: seq<byte>)
    requires |t| < |str| && str[..|t|] == t && 0 !in t && str[|t|] == 0
    ensures 0 in str && Text(str) == t
  {
    assert str[|t|] in str;
    var u := Text(str);
    assert forall j :: 0 <= j < |t| ==> str[..|t|][j] == t[j] && t[j] != 0;
    assert forall j :: 0 <= j < |u| ==> str[..|u|][j] == u[j] && u[j] != 0;
  }

  datatype Screen = Screen(cells: seq<byte>, cursor: nat)

  /** The cursor is on a cell, and the cells are the whole screen. */
  predicate OnScreen(s: Screen) {
    |s.cells| == SCREEN_SIZE && s.cursor % 2 == 0 && s.cursor <= SCREEN_SIZE - 2
  }

  // ---- The screen as a fold over characters ----

  function Glyph(s: Screen, c: byte, attribute: byte): (t: Screen)
    requires OnScreen(s)
    ensures OnScreen(t)
  {
    Screen(s.cells[s.cursor := c][s.cursor + 1 := attribute],
           if s.cursor + 2 >= SCREEN_SIZE then SCREEN_SIZE - 2 else s.cursor + 2)
  }

  function NewLine(s: Screen): (t: Screen)
    requires OnScreen(s)
    ensures OnScreen(t)
  {
    var next := (s.cursor / LINE_SIZE + 1) * LINE_SIZE;
    s.(cursor := if next >= SCREEN_SIZE then SCREEN_SIZE - LINE_SIZE else next)
  }

  function Erase(s: Screen): (t: Screen)
    requires OnScreen(s)
    ensures OnScreen(t)
  {
    if s.cursor < 2 then s
    else Screen(s.cells[s.cursor - 2 := SPACE][s.cursor - 1 := PLAIN], s.cursor - 2)
  }

  /** print_string, one character. */
  function PrintChar(s: Screen, c: byte): (t: Screen)
    requires OnScreen(s)
    ensures OnScreen(t)
  {
    if c == NEWLINE then NewLine(s) else if c == BACKSPACE then Erase(s) else Glyph(s, c, PLAIN)
  }

  /** print_string_color, one character; a backspace is a glyph here. */
  function PrintColorChar(s: Screen, c: byte, attribute: byte): (t: Screen)
    requires OnScreen(s)
    ensures OnScreen(t)
  {
    if c == NEWLINE then NewLine(s) else Glyph(s, c, attribute)
  }

  function Print(s: Screen, text: seq<byte>): (t: Screen)
    requires OnScreen(s)
    ensures OnScreen(t)
    decreases |text|
  {
    if |text| == 0 then s else Print(PrintChar(s, text[0]), text[1..])
  }

  function PrintColor(s: Screen, text: seq<byte>, attribute: byte): (t: Screen)
    requires OnScreen(s)
    ensures OnScreen(t)
    decreases |text|
  {
    if |text| == 0 then s else PrintColor(PrintColorChar(s, text[0], attribute), text[1..], attribute)
  }

  /** (bg_color << 4) | (fg_color & 0x0F) in an unsigned char */
  function Attribute(fg: byte, bg: byte): byte {
    bg % 16 * 16 + fg % 16
  }

  /** The attribute byte keeps both colours apart. */
  lemma AttributeBits(fg: byte, bg: byte)
    ensures Or(bg * 16 % 256, And(fg, 15)) == Attribute(fg, bg)
  {
    hide Or, And;
    LowMask(fg, 4);
    assert Pow2(4) == 16;
    DivModUnique(bg * 16, 256, bg / 16, bg % 16 * 16);
    OrNibbles(bg % 16, fg % 16);
  }

  lemma OrNibbles(h: nat, l: nat)
    requires h < 16 && l < 16
    ensures Or(h * 16, l) == h * 16 + l
  {
    OrShifted(h * 8, l / 2, 3);
    if h > 0 && l > 0 {
      assert h * 16 / 2 == h * 8;
    }
  }

  lemma {:induction false} OrShifted(x: nat, l: nat, k: nat)
    requires l < Pow2(k) && x % Pow2(k) == 0
    ensures Or(x, l) == x + l
  {
    if x != 0 && l != 0 {
      assert k > 0;
      var p := Pow2(k - 1);
      HalfMod(x, p);
      OrShifted(x / 2, l / 2, k - 1);
    }
  }

  lemma {:induction false} PrintConcat(s: Screen, a: seq<byte>, b: seq<byte>)
    requires OnScreen(s)
    ensures Print(s, a + b) == Print(Print(s, a), b)
    decreases |a|
  {
    if |a| == 0 {
      assert a + b == b;
    } else {
      assert (a + b)[1..] == a[1..] + b;
      PrintConcat(PrintChar(s, a[0]), a[1..], b);
    }
  }

  /** The cell number (column and row together) at byte offset 2 * k. */
  function CharAt(s: Screen, k: nat): byte
    requires OnScreen(s) && k < 2000
  {
    s.cells[2 * k]
  }

  function AttributeAt(s: Screen, k: nat): byte
    requires OnScreen(s) && k < 2000
  {
    s.cells[2 * k + 1]
  }

  /** Where character j of a plain text printed at cell k0 ends up: one cell after the other, and all
      that does not fit in the last cell, each over the one before. */
  function LandsAt(k0: nat, j: nat): nat {
    if k0 + j < 1999 then k0 + j else 1999
  }

  predicate IsPlain(text: seq<byte>) {
    NEWLINE !in text && BACKSPACE !in text
  }

  lemma PrintOne(s: Screen, c: byte)
    requires OnScreen(s)
    ensures Print(s, [c]) == PrintChar(s, c)
  {
    assert [c][1..] == [];
    assert Print(PrintChar(s, c), []) == PrintChar(s, c);
  }

  lemma GlyphLands(s: Screen, c: byte)
    requires OnScreen(s)
    ensures var t := Glyph(s, c, PLAIN);
            && t.cursor == (if s.cursor / 2 < 1999 then s.cursor + 2 else s.cursor)
            && forall k :: 0 <= k < 2000 ==>
                 if k == s.cursor / 2 then CharAt(t, k) == c && AttributeAt(t, k) == PLAIN
                 else CharAt(t, k) == CharAt(s, k) && AttributeAt(t, k) == AttributeAt(s, k)
  {
  }

  /** Printing plain text, in closed form: the cursor, every cell it fills, and every cell it does not. */
  lemma {:induction false} PlainTextLands(s: Screen, text: seq<byte>)
    requires OnScreen(s) && IsPlain(text)
    ensures var t := Print(s, text);
            var k0 := s.cursor / 2;
            && t.cursor == 2 * LandsAt(k0, |text|)
            && forall k :: 0 <= k < 2000 ==>
                 if k0 <= k < 1999 && k < k0 + |text| then CharAt(t, k) == text[k - k0] && AttributeAt(t, k) == PLAIN
                 else if k == 1999 && 1999 < k0 + |text|
                 then CharAt(t, k) == text[|text| - 1] && AttributeAt(t, k) == PLAIN
                 else CharAt(t, k) == CharAt(s, k) && AttributeAt(t, k) == AttributeAt(s, k)
    decreases |text|
  {
    if |text| > 0 {
      var n := |text| - 1;
      var init, c := text[..n], text[n];
      assert text == init + [c];
      PlainTextLands(s, init);
      PrintConcat(s, init, [c]);
      assert c in text;
      PrintOne(Print(s, init), c);
      GlyphLands(Print(s, init), c);
    }
  }

  /** A backspace takes back the character before it, exactly when that one moved the cursor, which
      every character does except in the last cell. */
  lemma BackspaceUndoes(s: Screen, c: byte)
    requires OnScreen(s) && IsPlain([c])
    ensures var t := Print(s, [c, BACKSPACE]);
            && (t.cursor == s.cursor <==> s.cursor < SCREEN_SIZE - 2)
            && (s.cursor < SCREEN_SIZE - 2 ==>
                  t.cells == s.cells[s.cursor := SPACE][s.cursor + 1 := PLAIN])
  {
    assert c in [c] && [c, BACKSPACE] == [c] + [BACKSPACE];
    PrintConcat(s, [c], [BACKSPACE]);
    PrintOne(s, c);
    PrintOne(Glyph(s, c, PLAIN), BACKSPACE);
  }

  /** A newline goes to the start of the next row, and in the last row to the start of that row. */
  lemma NewLineRow(s: Screen)
    requires OnScreen(s)
    ensures NewLine(s).cursor % LINE_SIZE == 0
    ensures NewLine(s).cursor / LINE_SIZE == (if s.cursor / LINE_SIZE < 24 then s.cursor / LINE_SIZE + 1 else 24)
    ensures NewLine(s).cells == s.cells
  {
  }

  // ---- What a text leaves on the screen, cell by cell ----

  /** The cursor after one character. `bs` says whether a backspace goes back, as in print_string, or is
      a glyph, as in print_string_color. */
  function NextCursor(c: nat, ch: byte, bs: bool): nat {
    if ch == 10 then (if c / 160 < 24 then (c / 160 + 1) * 160 else 3840)
    else if bs && ch == 8 then (if c < 2 then c else c - 2)
    else if c < 3998 then c + 2
    else 3998
  }

  function CursorAfter(c: nat, text: seq<byte>, bs: bool): nat {
    if |text| == 0 then c else NextCursor(CursorAfter(c, text[..|text| - 1], bs), text[|text| - 1], bs)
  }

  /** Character j of a text printed from cursor c writes cell k: a newline writes none, a backspace the
      one before the cursor, any other character the one at the cursor. */
  predicate WritesCell(c: nat, text: seq<byte>, bs: bool, j: nat, k: nat)
    requires j < |text|
  {
    var at := CursorAfter(c, text[..j], bs);
    text[j] != 10 && at == if bs && text[j] == 8 then 2 * k + 2 else 2 * k
  }

  ghost predicate LastWriter(c: nat, text: seq<byte>, bs: bool, j: nat, k: nat)
    requires j < |text|
  {
    WritesCell(c, text, bs, j, k) && forall i :: j < i < |text| ==> !WritesCell(c, text, bs, i, k)
  }

  ghost predicate Unwritten(c: nat, text: seq<byte>, bs: bool, k: nat) {
    forall j :: 0 <= j < |text| ==> !WritesCell(c, text, bs, j, k)
  }

  /** t is s with the text printed on it: each cell shows the last character that writes it, a blank if
      that is a backspace, and a cell that none writes is as it was. */
  ghost predicate Printed(s: Screen, text: seq<byte>, bs: bool, attribute: byte, t: Screen)
    requires OnScreen(s) && OnScreen(t)
  {
    && t.cursor == CursorAfter(s.cursor, text, bs)
    && (forall k, j {:trigger LastWriter(s.cursor, text, bs, j, k)} ::
          0 <= k < 2000 && 0 <= j < |text| && LastWriter(s.cursor, text, bs, j, k) ==>
            CellIs(t, k, if bs && text[j] == 8 then 0x20 else text[j], attribute))
    && (forall k {:trigger Unwritten(s.cursor, text, bs, k)} ::
          0 <= k < 2000 && Unwritten(s.cursor, text, bs, k) ==> CellIs(t, k, CharAt(s, k), AttributeAt(s, k)))
  }

  predicate CellIs(s: Screen, k: nat, c: byte, attribute: byte)
    requires OnScreen(s) && k < 2000
  {
    CharAt(s, k) == c && AttributeAt(s, k) == attribute
  }

  /** u is t with one character printed on it. */
  ghost predicate OnePrinted(t: Screen, c: byte, bs: bool, attribute: byte, u: Screen)
    requires OnScreen(t) && OnScreen(u)
  {
    && u.cursor == NextCursor(t.cursor, c, bs)
    && forall k :: 0 <= k < 2000 ==> CellPrinted(t, c, bs, attribute, u, k)
  }

  predicate CellPrinted(t: Screen, c: byte, bs: bool, attribute: byte, u: Screen, k: nat)
    requires OnScreen(t) && OnScreen(u) && k < 2000
  {
    if c != 10 && t.cursor == (if bs && c == 8 then 2 * k + 2 else 2 * k)
    then CellIs(u, k, if bs && c == 8 then 0x20 else c, attribute)
    else CellIs(u, k, CharAt(t, k), AttributeAt(t, k))
  }

  lemma GlyphPrinted(t: Screen, c: byte, attribute: byte)
    requires OnScreen(t)
    ensures forall k :: 0 <= k < 2000 ==>
              if t.cursor == 2 * k then CellIs(Glyph(t, c, attribute), k, c, attribute)
              else CellIs(Glyph(t, c, attribute), k, CharAt(t, k), AttributeAt(t, k))
  {
  }

  lemma ErasePrinted(t: Screen)
    requires OnScreen(t)
    ensures forall k :: 0 <= k < 2000 ==>
              if t.cursor == 2 * k + 2 then CellIs(Erase(t), k, 0x20, 0x07)
              else CellIs(Erase(t), k, CharAt(t, k), AttributeAt(t, k))
  {
  }

  lemma CharPrinted(t: Screen, c: byte)
    requires OnScreen(t)
    ensures OnePrinted(t, c, true, 0x07, PrintChar(t, c))
  {
    GlyphPrinted(t, c, PLAIN);
    ErasePrinted(t);
    hide CharAt, AttributeAt;
  }

  lemma ColorCharPrinted(t: Screen, c: byte, attribute: byte)
    requires OnScreen(t)
    ensures OnePrinted(t, c, false, attribute, PrintColorChar(t, c, attribute))
  {
    GlyphPrinted(t, c, attribute);
    hide CharAt, AttributeAt;
  }

  /** One more character on a printed text. */
  lemma PrintedOneMore(s: Screen, text: seq<byte>, bs: bool, attribute: byte, t: Screen, c: byte, u: Screen)
    requires OnScreen(s) && OnScreen(t) && OnScreen(u) && Printed(s, text, bs, attribute, t)
    requires OnePrinted(t, c, bs, attribute, u)
    ensures Printed(s, text + [c], bs, attribute, u)
  {
    hide CharAt, AttributeAt, NextCursor;
    var more, n := text + [c], |text|;
    assert more[..n] == text && more[n] == c;
    forall k, j | 0 <= k < 2000 && 0 <= j < |more| && LastWriter(s.cursor, more, bs, j, k)
      ensures CellIs(u, k, if bs && more[j] == 8 then 0x20 else more[j], attribute)
    {
      if j < n {
        SameWriter(s.cursor, text, c, bs, k);
        assert !WritesCell(s.cursor, more, bs, n, k);
        assert LastWriter(s.cursor, text, bs, j, k) && more[j] == text[j];
        assert CellPrinted(t, c, bs, attribute, u, k);
      } else {
        assert WritesCell(s.cursor, more, bs, n, k);
        assert CellPrinted(t, c, bs, attribute, u, k);
      }
    }
    forall k | 0 <= k < 2000 && Unwritten(s.cursor, more, bs, k)
      ensures CellIs(u, k, CharAt(s, k), AttributeAt(s, k))
    {
      SameWriter(s.cursor, text, c, bs, k);
      assert !WritesCell(s.cursor, more, bs, n, k);
      assert Unwritten(s.cursor, text, bs, k) && CellPrinted(t, c, bs, attribute, u, k);
    }
  }

  lemma SameWriter(cursor: nat, text: seq<byte>, c: byte, bs: bool, k: nat)
    ensures forall j :: 0 <= j < |text| ==>
              (WritesCell(cursor, text + [c], bs, j, k) <==> WritesCell(cursor, text, bs, j, k))
  {
    forall j | 0 <= j < |text|
      ensures WritesCell(cursor, text + [c], bs, j, k) <==> WritesCell(cursor, text, bs, j, k)
    {
      assert (text + [c])[..j] == text[..j];
    }
  }

  lemma NothingPrinted(s: Screen, bs: bool, attribute: byte)
    requires OnScreen(s)
    ensures Printed(s, [], bs, attribute, s)
  {
  }

  /** print_string's fold in closed form, for every text. */
  lemma {:induction false} PrintIsPrinted(s: Screen, text: seq<byte>)
    requires OnScreen(s)
    ensures Printed(s, text, true, 0x07, Print(s, text))
    decreases |text|
  {
    hide Printed;
    if |text| == 0 {
      NothingPrinted(s, true, 0x07);
    } else {
      var init, c := text[..|text| - 1], text[|text| - 1];
      assert text == init + [c];
      PrintIsPrinted(s, init);
      PrintConcat(s, init, [c]);
      PrintOne(Print(s, init), c);
      CharPrinted(Print(s, init), c);
      PrintedOneMore(s, init, true, 0x07, Print(s, init), c, PrintChar(Print(s, init), c));
    }
  }

  /** print_string_color's. */
  lemma {:induction false} PrintColorIsPrinted(s: Screen, text: seq<byte>, attribute: byte)
    requires OnScreen(s)
    ensures Printed(s, text, false, attribute, PrintColor(s, text, attribute))
    decreases |text|
  {
    hide Printed;
    if |text| == 0 {
      NothingPrinted(s, false, attribute);
    } else {
      var init, c := text[..|text| - 1], text[|text| - 1];
      assert text == init + [c];
      PrintColorIsPrinted(s, init, attribute);
      PrintColorSnoc(s, init, c, attribute);
      var t := PrintColor(s, init, attribute);
      ColorCharPrinted(t, c, attribute);
      PrintedOneMore(s, init, false, attribute, t, c, PrintColorChar(t, c, attribute));
    }
  }

  lemma {:induction false} PrintColorSnoc(s: Screen, text: seq<byte>, c: byte, attribute: byte)
    requires OnScreen(s)
    ensures PrintColor(s, text + [c], attribute) == PrintColorChar(PrintColor(s, text, attribute), c, attribute)
    decreases |text|
  {
    if |text| == 0 {
      assert text + [c] == [c] && [c][1..] == [];
      assert PrintColor(PrintColorChar(s, c, attribute), [], attribute) == PrintColorChar(s, c, attribute);
    } else {
      assert (text + [c])[1..] == text[1..] + [c];
      PrintColorSnoc(PrintColorChar(s, text[0], attribute), text[1..], c, attribute);
    }
  }

  /** Cell k after a text without newlines, one cell a character: it shows its character; the last cell,
      where all piles up that does not fit, the last one; and the other cells are as they were. */
  predicate CellLands(s: Screen, text: seq<byte>, attribute: byte, t: Screen, k: nat)
    requires OnScreen(s) && OnScreen(t) && k < 2000
  {
    var k0 := s.cursor / 2;
    if k0 <= k < 1999 && k < k0 + |text| then CellIs(t, k, text[k - k0], attribute)
    else if k == 1999 && 1999 < k0 + |text| then CellIs(t, k, text[|text| - 1], attribute)
    else CellIs(t, k, CharAt(s, k), AttributeAt(s, k))
  }

  /** So it is for coloured text, in which a backspace is a glyph as well. */
  lemma {:induction false} ColorTextLands(s: Screen, text: seq<byte>, attribute: byte)
    requires OnScreen(s) && NEWLINE !in text
    ensures var t, k0 := PrintColor(s, text, attribute), s.cursor / 2;
            && t.cursor == 2 * (if k0 + |text| < 1999 then k0 + |text| else 1999)
            && forall k :: 0 <= k < 2000 ==> CellLands(s, text, attribute, t, k)
    decreases |text|
  {
    if |text| > 0 {
      var init, c := text[..|text| - 1], text[|text| - 1];
      assert text == init + [c] && c in text;
      ColorTextLands(s, init, attribute);
      PrintColorSnoc(s, init, c, attribute);
      var t, u := PrintColor(s, init, attribute), PrintColor(s, text, attribute);
      ColorCharPrinted(t, c, attribute);
      hide CharAt, AttributeAt, PrintColor, PrintColorChar;
      forall k | 0 <= k < 2000 ensures CellLands(s, text, attribute, u, k) {
        assert CellPrinted(t, c, false, attribute, u, k) && CellLands(s, init, attribute, t, k);
        assert 0 <= k - s.cursor / 2 < |init| ==> text[k - s.cursor / 2] == init[k - s.cursor / 2];
      }
    }
  }

  /** A newline, in either printer, moves the cursor and leaves every cell as it was. */
  lemma NewLineKeepsCells(s: Screen, attribute: byte)
    requires OnScreen(s)
    ensures Print(s, [10]) == PrintColor(s, [10], attribute) == Screen(s.cells, NextCursor(s.cursor, 10, true))
  {
    PrintOne(s, 10);
    assert [] + [10] == [10];
    PrintColorSnoc(s, [], 10, attribute);
  }

  class TextConsole {
    /** VIDEO_MEMORY */
    const video: array<byte>
    var cursorPos: nat
    var fgColor: byte
    var bgColor: byte

    ghost predicate Valid()
      reads this, video
    {
      OnScreen(Shown())
    }

    function Shown(): Screen
      reads this, video
    {
      Screen(video[..], cursorPos)
    }

    constructor (memory: array<byte>)
      requires memory.Length == SCREEN_SIZE
      ensures video == memory && Valid() && Shown() == Screen(memory[..], 0) && fgColor == 0xF && bgColor == 0
    {
      video := memory;
      cursorPos := 0;
      fgColor, bgColor := 0xF, 0;
    }

    /** clear_screen */
    method ClearScreen()
      requires Valid()
      modifies this`cursorPos, video
      ensures Valid() && cursorPos == 0
      ensures forall k :: 0 <= k < 2000 ==> CellIs(Shown(), k, 0x20, 0x07)
    {
      var i := 0;
      while i < SCREEN_SIZE
        invariant 0 <= i <= SCREEN_SIZE && i % 2 == 0 && video.Length == SCREEN_SIZE
        invariant forall k :: 0 <= k < i / 2 ==> video[2 * k] == SPACE && video[2 * k + 1] == PLAIN
      {
        video[i] := SPACE;
        video[i + 1] := PLAIN;
        i := i + 2;
      }
      cursorPos := 0;
    }

    /** safe_update_cursor_pos; the hardware cursor is not part of this model. */
    method SafeUpdateCursorPos(newPos: int)
      modifies this`cursorPos
      ensures cursorPos == if newPos < 0 then 0 else if newPos >= SCREEN_SIZE then SCREEN_SIZE - 2 else newPos
    {
      var p := newPos;
      if p < 0 {
        p := 0;
      }
      if p >= SCREEN_SIZE {
        p := SCREEN_SIZE - 2;
      }
      cursorPos := p;
    }

    /** print_string: the whole string is consumed, and the screen is the fold over its characters. */
    method PrintString(str: seq<byte>)
      requires Valid() && 0 in str
      modifies this`cursorPos, video
      ensures Valid() && Shown() == Print(old(Shown()), Text(str))
      ensures Printed(old(Shown()), Text(str), true, 0x07, Shown())
    {
      hide Printed;
      ghost var text := Text(str);
      PrintIsPrinted(Shown(), text);
      var i := 0;
      while str[i] != 0 && cursorPos < SCREEN_SIZE
        invariant 0 <= i <= |text| && Valid()
        invariant Print(old(Shown()), text) == Print(Shown(), text[i..])
        decreases |str| - i
      {
        var c := str[i];
        ghost var s := Shown();
        assert c == text[i] && text[i..][1..] == text[i + 1..];
        if c == NEWLINE {
          cursorPos := (cursorPos / 160 + 1) * 160;
          if cursorPos >= SCREEN_SIZE {
            cursorPos := SCREEN_SIZE - 160;
          }
          i := i + 1;
          assert Shown() == NewLine(s);
        } else if c == BACKSPACE {
          if cursorPos >= 2 {
            cursorPos := cursorPos - 2;
            video[cursorPos] := SPACE;
            video[cursorPos + 1] := PLAIN;
          }
          i := i + 1;
          assert Shown() == Erase(s);
        } else {
          video[cursorPos] := c;
          i := i + 1;
          video[cursorPos + 1] := PLAIN;
          cursorPos := cursorPos + 2;
          if cursorPos >= SCREEN_SIZE {
            cursorPos := SCREEN_SIZE - 2;
          }
          SafeUpdateCursorPos(cursorPos);
          assert Shown() == Glyph(s, c, PLAIN);
        }
        assert Shown() == PrintChar(s, c);
      }
    }

    /** print_string_color */
    method PrintStringColor(str: seq<byte>, fg: byte, bg: byte)
      requires Valid() && 0 in str
      modifies this`cursorPos, video
      ensures Valid() && Shown() == PrintColor(old(Shown()), Text(str), Attribute(fg, bg))
      ensures Printed(old(Shown()), Text(str), false, bg % 16 * 16 + fg % 16, Shown())
    {
      hide Printed;
      ghost var text := Text(str);
      PrintColorIsPrinted(Shown(), text, Attribute(fg, bg));
      AttributeBits(fg, bg);
      var attribute: byte := Or(bg * 16 % 256, And(fg, 15));
      var i := 0;
      while str[i] != 0 && cursorPos < SCREEN_SIZE
        invariant 0 <= i <= |text| && Valid()
        invariant PrintColor(old(Shown()), text, attribute) == PrintColor(Shown(), text[i..], attribute)
        decreases |str| - i
      {
        var c := str[i];
        ghost var s := Shown();
        assert c == text[i] && text[i..][1..] == text[i + 1..];
        if c == NEWLINE {
          cursorPos := (cursorPos / 160 + 1) * 160;
          if cursorPos >= SCREEN_SIZE {
            cursorPos := SCREEN_SIZE - 160;
          }
          i := i + 1;
        } else {
          video[cursorPos] := c;
          i := i + 1;
          video[cursorPos + 1] := attribute;
          cursorPos := cursorPos + 2;
          if cursorPos >= SCREEN_SIZE {
            cursorPos := SCREEN_SIZE - 2;
          }
        }
        assert Shown() == PrintColorChar(s, c, attribute);
      }
      SafeUpdateCursorPos(cursorPos);
    }
  }
}
