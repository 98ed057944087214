/** The number printers of video.c: what text they build, and that the text can be read back. */
module Numbers {
  import opened Words
  import opened Console

  const ZERO: byte := 48
  const MINUS: byte := 45
  const LETTER_X: byte := 120

  // ---- Numerals in a base, and reading them back ----

  function DigitChar(d: int): byte
    requires 0 <= d < 16
  {
    if d < 10 then d + 48 else d - 10 + 97
  }

  function DigitValue(c: byte): int {
    if 48 <= c < 58 then c - 48 else if 97 <= c < 103 then c - 97 + 10 else -1
  }

  /** The digits are those one writes, and read as what they stand for. */
  lemma DigitsAsWritten(d: nat)
    requires d < 16
    ensures DigitChar(d) == "0123456789abcdef"[d] as int && DigitValue(DigitChar(d)) == d
  {
  }

  function Quotient(n: nat, base: nat): nat
    requires base >= 2
  {
    n / base
  }

  function Remainder(n: nat, base: nat): (r: nat)
    requires base >= 2
    ensures r < base
  {
    n % base
  }

  lemma QuotientRemainder(n: nat, base: nat)
    requires base >= 2
    ensures Quotient(n, base) * base + Remainder(n, base) == n
    ensures n > 0 ==> Quotient(n, base) < n
    ensures Quotient(n, base) == 0 ==> Remainder(n, base) == n
  {
    if n > 0 && n / base >= n {
      MulMono(n, n / base, base);
    }
  }

  lemma MulMono(a: nat, b: nat, d: nat)
    requires a <= b
    ensures a * d <= b * d
  {
  }

  /** The digits of n in a base, most significant first; none for 0. */
  function Digits(n: nat, base: nat): (s: seq<byte>)
    requires 2 <= base <= 16
    decreases n
  {
    QuotientRemainder(n, base);
    if n == 0 then [] else Digits(Quotient(n, base), base) + [DigitChar(Remainder(n, base))]
  }

  /** Reading a numeral, from left to right. */
  function Value(s: seq<byte>, base: nat): int {
    if |s| == 0 then 0 else Value(s[..|s| - 1], base) * base + DigitValue(s[|s| - 1])
  }

  /** Only digits of the base, and no leading zero. */
  predicate Numeral(s: seq<byte>, base: nat) {
    (forall k :: 0 <= k < |s| ==> 0 <= DigitValue(s[k]) < base) && (|s| > 0 ==> s[0] != ZERO)
  }

  /** Reading the digits back, whatever the base; they start with a non-zero one. */
  lemma {:induction false} DigitsReadBack(n: nat, base: nat)
    requires 2 <= base <= 16
    ensures Value(Digits(n, base), base) == n && Numeral(Digits(n, base), base)
    ensures n > 0 ==> |Digits(n, base)| > 0
    decreases n
  {
    hide Quotient, Remainder, DigitChar, DigitValue, Numeral, Value;
    if n > 0 {
      QuotientRemainder(n, base);
      DigitsReadBack(Quotient(n, base), base);
      DigitsAsWritten(Remainder(n, base));
      SnocReads(Digits(Quotient(n, base), base), DigitChar(Remainder(n, base)), base);
    } else {
      NoDigits(base);
    }
  }

  lemma NoDigits(base: nat)
    ensures Value([], base) == 0 && Numeral([], base)
  {
  }

  /** One more digit on a numeral. */
  lemma SnocReads(s: seq<byte>, c: byte, base: nat)
    requires Numeral(s, base) && 0 <= DigitValue(c) < base && (s == [] ==> DigitValue(c) != 0)
    ensures Numeral(s + [c], base) && Value(s + [c], base) == Value(s, base) * base + DigitValue(c)
  {
    assert (s + [c])[..|s|] == s;
  }

  /** The digits are the only numeral without leading zero that reads as n. */
  lemma {:induction false} DigitsUnique(s: seq<byte>, base: nat)
    requires 2 <= base <= 16 && Numeral(s, base)
    ensures Value(s, base) >= 0 && Digits(Value(s, base), base) == s
    ensures |s| > 0 ==> Value(s, base) > 0
    decreases |s|
  {
    if |s| > 0 {
      var init, d := s[..|s| - 1], DigitValue(s[|s| - 1]);
      NumeralParts(s, base);
      DigitsUnique(init, base);
      DigitsSnoc(Value(init, base), d, base);
      hide Quotient, Remainder, Digits, Numeral, DigitChar, DigitValue;
      assert s == init + [s[|s| - 1]];
    }
  }

  /** A numeral without its last digit is one, and the last digit is not 0 if it is the only one. */
  lemma NumeralParts(s: seq<byte>, base: nat)
    requires 2 <= base <= 16 && Numeral(s, base) && |s| > 0
    ensures Numeral(s[..|s| - 1], base) && 0 <= DigitValue(s[|s| - 1]) < base
    ensures DigitChar(DigitValue(s[|s| - 1])) == s[|s| - 1]
    ensures |s| == 1 ==> s[..|s| - 1] == [] && DigitValue(s[|s| - 1]) > 0
  {
  }

  lemma DigitsSnoc(v: nat, d: nat, base: nat)
    requires 2 <= base <= 16 && d < base && v + d > 0
    ensures v * base + d > 0 && Digits(v * base + d, base) == Digits(v, base) + [DigitChar(d)]
  {
    LastDigit(v, d, base);
    hide Quotient, Remainder;
  }

  lemma LastDigit(v: nat, d: nat, base: nat)
    requires base >= 2 && d < base
    ensures Quotient(v * base + d, base) == v && Remainder(v * base + d, base) == d
    ensures v > 0 ==> v * base + d > 0
  {
    DivModUnique(v * base + d, base, v, d);
    if v > 0 {
      MulAtLeast(v, base);
    }
  }

  lemma {:induction false} DigitsLength(n: nat, base: nat, k: nat)
    requires 2 <= base <= 16 && n < Power(base, k)
    ensures |Digits(n, base)| <= k
    decreases k
  {
    hide Quotient, Remainder;
    if n > 0 && k > 0 {
      QuotientBelow(n, base, Power(base, k - 1));
      DigitsLength(Quotient(n, base), base, k - 1);
    }
  }

  function Power(b: nat, k: nat): nat {
    if k == 0 then 1 else b * Power(b, k - 1)
  }

  lemma QuotientBelow(n: nat, base: nat, p: nat)
    requires base >= 2 && n < base * p
    ensures Quotient(n, base) < p
  {
    QuotientRemainder(n, base);
    if Quotient(n, base) >= p {
      MulMono(p, Quotient(n, base), base);
    }
  }

  // ---- print_dec ----

  /** The text print_dec prints. */
  function DecText(n: int): seq<byte> {
    if n == 0 then [ZERO] else if n < 0 then [MINUS] + Digits(-n, 10) else Digits(n, 10)
  }

  function ReadDec(s: seq<byte>): int {
    if |s| > 0 && s[0] == MINUS then -Value(s[1..], 10) else Value(s, 10)
  }

  /** Reading the decimal text gives the number back; it has at most 11 characters, all printable
      digits but for the sign, and no leading zero. */
  lemma DecRoundTrip(n: int)
    requires -0x8000_0000 < n < 0x8000_0000
    ensures ReadDec(DecText(n)) == n && 1 <= |DecText(n)| <= 11
    ensures n > 0 ==> Numeral(DecText(n), 10)
    ensures n < 0 ==> DecText(n)[0] == '-' as int && Numeral(DecText(n)[1..], 10)
    ensures n == 0 ==> DecText(n) == ['0' as int]
    ensures 0 !in DecText(n)
  {
    hide Digits, Value, Power;
    if n == 0 {
      ZeroReads();
    } else {
      var m: nat := if n < 0 then -n else n;
      DigitsReadBack(m, 10);
      TenDigits();
      DigitsLength(m, 10, 10);
      NumeralText(Digits(m, 10), 10);
      assert n < 0 ==> DecText(n)[1..] == Digits(m, 10);
    }
  }

  lemma ZeroReads()
    ensures Value([ZERO], 10) == 0
  {
    assert [ZERO][..0] == [];
  }

  /** A numeral is neither a sign nor interrupted by a terminator. */
  lemma NumeralText(s: seq<byte>, base: nat)
    requires Numeral(s, base)
    ensures 0 !in s && MINUS !in s
  {
    forall k | 0 <= k < |s| ensures s[k] != 0 && s[k] != MINUS {
      assert 0 <= DigitValue(s[k]);
    }
  }

  lemma TenDigits()
    ensures Power(10, 10) == 10_000_000_000 && Power(16, 8) == WORD
  {
    assert Power(10, 5) == 100_000;
    assert Power(16, 4) == 0x1_0000;
  }

  /** A sequence from its last element to its first. */
  function Reversed(s: seq<byte>): (r: seq<byte>)
    ensures |r| == |s| && forall k :: 0 <= k < |s| ==> r[k] == s[|s| - 1 - k]
  {
    seq(|s|, k requires 0 <= k < |s| => s[|s| - 1 - k])
  }

  lemma NoneReversed()
    ensures Reversed([]) == []
  {
  }

  lemma ReversedSnoc(s: seq<byte>, x: byte)
    ensures Reversed(s + [x]) == [x] + Reversed(s)
  {
  }

  /** The reversal loop of print_dec, on the first n bytes of the buffer. */
  method ReverseInPlace(buffer: array<byte>, n: nat)
    requires n <= buffer.Length
    modifies buffer
    ensures buffer[..n] == Reversed(old(buffer[..n])) && buffer[n..] == old(buffer[n..])
  {
    var j := 0;
    while j < n / 2
      invariant 0 <= j <= n / 2
      invariant forall k :: 0 <= k < j || n - j <= k < n ==> buffer[k] == old(buffer[..])[n - 1 - k]
      invariant forall k :: j <= k < n - j || n <= k < buffer.Length ==> buffer[k] == old(buffer[..])[k]
    {
      var temp := buffer[j];
      buffer[j] := buffer[n - j - 1];
      buffer[n - j - 1] := temp;
      j := j + 1;
    }
  }

  /** One digit of a numeral, as the printers' loops produce it. */
  lemma DigitStep(n: nat, base: nat)
    requires 2 <= base <= 16
    ensures n > 0 ==> Digits(n, base) == Digits(n / base, base) + [DigitChar(n % base)]
    ensures n > 0 ==> |Digits(n, base)| > 0
    ensures n == 0 ==> Digits(n, base) == []
  {
  }

  /** The digit loop of print_dec: the digits of m, lowest first. */
  method PutDigits(buffer: array<byte>, m: nat) returns (i: nat)
    requires |Digits(m, 10)| <= buffer.Length
    modifies buffer
    ensures i == |Digits(m, 10)| && Digits(m, 10) == Reversed(buffer[..i])
  {
    hide Digits, Reversed;
    i := 0;
    var num := m;
    NoneReversed();
    while num != 0
      invariant i + |Digits(num, 10)| == |Digits(m, 10)|
      invariant Digits(m, 10) == Digits(num, 10) + Reversed(buffer[..i])
    {
      ghost var was := buffer[..i];
      DigitStep(num, 10);
      buffer[i] := num % 10 + 48;
      assert buffer[..i + 1] == was + [buffer[i]];
      ReversedSnoc(was, buffer[i]);
      i := i + 1;
      num := num / 10;
    }
    DigitStep(0, 10);
  }

  /** The buffer print_dec builds: the decimal text, terminated. */
  method DecBuffer(n: int) returns (buffer: array<byte>)
    requires -0x8000_0000 < n < 0x8000_0000
    ensures fresh(buffer) && 0 in buffer[..] && Text(buffer[..]) == DecText(n)
  {
    hide Digits, Reversed, Numeral, ReadDec;
    DecRoundTrip(n);
    if n == 0 {
      buffer := new byte[2] [ZERO, 0];
      TextIs(buffer[..], [ZERO]);
      return;
    }
    buffer := new byte[50];
    var num: nat := if n < 0 then -n else n;
    var i := PutDigits(buffer, num);
    if n < 0 {
      ghost var was := buffer[..i];
      buffer[i] := MINUS;
      assert buffer[..i + 1] == was + [MINUS];
      ReversedSnoc(was, MINUS);
      i := i + 1;
    }
    ReverseInPlace(buffer, i);
    buffer[i] := 0;
    TextIs(buffer[..], DecText(n));
  }

  // ---- print_hex ----

  /** n >> s */
  function ShiftRight(n: nat, s: nat): nat {
    if s == 0 then n else ShiftRight(n / 2, s - 1)
  }

  lemma {:induction false} ShiftOneMore(n: nat, s: nat)
    ensures ShiftRight(n, s + 1) == ShiftRight(n, s) / 2
  {
    if s > 0 {
      ShiftOneMore(n / 2, s - 1);
    }
  }

  lemma ShiftFourMore(n: nat, s: nat)
    ensures ShiftRight(n, s + 4) == ShiftRight(n, s) / 16
  {
    ShiftOneMore(n, s);
    ShiftOneMore(n, s + 1);
    ShiftOneMore(n, s + 2);
    ShiftOneMore(n, s + 3);
  }

  lemma {:induction false} ShiftedOut(n: nat, s: nat)
    requires n < Pow2(s)
    ensures ShiftRight(n, s) == 0
  {
    if s > 0 {
      ShiftedOut(n / 2, s - 1);
    }
  }

  /** The text print_hex prints for a non-zero number. */
  function HexText(n: nat): seq<byte> {
    [ZERO, LETTER_X] + Digits(n, 16)
  }

  /** Reading the hexadecimal digits gives the number back; there are at most 8 of them, lower-case,
      the first not 0. */
  lemma HexRoundTrip(n: word)
    requires n != 0
    ensures Value(HexText(n)[2..], 16) == n && Numeral(HexText(n)[2..], 16)
    ensures 3 <= |HexText(n)| <= 10 && 0 !in HexText(n)
    ensures HexText(n)[..2] == ['0' as int, 'x' as int]
  {
    hide Digits, Value, Power;
    DigitsReadBack(n, 16);
    TenDigits();
    DigitsLength(n, 16, 8);
    NumeralText(Digits(n, 16), 16);
    assert HexText(n)[2..] == Digits(n, 16);
  }

  /** One turn of print_hex's loop: the digit at `shift`, and the number cut off there. */
  lemma HexStep(n: nat, shift: nat)
    ensures var digit := And(ShiftRight(n, shift), 0xF);
            && digit < 16
            && (ShiftRight(n, shift) == 0 <==> digit == 0 && ShiftRight(n, shift + 4) == 0)
            && HexText(ShiftRight(n, shift)) ==
               if ShiftRight(n, shift) == 0 then HexText(0) else HexText(ShiftRight(n, shift + 4)) + [DigitChar(digit)]
  {
    LowMask(ShiftRight(n, shift), 4);
    assert Pow2(4) == 16;
    ShiftFourMore(n, shift);
    DigitStep(ShiftRight(n, shift), 16);
  }

  /** The digit loop of print_hex, after the prefix. */
  method PutHexDigits(buffer: array<byte>, n: word) returns (i: nat)
    requires buffer.Length == 12 && buffer[..2] == HexText(0)
    modifies buffer
    ensures i <= 10 && buffer[..i] == HexText(n)
  {
    hide Digits, And, ShiftRight, Pow2, HexText;
    i := 2;
    var firstDigit := false;
    var shift := 28;
    AllShiftedOut(n);
    while shift >= 0
      invariant -4 <= shift <= 28 && shift % 4 == 0
      invariant 2 <= i && 4 * (i - 2) <= 28 - shift
      invariant buffer[..i] == HexText(ShiftRight(n, shift + 4))
      invariant firstDigit <==> ShiftRight(n, shift + 4) != 0
    {
      ghost var was := buffer[..i];
      HexStep(n, shift);
      var digit := And(ShiftRight(n, shift), 0xF);
      if digit != 0 || firstDigit {
        firstDigit := true;
        buffer[i] := if digit < 10 then digit + 48 else digit - 10 + 97;
        i := i + 1;
        assert buffer[..i] == was + [DigitChar(digit)];
      }
      shift := shift - 4;
    }
  }

  lemma AllShiftedOut(n: word)
    ensures ShiftRight(n, 32) == 0 && ShiftRight(n, 0) == n
  {
    Pow2Is(0);
    ShiftedOut(n, 32);
  }

  /** The buffer print_hex builds. Only for 0 it lacks its terminator. */
  method HexBuffer(n: word) returns (buffer: array<byte>)
    ensures fresh(buffer) && (0 in buffer[..] <==> n != 0)
    ensures n != 0 ==> Text(buffer[..]) == HexText(n)
    ensures n == 0 ==> buffer[..] == [ZERO, LETTER_X, ZERO]
  {
    hide Digits, Numeral, Value;
    if n == 0 {
      buffer := new byte[3] [ZERO, LETTER_X, ZERO];
      return;
    }
    HexRoundTrip(n);
    DigitStep(0, 16);
    buffer := new byte[12];
    buffer[0] := ZERO;
    buffer[1] := LETTER_X;
    var i := PutHexDigits(buffer, n);
    if i == 2 {
      assert false; // some digit of a non-zero number is not zero
    }
    buffer[i] := 0;
    TextIs(buffer[..], HexText(n));
  }

  // ---- The numbers on the screen ----

  /** The characters in cells a to b. */
  function Row(s: Screen, a: nat, b: nat): (r: seq<byte>)
    requires OnScreen(s) && a <= b <= 2000
    ensures |r| == b - a && forall i :: 0 <= i < b - a ==> r[i] == CharAt(s, a + i)
    decreases b
  {
    if a == b then [] else Row(s, a, b - 1) + [CharAt(s, b - 1)]
  }

  /** Coloured text that fits before the last cell can be read off the cells. */
  lemma TextOnScreen(s: Screen, text: seq<byte>, attribute: byte)
    requires OnScreen(s) && NEWLINE !in text && s.cursor / 2 + |text| <= 1999
    ensures var t, k0 := PrintColor(s, text, attribute), s.cursor / 2;
            t.cursor == 2 * (k0 + |text|) && Row(t, k0, k0 + |text|) == text
  {
    ColorTextLands(s, text, attribute);
    var t, k0 := PrintColor(s, text, attribute), s.cursor / 2;
    hide PrintColor;
    forall i | 0 <= i < |text| ensures Row(t, k0, k0 + |text|)[i] == text[i] {
      assert CellLands(s, text, attribute, t, k0 + i);
    }
  }

  lemma NoNewLine(text: seq<byte>, base: nat)
    requires Numeral(text, base)
    ensures NEWLINE !in text
  {
    forall k | 0 <= k < |text| ensures text[k] != NEWLINE {
      assert 0 <= DigitValue(text[k]);
    }
  }

  lemma DecTextPlain(n: int)
    requires -0x8000_0000 < n < 0x8000_0000
    ensures NEWLINE !in DecText(n)
  {
    hide Digits;
    if n != 0 {
      var m: nat := if n < 0 then -n else n;
      DigitsReadBack(m, 10);
      NoNewLine(Digits(m, 10), 10);
    }
  }

  lemma HexTextPlain(n: word)
    ensures NEWLINE !in HexText(n)
  {
    hide Digits;
    DigitsReadBack(n, 16);
    NoNewLine(Digits(n, 16), 16);
  }

  /** A printed decimal number, read off the cells. */
  lemma DecOnScreen(s: Screen, n: int, attribute: byte)
    requires OnScreen(s) && -0x8000_0000 < n < 0x8000_0000
    ensures var t, k0, k1 := PrintColor(s, DecText(n), attribute), s.cursor / 2, s.cursor / 2 + |DecText(n)|;
            k1 <= 1999 ==> t.cursor == 2 * k1 && 1 <= k1 - k0 <= 11 && ReadDec(Row(t, k0, k1)) == n
  {
    hide Digits, Numeral, Value, PrintColor, DecText, Row;
    DecRoundTrip(n);
    DecTextPlain(n);
    if s.cursor / 2 + |DecText(n)| <= 1999 {
      TextOnScreen(s, DecText(n), attribute);
    }
  }

  /** A printed hexadecimal number, likewise. */
  lemma HexOnScreen(s: Screen, n: word, attribute: byte)
    requires OnScreen(s) && n != 0
    ensures var t, k0, k1 := PrintColor(s, HexText(n), attribute), s.cursor / 2, s.cursor / 2 + |HexText(n)|;
            k1 <= 1999 ==>
              && t.cursor == 2 * k1 && 3 <= k1 - k0 <= 10 && Row(t, k0, k0 + 2) == ['0' as int, 'x' as int]
              && Value(Row(t, k0 + 2, k1), 16) == n
  {
    hide Digits, Numeral, Value, PrintColor, HexText, Row;
    HexRoundTrip(n);
    HexTextPlain(n);
    if s.cursor / 2 + |HexText(n)| <= 1999 {
      TextOnScreen(s, HexText(n), attribute);
      RowParts(PrintColor(s, HexText(n), attribute), HexText(n), s.cursor / 2);
    }
  }

  /** print_dec: if the text fits before the last cell, the number can be read off the screen. */
  method PrintDec(console: TextConsole, n: int)
    requires console.Valid() && -0x8000_0000 < n < 0x8000_0000
    modifies console`cursorPos, console.video
    ensures console.Valid()
    ensures console.Shown() == PrintColor(old(console.Shown()), DecText(n), Attribute(console.fgColor, console.bgColor))
    ensures Printed(old(console.Shown()), DecText(n), false, console.bgColor % 16 * 16 + console.fgColor % 16,
                    console.Shown())
    ensures var k0, k1 := old(console.cursorPos) / 2, console.cursorPos / 2;
            k0 + |DecText(n)| <= 1999 ==>
              k1 == k0 + |DecText(n)| && 1 <= k1 - k0 <= 11 && ReadDec(Row(console.Shown(), k0, k1)) == n
  {
    hide Printed, Digits, Numeral, Value, PrintColor, DecText, Row, Text;
    DecOnScreen(console.Shown(), n, Attribute(console.fgColor, console.bgColor));
    var buffer := DecBuffer(n);
    console.PrintStringColor(buffer[..], console.fgColor, console.bgColor);
  }

  /** print_hex, for which C reads past the three-byte array when n is 0: if the text fits before the
      last cell, 0x and the number can be read off the screen. */
  method PrintHex(console: TextConsole, n: word)
    requires console.Valid() && n != 0
    modifies console`cursorPos, console.video
    ensures console.Valid()
    ensures console.Shown() == PrintColor(old(console.Shown()), HexText(n), Attribute(console.fgColor, console.bgColor))
    ensures Printed(old(console.Shown()), HexText(n), false, console.bgColor % 16 * 16 + console.fgColor % 16,
                    console.Shown())
    ensures var k0, k1 := old(console.cursorPos) / 2, console.cursorPos / 2;
            k0 + |HexText(n)| <= 1999 ==>
              && k1 == k0 + |HexText(n)| && 3 <= k1 - k0 <= 10
              && Row(console.Shown(), k0, k0 + 2) == ['0' as int, 'x' as int]
              && Value(Row(console.Shown(), k0 + 2, k1), 16) == n
  {
    hide Printed, Digits, Numeral, Value, PrintColor, HexText, Row, Text;
    HexOnScreen(console.Shown(), n, Attribute(console.fgColor, console.bgColor));
    var buffer := HexBuffer(n);
    console.PrintStringColor(buffer[..], console.fgColor, console.bgColor);
  }

  /** The row of a text, prefix and digits apart. */
  lemma RowParts(s: Screen, text: seq<byte>, k0: nat)
    requires OnScreen(s) && |text| >= 2 && k0 + |text| <= 2000 && Row(s, k0, k0 + |text|) == text
    ensures Row(s, k0, k0 + 2) == text[..2] && Row(s, k0 + 2, k0 + |text|) == text[2..]
  {
    var tl := Row(s, k0 + 2, k0 + |text|);
    forall i | 0 <= i < |text| - 2 ensures tl[i] == text[2..][i] {
      assert tl[i] == CharAt(s, k0 + (i + 2));
    }
  }
}
