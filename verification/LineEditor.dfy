/** read_line of keyboard.c: a line edited in a heap buffer and echoed to the console. */
module LineEditor {
  import opened Words
  import opened Memory
  import opened BlockList
  import opened HeapLaws
  import opened HeapExact
  import opened Headers
  import opened HeapSteps
  import opened KernelHeap
  import opened HeapRefinement
  import opened Console

  // ---- The editor and its echo as folds over what keyboard_read returns ----

  /** One key: 0 is no key, a backspace takes the last character, and m - 1 characters are the most. */
  function EditChar(line: seq<byte>, c: byte, m: nat): seq<byte> {
    if c == 0 then line
    else if c == BACKSPACE then (if |line| > 0 then line[..|line| - 1] else line)
    else if |line| < m - 1 then line + [c]
    else line
  }

  function Edit(line: seq<byte>, keys: seq<byte>, m: nat): seq<byte>
    decreases |keys|
  {
    if |keys| == 0 then line else Edit(EditChar(line, keys[0], m), keys[1..], m)
  }

  /** What the key shows: only a key that changes the line changes the screen. */
  function EchoChar(s: Screen, line: seq<byte>, c: byte, m: nat): (t: Screen)
    requires OnScreen(s)
    ensures OnScreen(t)
  {
    if c == 0 then s
    else if c == BACKSPACE then (if |line| > 0 then Erase(s) else s)
    else if |line| < m - 1 then PrintChar(s, c)
    else s
  }

  function Echo(s: Screen, line: seq<byte>, keys: seq<byte>, m: nat): (t: Screen)
    requires OnScreen(s)
    ensures OnScreen(t)
    decreases |keys|
  {
    if |keys| == 0 then s
    else Echo(EchoChar(s, line, keys[0], m), EditChar(line, keys[0], m), keys[1..], m)
  }

  /** The keys before the first newline. */
  function UntilNewline(keys: seq<byte>): (t: seq<byte>)
    requires NEWLINE in keys
    ensures |t| < |keys| && t == keys[..|t|] && keys[|t|] == NEWLINE && NEWLINE !in t
  {
    if keys[0] == NEWLINE then [] else [keys[0]] + UntilNewline(keys[1..])
  }

  /** The line always fits the buffer with its terminator, and holds neither 0 nor backspace. */
  lemma {:induction false} LineFits(line: seq<byte>, keys: seq<byte>, m: nat)
    requires m >= 1 && |line| <= m - 1 && 0 !in line && BACKSPACE !in line
    ensures var l := Edit(line, keys, m); |l| <= m - 1 && 0 !in l && BACKSPACE !in l
    decreases |keys|
  {
    if |keys| > 0 {
      LineFits(EditChar(line, keys[0], m), keys[1..], m);
    }
  }

  /** How many bytes of its buffer a session writes: the longest line on the way, and the terminator. */
  function Reach(line: seq<byte>, keys: seq<byte>, m: nat): nat
    decreases |keys|
  {
    if |keys| == 0 then |line| + 1
    else
      var next := EditChar(line, keys[0], m);
      var rest := Reach(next, keys[1..], m);
      if rest < |next| then |next| else rest
  }

  /** They are never more than max_length. */
  lemma {:induction false} ReachBound(line: seq<byte>, keys: seq<byte>, m: nat)
    requires m >= 1 && |line| <= m - 1
    ensures |Edit(line, keys, m)| < Reach(line, keys, m) <= m
    decreases |keys|
  {
    if |keys| > 0 {
      ReachBound(EditChar(line, keys[0], m), keys[1..], m);
    }
  }

  lemma {:induction false} EditConcat(line: seq<byte>, a: seq<byte>, b: seq<byte>, m: nat)
    ensures Edit(line, a + b, m) == Edit(Edit(line, a, m), b, m)
    decreases |a|
  {
    if |a| == 0 {
      assert a + b == b;
    } else {
      assert (a + b)[1..] == a[1..] + b;
      EditConcat(EditChar(line, a[0], m), a[1..], b, m);
    }
  }

  lemma ConsPrefix(line: seq<byte>, keys: seq<byte>, k: nat)
    requires 1 <= k <= |keys|
    ensures line + keys[..k] == (line + [keys[0]]) + keys[1..][..k - 1]
  {
  }

  /** Keys without backspace are taken verbatim up to the bound: the line is their first m - 1. */
  lemma {:induction false} TypedVerbatim(line: seq<byte>, keys: seq<byte>, m: nat)
    requires m >= 1 && |line| <= m - 1 && 0 !in keys && BACKSPACE !in keys
    ensures Edit(line, keys, m) == line + keys[..if |line| + |keys| <= m - 1 then |keys| else m - 1 - |line|]
    decreases |keys|
  {
    if |keys| > 0 {
      assert keys[0] in keys;
      assert forall c :: c in keys[1..] ==> c in keys;
      TypedVerbatim(EditChar(line, keys[0], m), keys[1..], m);
      if |line| < m - 1 {
        ConsPrefix(line, keys, if |line| + |keys| <= m - 1 then |keys| else m - 1 - |line|);
      } else {
        assert keys[..0] == keys[1..][..0];
      }
    }
  }

  lemma EditOne(line: seq<byte>, c: byte, m: nat)
    ensures Edit(line, [c], m) == EditChar(line, c, m)
  {
    assert [c][1..] == [];
    assert Edit(EditChar(line, c, m), [], m) == EditChar(line, c, m);
  }

  /** A character and a backspace cancel out exactly while there is room for the character, or when
      there is nothing to take back. */
  lemma BackspaceCancels(line: seq<byte>, c: byte, m: nat)
    requires c != 0 && c != BACKSPACE
    ensures Edit(line, [c, BACKSPACE], m) == line <==> |line| < m - 1 || line == []
  {
    assert [c, BACKSPACE] == [c] + [BACKSPACE];
    EditConcat(line, [c], [BACKSPACE], m);
    EditOne(line, c, m);
    EditOne(EditChar(line, c, m), BACKSPACE, m);
  }

  /** A backspace with nothing to take back does nothing, whatever follows; nor does an answer 0. Together
      with TypedVerbatim and BackspaceCancels this decides the line for any keys. */
  lemma IdleKeys(line: seq<byte>, keys: seq<byte>, m: nat)
    ensures Edit([], [BACKSPACE] + keys, m) == Edit([], keys, m)
    ensures Edit(line, [0] + keys, m) == Edit(line, keys, m)
  {
    assert ([BACKSPACE] + keys)[1..] == keys && ([0] + keys)[1..] == keys;
  }

  /** The keys that change the line. */
  function Heeded(line: seq<byte>, keys: seq<byte>, m: nat): seq<byte>
    decreases |keys|
  {
    if |keys| == 0 then []
    else
      var next := EditChar(line, keys[0], m);
      (if next != line then [keys[0]] else []) + Heeded(next, keys[1..], m)
  }

  /** The echo is these keys printed as print_string prints them, and nothing else, on the whole screen. */
  lemma {:induction false} EchoIsPrint(s: Screen, line: seq<byte>, keys: seq<byte>, m: nat)
    requires OnScreen(s)
    ensures Echo(s, line, keys, m) == Print(s, Heeded(line, keys, m))
    decreases |keys|
  {
    if |keys| > 0 {
      var c, next := keys[0], EditChar(line, keys[0], m);
      EchoIsPrint(EchoChar(s, line, c, m), next, keys[1..], m);
      if next != line {
        PrintConcat(s, [c], Heeded(next, keys[1..], m));
        PrintOne(s, c);
      } else {
        assert [] + Heeded(next, keys[1..], m) == Heeded(next, keys[1..], m);
      }
    }
  }

  /** From cell k0 on, the screen shows the line, and the cursor stands behind it. */
  predicate Shows(s: Screen, k0: nat, line: seq<byte>)
    requires OnScreen(s)
  {
    && k0 + |line| <= 1999 && s.cursor == 2 * (k0 + |line|)
    && forall j :: 0 <= j < |line| ==> CharAt(s, k0 + j) == line[j]
  }

  /** The longest line on the way. */
  function Longest(line: seq<byte>, keys: seq<byte>, m: nat): nat
    decreases |keys|
  {
    if |keys| == 0 then |line| else Max(|line|, Longest(EditChar(line, keys[0], m), keys[1..], m))
  }

  function Max(a: nat, b: nat): nat {
    if a < b then b else a
  }

  /** The line is empty at some point. */
  predicate Emptied(line: seq<byte>, keys: seq<byte>, m: nat)
    decreases |keys|
  {
    |line| == 0 || (|keys| > 0 && Emptied(EditChar(line, keys[0], m), keys[1..], m))
  }

  /** The longest line since the line was last empty. */
  function LongestSinceEmpty(line: seq<byte>, keys: seq<byte>, m: nat): nat
    decreases |keys|
  {
    if |keys| == 0 then |line|
    else
      var next := EditChar(line, keys[0], m);
      var rest := LongestSinceEmpty(next, keys[1..], m);
      if Emptied(next, keys[1..], m) then rest else Max(|line|, rest)
  }

  /** The echo agrees with the buffer exactly as long as the line has never been too long for the
      cells before the last one. Once it has, the cursor stands too far left for good, unless the
      line starts at the very first cell: there, the cursor being stopped at 0, an emptied line
      makes it good again. */
  lemma EchoShowsLine(s: Screen, k0: nat, line: seq<byte>, keys: seq<byte>, m: nat)
    requires OnScreen(s) && Shows(s, k0, line) && NEWLINE !in keys
    ensures var top := if k0 == 0 then LongestSinceEmpty(line, keys, m) else Longest(line, keys, m);
            Shows(Echo(s, line, keys, m), k0, Edit(line, keys, m)) <==> k0 + top <= 1999
  {
    if k0 == 0 {
      EchoAtFirstCell(s, line, keys, m);
    } else {
      EchoElsewhere(s, k0, line, keys, m);
    }
  }

  /** The longest line is one of the lines on the way, and none of them is longer. */
  lemma {:induction false} LongestIs(line: seq<byte>, keys: seq<byte>, m: nat)
    ensures forall j :: 0 <= j <= |keys| ==> |Edit(line, keys[..j], m)| <= Longest(line, keys, m)
    ensures exists j :: 0 <= j <= |keys| && |Edit(line, keys[..j], m)| == Longest(line, keys, m)
    decreases |keys|
  {
    assert Edit(line, keys[..0], m) == line;
    if |keys| > 0 {
      var next, rest := EditChar(line, keys[0], m), keys[1..];
      LongestIs(next, rest, m);
      forall j | 1 <= j <= |keys| ensures Edit(line, keys[..j], m) == Edit(next, rest[..j - 1], m) {
        assert keys[..j][1..] == rest[..j - 1];
      }
      if Longest(next, rest, m) >= |line| {
        var i :| 0 <= i <= |rest| && |Edit(next, rest[..i], m)| == Longest(next, rest, m);
        assert |Edit(line, keys[..i + 1], m)| == Longest(line, keys, m);
      }
    }
  }

  /** What a session writes is what the longest line and the terminator of the last one take. */
  lemma {:induction false} ReachIs(line: seq<byte>, keys: seq<byte>, m: nat)
    ensures Max(|line|, Reach(line, keys, m)) == Max(Longest(line, keys, m), |Edit(line, keys, m)| + 1)
    decreases |keys|
  {
    if |keys| > 0 {
      ReachIs(EditChar(line, keys[0], m), keys[1..], m);
    }
  }

  /** One key while the screen shows the line: it still does, or the line has just become too long. */
  lemma EchoOne(s: Screen, k0: nat, line: seq<byte>, c: byte, m: nat)
    requires OnScreen(s) && Shows(s, k0, line) && c != NEWLINE
    ensures var t, next := EchoChar(s, line, c, m), EditChar(line, c, m);
            if k0 + |next| <= 1999 then Shows(t, k0, next) else TooFarLeft(t, k0, next)
  {
  }

  /** The cursor stands too far left for the line. */
  predicate TooFarLeft(s: Screen, k0: nat, line: seq<byte>) {
    s.cursor < 2 * (k0 + |line|)
  }

  lemma StaysTooFarLeft(s: Screen, k0: nat, line: seq<byte>, c: byte, m: nat)
    requires OnScreen(s) && TooFarLeft(s, k0, line) && c != NEWLINE
    ensures var t, next := EchoChar(s, line, c, m), EditChar(line, c, m);
            TooFarLeft(t, k0, next) || (k0 == 0 && next == [] && Shows(t, 0, []))
  {
  }

  lemma {:induction false} EchoElsewhere(s: Screen, k0: nat, line: seq<byte>, keys: seq<byte>, m: nat)
    requires OnScreen(s) && Shows(s, k0, line) && NEWLINE !in keys && k0 > 0
    ensures Shows(Echo(s, line, keys, m), k0, Edit(line, keys, m)) <==> k0 + Longest(line, keys, m) <= 1999
    decreases |keys|
  {
    if |keys| > 0 {
      assert keys[0] in keys && forall d :: d in keys[1..] ==> d in keys;
      EchoOne(s, k0, line, keys[0], m);
      var t, next := EchoChar(s, line, keys[0], m), EditChar(line, keys[0], m);
      if k0 + |next| <= 1999 {
        EchoElsewhere(t, k0, next, keys[1..], m);
      } else {
        NeverRecovers(t, k0, next, keys[1..], m);
        AtLeastNow(next, keys[1..], m);
      }
    }
  }

  lemma AtLeastNow(line: seq<byte>, keys: seq<byte>, m: nat)
    ensures Longest(line, keys, m) >= |line|
    ensures LongestSinceEmpty(line, keys, m) >= |line| || Emptied(line, keys, m)
  {
  }

  lemma {:induction false} NeverRecovers(s: Screen, k0: nat, line: seq<byte>, keys: seq<byte>, m: nat)
    requires OnScreen(s) && TooFarLeft(s, k0, line) && NEWLINE !in keys && k0 > 0
    ensures !Shows(Echo(s, line, keys, m), k0, Edit(line, keys, m))
    decreases |keys|
  {
    if |keys| > 0 {
      assert keys[0] in keys && forall d :: d in keys[1..] ==> d in keys;
      StaysTooFarLeft(s, k0, line, keys[0], m);
      NeverRecovers(EchoChar(s, line, keys[0], m), k0, EditChar(line, keys[0], m), keys[1..], m);
    }
  }

  lemma {:induction false} EchoAtFirstCell(s: Screen, line: seq<byte>, keys: seq<byte>, m: nat)
    requires OnScreen(s) && Shows(s, 0, line) && NEWLINE !in keys
    ensures Shows(Echo(s, line, keys, m), 0, Edit(line, keys, m)) <==> LongestSinceEmpty(line, keys, m) <= 1999
    decreases |keys|
  {
    if |keys| > 0 {
      assert keys[0] in keys && forall d :: d in keys[1..] ==> d in keys;
      EchoOne(s, 0, line, keys[0], m);
      var t, next := EchoChar(s, line, keys[0], m), EditChar(line, keys[0], m);
      if |next| <= 1999 {
        EchoAtFirstCell(t, next, keys[1..], m);
      } else {
        RecoversWhenEmptied(t, next, keys[1..], m);
        AtLeastNow(next, keys[1..], m);
      }
    }
  }

  lemma {:induction false} RecoversWhenEmptied(s: Screen, line: seq<byte>, keys: seq<byte>, m: nat)
    requires OnScreen(s) && TooFarLeft(s, 0, line) && NEWLINE !in keys
    ensures Shows(Echo(s, line, keys, m), 0, Edit(line, keys, m)) <==>
            Emptied(line, keys, m) && LongestSinceEmpty(line, keys, m) <= 1999
    decreases |keys|
  {
    if |keys| > 0 {
      assert keys[0] in keys && forall d :: d in keys[1..] ==> d in keys;
      StaysTooFarLeft(s, 0, line, keys[0], m);
      var t, next := EchoChar(s, line, keys[0], m), EditChar(line, keys[0], m);
      if TooFarLeft(t, 0, next) {
        RecoversWhenEmptied(t, next, keys[1..], m);
      } else {
        EchoAtFirstCell(t, next, keys[1..], m);
      }
    }
  }

  /** Keys that are typed text and fit the buffer are echoed as print_string prints them. */
  lemma {:induction false} EchoTyped(s: Screen, line: seq<byte>, keys: seq<byte>, m: nat)
    requires OnScreen(s) && 0 !in keys && IsPlain(keys) && |line| + |keys| < m
    ensures Echo(s, line, keys, m) == Print(s, keys) && Edit(line, keys, m) == line + keys
    decreases |keys|
  {
    if |keys| > 0 {
      assert keys[0] in keys && forall d :: d in keys[1..] ==> d in keys;
      EchoTyped(EchoChar(s, line, keys[0], m), EditChar(line, keys[0], m), keys[1..], m);
    }
  }

  /** The full screen, in its last row: the prompt ends at cell 1922, and 78 characters are typed
      into read_line(128). The screen no longer shows the line, and the next backspace, which takes
      the 78th character from the line, erases the 77th from the screen. */
  lemma LastRowEcho(s: Screen, keys: seq<byte>)
    requires OnScreen(s) && s.cursor == 2 * 1922 && |keys| == 78 && 0 !in keys && IsPlain(keys)
    ensures var t := Echo(s, [], keys, 128);
            Edit([], keys, 128) == keys && !Shows(t, 1922, keys)
    ensures var t := Echo(s, [], keys + [BACKSPACE], 128);
            && Edit([], keys + [BACKSPACE], 128) == keys[..77]
            && CharAt(t, 1998) == SPACE && CharAt(t, 1999) == keys[77]
  {
    EchoTyped(s, [], keys, 128);
    PlainTextLands(s, keys);
    assert CharAt(Print(s, keys), 1999) == keys[77];
    EditConcat([], keys, [BACKSPACE], 128);
    EchoConcat(s, [], keys, [BACKSPACE], 128);
    EditOne(keys, BACKSPACE, 128);
    EchoSingle(Print(s, keys), keys, BACKSPACE, 128);
  }

  lemma EchoSingle(s: Screen, line: seq<byte>, c: byte, m: nat)
    requires OnScreen(s)
    ensures Echo(s, line, [c], m) == EchoChar(s, line, c, m)
  {
    assert [c][1..] == [];
    assert Echo(EchoChar(s, line, c, m), EditChar(line, c, m), [], m) == EchoChar(s, line, c, m);
  }

  lemma {:induction false} EchoConcat(s: Screen, line: seq<byte>, a: seq<byte>, b: seq<byte>, m: nat)
    requires OnScreen(s)
    ensures Echo(s, line, a + b, m) == Echo(Echo(s, line, a, m), Edit(line, a, m), b, m)
    decreases |a|
  {
    if |a| == 0 {
      assert a + b == b;
    } else {
      assert (a + b)[1..] == a[1..] + b;
      EchoConcat(EchoChar(s, line, a[0], m), EditChar(line, a[0], m), a[1..], b, m);
    }
  }

  // ---- The code ----

  /** The C string `text` is at address p. */
  predicate StringAt(m: seq<byte>, p: int, text: seq<byte>) {
    0 <= p && p + |text| < |m| && m[p..p + |text|] == text && m[p + |text|] == 0
  }

  /** read_line over the characters that successive keyboard_read calls return (0 when there is none).
      It returns NULL exactly when kmalloc does; otherwise a new heap buffer with the edited line,
      terminated. m1 is the memory as kmalloc leaves it: the session writes no more than Reach bytes of
      the buffer, and if these fit its payload, as they do for every length up to 2^32 - 8, the heap
      and all other payloads are untouched. */
  method ReadLine(heap: Heap, console: TextConsole, maxLength: word, keys: seq<byte>)
    returns (buffer: word, ghost m1: seq<byte>)
    requires heap.Valid() && console.Valid() && heap.mem != console.video && NEWLINE in keys
    requires maxLength > WORD - 8 ==>
               Malloc(heap.blocks, maxLength).1 + Reach([], UntilNewline(keys), maxLength) <= heap.mem.Length
    modifies heap`blocks, heap`usedSize, heap.mem, console`cursorPos, console.video
    ensures console.Valid() && (heap.blocks, buffer as int) == Malloc(old(heap.blocks), maxLength)
    ensures buffer == 0 ==>
              heap.Valid() && heap.mem[..] == old(heap.mem[..]) && console.Shown() == old(console.Shown())
    ensures buffer != 0 ==>
              && StringAt(heap.mem[..], buffer, Edit([], UntilNewline(keys), maxLength))
              && |Edit([], UntilNewline(keys), maxLength)| < maxLength
              && console.Shown() == NewLine(Echo(old(console.Shown()), [], UntilNewline(keys), maxLength))
    ensures buffer != 0 ==>
              var n := Reach([], UntilNewline(keys), maxLength);
              && WellFormed(m1, heap.startAddr, heap.endAddr, heap.blocks) && Live(heap.blocks, buffer)
              && SameOutside(m1, heap.mem[..], buffer, buffer + n)
              && (maxLength <= WORD - 8 ==> n <= LiveBlock(heap.blocks, buffer).size)
              && (n <= LiveBlock(heap.blocks, buffer).size ==>
                    && heap.Valid() && Keeps(old(heap.mem[..]), heap.mem[..], UsedBlocks(old(heap.blocks)))
                    && SameOutside(old(heap.mem[..]), heap.mem[..], heap.startAddr, heap.endAddr))
  {
    hide Malloc, WellFormed, Keeps, UsedSum, Coalesced, UsedBlocks, Echo, Reach, Edit, LiveIndex;
    HeapKeepsInv(heap);
    buffer := heap.Kmalloc(maxLength);
    m1 := heap.mem[..];
    if buffer == 0 {
      return;
    }
    ghost var n := Reach([], UntilNewline(keys), maxLength);
    ReachBound([], UntilNewline(keys), maxLength) by {
      MallocOfZero(old(heap.blocks));
    }
    NewPayload(m1, heap.startAddr, heap.endAddr, old(heap.blocks), heap.blocks, maxLength, buffer);
    EditInto(heap.mem, console, buffer, maxLength, keys);
    if n <= LiveBlock(heap.blocks, buffer).size {
      ShorterWrite(m1, heap.mem[..], buffer, n, LiveBlock(heap.blocks, buffer).size);
      PayloadWritten(m1, heap.mem[..], heap.startAddr, heap.endAddr, heap.blocks, buffer);
      KeepsTrans(old(heap.mem[..]), m1, heap.mem[..], UsedBlocks(old(heap.blocks)),
                 UsedBlocks(heap.blocks) - {LiveBlock(heap.blocks, buffer)});
    }
  }

  lemma MallocOfZero(bs: seq<Block>)
    ensures Malloc(bs, 0).1 == 0
  {
  }

  /** What read_line knows of the buffer kmalloc gave it. */
  lemma NewPayload(m1: seq<byte>, start: int, end: int, bs: seq<Block>, bs1: seq<Block>, n: word, p: int)
    requires HeapInv(bs, start, end) && WellFormed(m1, start, end, bs1) && Malloc(bs, n) == (bs1, p) && p != 0
    ensures Live(bs1, p) && start <= p && 0 <= LiveBlock(bs1, p).size && p + LiveBlock(bs1, p).size <= end <= |m1|
    ensures n <= WORD - 8 ==> n <= LiveBlock(bs1, p).size
    ensures UsedBlocks(bs) <= UsedBlocks(bs1) - {LiveBlock(bs1, p)}
  {
    MallocAddsOne(bs, start, end, n);
    PayloadLongEnough(bs, start, end, n);
    LiveHeader(m1, start, end, bs1, p);
  }

  /** No session writes outside the payload of its buffer if and only if the length does not wrap. */
  lemma StaysInsideExact(bs: seq<Block>, start: int, end: int, m: word)
    requires HeapInv(bs, start, end) && Malloc(bs, m).1 != 0
    ensures var (bs1, p) := Malloc(bs, m);
            Live(bs1, p) && ((forall keys :: Reach([], keys, m) <= LiveBlock(bs1, p).size) <==> m <= WORD - 8)
  {
    hide Malloc, Reach, LiveIndex;
    var (bs1, p) := Malloc(bs, m);
    MallocOfZero(bs);
    MallocAddsOne(bs, start, end, m);
    PayloadLongEnough(bs, start, end, m);
    var size := LiveBlock(bs1, p).size;
    if m <= WORD - 8 {
      forall keys ensures Reach([], keys, m) <= size {
        ReachBound([], keys, m);
      }
    } else {
      var keys: seq<byte> := seq(size, _ => SPACE);
      TypedVerbatim([], keys, m);
      ReachBound([], keys, m);
      assert |Edit([], keys, m)| == size;
    }
  }

  /** What a backspace does to the screen in read_line. */
  method EraseLast(console: TextConsole)
    requires console.Valid()
    modifies console`cursorPos, console.video
    ensures console.Valid() && console.Shown() == Erase(old(console.Shown()))
  {
    if console.cursorPos >= 2 {
      console.cursorPos := console.cursorPos - 2;
      console.video[console.cursorPos] := SPACE;
      console.video[console.cursorPos + 1] := PLAIN;
    } else {
      console.cursorPos := 0;
    }
  }

  /** `char str[2] = {c, 0}; print_string(str)` */
  method PrintCharacter(console: TextConsole, c: byte)
    requires console.Valid() && c != 0
    modifies console`cursorPos, console.video
    ensures console.Valid() && console.Shown() == PrintChar(old(console.Shown()), c)
  {
    TextIs([c, 0], [c]);
    PrintOne(console.Shown(), c);
    console.PrintString([c, 0]);
  }

  /** One turn of the loop, for a key that is not a newline. */
  method EditKey(mem: array<byte>, console: TextConsole, buffer: word, maxLength: word, pos: nat, input: byte,
                 ghost line: seq<byte>, ghost room: nat) returns (pos': nat)
    requires console.Valid() && mem != console.video && 1 <= maxLength && input != NEWLINE
    requires |line| <= room && |EditChar(line, input, maxLength)| <= room && buffer + room <= mem.Length
    requires pos == |line| <= maxLength - 1 && mem[buffer..buffer + pos] == line
    modifies mem, console`cursorPos, console.video
    ensures console.Valid() && console.Shown() == EchoChar(old(console.Shown()), line, input, maxLength)
    ensures pos' == |EditChar(line, input, maxLength)| <= maxLength - 1
    ensures mem[buffer..buffer + pos'] == EditChar(line, input, maxLength)
    ensures SameOutside(old(mem[..]), mem[..], buffer, buffer + room)
  {
    pos' := pos;
    if input != 0 {
      if input == BACKSPACE {
        if pos > 0 {
          pos' := pos - 1;
          EraseLast(console);
        }
      } else if pos < maxLength - 1 {
        mem[buffer + pos] := input;
        pos' := pos + 1;
        PrintCharacter(console, input);
      }
    }
  }

  lemma OneKeyMore(s: Screen, line: seq<byte>, text: seq<byte>, k: nat, m: nat)
    requires OnScreen(s) && k < |text|
    ensures var next := EditChar(line, text[k], m);
            && Edit(line, text[k..], m) == Edit(next, text[k + 1..], m)
            && Echo(s, line, text[k..], m) == Echo(EchoChar(s, line, text[k], m), next, text[k + 1..], m)
            && |next| <= Reach(line, text[k..], m) && Reach(next, text[k + 1..], m) <= Reach(line, text[k..], m)
  {
    assert text[k..][1..] == text[k + 1..];
  }

  lemma NoKeyMore(s: Screen, line: seq<byte>, text: seq<byte>, m: nat)
    requires OnScreen(s) && text == []
    ensures Edit(line, text, m) == line && Echo(s, line, text, m) == s && Reach(line, text, m) == |line| + 1
  {
  }

  /** The editing loop of read_line, in the bytes of the buffer that the session reaches. */
  method EditInto(mem: array<byte>, console: TextConsole, buffer: word, maxLength: word, keys: seq<byte>)
    requires console.Valid() && mem != console.video && 1 <= maxLength && NEWLINE in keys
    requires buffer + Reach([], UntilNewline(keys), maxLength) <= mem.Length
    modifies mem, console`cursorPos, console.video
    ensures console.Valid()
    ensures StringAt(mem[..], buffer, Edit([], UntilNewline(keys), maxLength))
    ensures |Edit([], UntilNewline(keys), maxLength)| < maxLength
    ensures console.Shown() == NewLine(Echo(old(console.Shown()), [], UntilNewline(keys), maxLength))
    ensures SameOutside(old(mem[..]), mem[..], buffer, buffer + Reach([], UntilNewline(keys), maxLength))
  {
    hide OnScreen, EditChar, EchoChar, Edit, Echo, Reach, Text, StringAt, NewLine;
    ghost var text, line := UntilNewline(keys), [];
    ghost var room := Reach([], text, maxLength);
    var pos := 0;
    var k := 0;
    while keys[k] != NEWLINE
      invariant 0 <= k <= |text| && pos == |line| <= maxLength - 1 && |line| <= room && console.Valid()
      invariant Edit([], text, maxLength) == Edit(line, text[k..], maxLength)
      invariant Echo(old(console.Shown()), [], text, maxLength) == Echo(console.Shown(), line, text[k..], maxLength)
      invariant Reach(line, text[k..], maxLength) <= room
      invariant mem[buffer..buffer + pos] == line
      invariant SameOutside(old(mem[..]), mem[..], buffer, buffer + room)
      decreases |keys| - k
    {
      OneKeyMore(console.Shown(), line, text, k, maxLength);
      pos := EditKey(mem, console, buffer, maxLength, pos, keys[k], line, room);
      line := EditChar(line, keys[k], maxLength);
      k := k + 1;
    }
    NoKeyMore(console.Shown(), line, text[k..], maxLength);
    FinishLine(mem, console, buffer, maxLength, pos, line, room);
  }

  /** The turn of the loop for a newline: the terminator, and the newline on the screen. */
  method FinishLine(mem: array<byte>, console: TextConsole, buffer: word, maxLength: word, pos: nat,
                    ghost line: seq<byte>, ghost room: nat)
    requires console.Valid() && mem != console.video && pos == |line| <= maxLength - 1
    requires |line| < room && buffer + room <= mem.Length && mem[buffer..buffer + pos] == line
    modifies mem, console`cursorPos, console.video
    ensures console.Valid() && console.Shown() == NewLine(old(console.Shown()))
    ensures StringAt(mem[..], buffer, line)
    ensures SameOutside(old(mem[..]), mem[..], buffer, buffer + room)
  {
    if pos < maxLength - 1 {
      mem[buffer + pos] := 0;
    } else {
      mem[buffer + maxLength - 1] := 0;
    }
    PrintCharacter(console, NEWLINE);
  }

  /** With a wrapped length the session can run out of its buffer: one kilobyte of heap,
      read_line(2^32 - 1), one character and a newline. The buffer has no byte, the line overwrites
      the size of the next block, and the memory holds no block list any more. */
  method WrappedLineLosesList(console: TextConsole) returns (h: Heap)
    requires console.Valid()
    modifies console`cursorPos, console.video
    ensures fresh(h) && forall cs :: !WellFormed(h.mem[..], h.startAddr, h.endAddr, cs)
  {
    hide AlignUp, AlignDown, Malloc;
    AlignTo8(1024);
    var memory := new byte[4096];
    h := new Heap(memory);
    h.HeapInit(1024, 1024);
    ConcreteWrappedCut();
    ShortLine();
    var p, m1 := ReadLine(h, console, 0xFFFF_FFFF, [97, NEWLINE]);
    SizeOverwritten(m1, h.mem[..]);
  }

  lemma ShortLine()
    ensures UntilNewline([97, NEWLINE]) == [97] && Edit([], [97], 0xFFFF_FFFF) == [97]
    ensures Reach([], [97], 0xFFFF_FFFF) == 2
  {
    assert [97, NEWLINE][1..] == [NEWLINE];
    EditOne([], 97, 0xFFFF_FFFF);
  }

  lemma SizeOverwritten(m: seq<byte>, m': seq<byte>)
    requires WellFormed(m, 1024, 2048, [Block(1024, 0, true), Block(1040, 992, false)])
    requires SameOutside(m, m', 1040, 1042) && StringAt(m', 1040, [97])
    ensures forall cs :: !WellFormed(m', 1024, 2048, cs)
  {
    var bs := [Block(1024, 0, true), Block(1040, 992, false)];
    HeaderFacts(m, 1024, 2048, bs, 0);
    HeaderFacts(m, 1024, 2048, bs, 1);
    assert m'[1040..1041][0] == 97 && m'[1041] == 0;
    assert Holds(m', 1024, 0) && Holds(m', 1040, 97);
    forall cs | WellFormed(m', 1024, 2048, cs) ensures false {
      HeaderFacts(m', 1024, 2048, cs, 0);
      assert Fits(cs, 0, 2048);
      assert Fits(cs, 1, 2048);
      HeaderFacts(m', 1024, 2048, cs, 1);
    }
  }
}
