/** read_line under interrupts: what the line becomes when the characters come from keyboard_read
    while the interrupt handler fills the queue. */
module LineRace {
  import opened Words
  import opened Memory
  import BlockList
  import HeapLaws
  import Headers
  import opened KernelHeap
  import opened Console
  import opened Keyboard
  import opened KeyboardRace
  import opened LineEditor

  /** A character as the byte it is. */
  function ByteOf(c: char): (b: byte)
    ensures b == 0 <==> c == '\0'
  {
    if c as int < 256 then c as int else 255
  }

  function Bytes(cs: seq<char>): seq<byte> {
    if |cs| == 0 then [] else [ByteOf(cs[0])] + Bytes(cs[1..])
  }

  lemma {:induction false} BytesConcat(a: seq<char>, b: seq<char>)
    ensures Bytes(a + b) == Bytes(a) + Bytes(b)
  {
    if |a| == 0 {
      assert a + b == b;
    } else {
      assert (a + b)[1..] == a[1..] + b;
      BytesConcat(a[1..], b);
    }
  }

  /** On plain ASCII, which is all the driver ever accepts, the bytes are the characters' codes. */
  lemma {:induction false} BytesAre(cs: seq<char>)
    requires Ascii(cs)
    ensures |Bytes(cs)| == |cs| && forall j :: 0 <= j < |cs| ==> Bytes(cs)[j] == cs[j] as int
  {
    if |cs| > 0 {
      assert cs[0] in cs && forall c :: c in cs[1..] ==> c in cs;
      BytesAre(cs[1..]);
      assert forall j :: 0 < j < |cs| ==> cs[j] == cs[1..][j - 1] && Bytes(cs)[j] == Bytes(cs[1..])[j - 1];
    }
  }

  /** The line as characters: Backspace takes the last one back, and m - 1 are the most. */
  function EditText(line: seq<char>, keys: seq<char>, m: nat): seq<char>
    decreases |keys|
  {
    if |keys| == 0 then line
    else if keys[0] == '\U{0008}' then EditText(if line == [] then [] else line[..|line| - 1], keys[1..], m)
    else EditText(if |line| < m - 1 then line + [keys[0]] else line, keys[1..], m)
  }

  lemma {:induction false} EditOfBytes(line: seq<char>, keys: seq<char>, m: nat)
    requires Ascii(line) && Ascii(keys)
    ensures Ascii(EditText(line, keys, m))
    ensures Edit(Bytes(line), Bytes(keys), m) == Bytes(EditText(line, keys, m))
    decreases |keys|
  {
    hide Ascii, Bytes;
    if |keys| == 0 {
      BytesAre([]) by {
        NoneIsAscii();
      }
    }
    if |keys| > 0 {
      var next := if keys[0] == '\U{0008}' then (if line == [] then [] else line[..|line| - 1])
                  else if |line| < m - 1 then line + [keys[0]] else line;
      AsciiParts(line, keys);
      OneKey(line, keys[0], m);
      BytesCons(keys);
      EditOfBytes(next, keys[1..], m);
    }
  }

  lemma NoneIsAscii()
    ensures Ascii([]) && Bytes([]) == []
  {
  }

  lemma BytesCons(cs: seq<char>)
    requires |cs| > 0
    ensures Bytes(cs) == [ByteOf(cs[0])] + Bytes(cs[1..]) && Bytes(cs)[1..] == Bytes(cs[1..])
  {
  }

  lemma AsciiParts(line: seq<char>, keys: seq<char>)
    requires Ascii(line) && Ascii(keys) && |keys| > 0
    ensures Ascii(keys[1..]) && Ascii(line + [keys[0]]) && '\0' < keys[0] < '\U{0080}'
    ensures Ascii([]) && (|line| > 0 ==> Ascii(line[..|line| - 1]))
  {
    assert keys[0] in keys && forall c :: c in keys[1..] ==> c in keys;
    AsciiAppend(line, keys, [keys[0]]);
    if |line| > 0 {
      PrefixAscii(line, |line| - 1);
    }
  }

  /** One key of the editor, on characters and on bytes. */
  lemma OneKey(line: seq<char>, c: char, m: nat)
    requires Ascii(line) && '\0' < c < '\U{0080}'
    ensures EditChar(Bytes(line), ByteOf(c), m) ==
            Bytes(if c == '\U{0008}' then (if line == [] then [] else line[..|line| - 1])
                  else if |line| < m - 1 then line + [c] else line)
  {
    BytesAre(line);
    BytesConcat(line, [c]);
    assert Bytes([c]) == [ByteOf(c)] by {
      assert [c][1..] == [];
    }
    if |line| > 0 {
      var init, last := line[..|line| - 1], line[|line| - 1];
      assert line == init + [last] && [last][1..] == [];
      BytesConcat(init, [last]);
      assert Bytes([last]) == [ByteOf(last)];
    }
  }

  /** What keyboard_read answers in this step, if it returns: the key, or 0 for an empty queue. */
  function Answer(s: State, e: Event): seq<byte> {
    if e.Step? && s.reader.Idle? && s.pos == 0 then [0]
    else if e.Step? && s.reader.DecStore? then [ByteOf(s.reader.key)]
    else []
  }

  /** All its answers on a schedule: what read_line, calling it again and again, gets to see. */
  function Answers(s: State, events: seq<Event>): seq<byte>
    requires Bounds(s)
    decreases |events|
  {
    if |events| == 0 then []
    else
      StepBounds(s, events[0]);
      Answer(s, events[0]) + Answers(Next(s, events[0]), events[1..])
  }

  /** What the handler puts in the queue on a schedule. */
  function Incoming(s: State, events: seq<Event>): seq<char>
    requires Bounds(s)
    decreases |events|
  {
    if |events| == 0 then []
    else
      StepBounds(s, events[0]);
      (match events[0] case Step => [] case Key(code) => Taken(s.pos, Typed(s.flags, code)))
      + Incoming(Next(s, events[0]), events[1..])
  }

  lemma {:induction false} AcceptedIsIncoming(s: State, events: seq<Event>)
    requires Bounds(s)
    ensures RunEvents(s, events).accepted == s.accepted + Incoming(s, events)
    decreases |events|
  {
    hide Bounds, Typed, Taken;
    if |events| > 0 {
      StepBounds(s, events[0]);
      AcceptedIsIncoming(Next(s, events[0]), events[1..]);
    }
  }

  /** The characters a reader called now will find: those queued, then those that come in. */
  function Stream(s: State, events: seq<Event>): seq<char>
    requires Bounds(s)
  {
    Queue(s) + Incoming(s, events)
  }

  /** Whatever comes in, on whatever schedule, is plain ASCII. */
  lemma {:induction false} IncomingAscii(s: State, events: seq<Event>)
    requires Bounds(s)
    ensures Ascii(Incoming(s, events))
    decreases |events|
  {
    hide Bounds, Typed, Taken, Ascii, KeyTypes;
    if |events| == 0 {
      NoneIsAscii();
    } else {
      StepBounds(s, events[0]);
      var u, rest := Next(s, events[0]), events[1..];
      IncomingAscii(u, rest);
      if events[0].Key? {
        TypedAsPrinted(s.flags, events[0].code);
        TakenIsPrefix(s.pos, Typed(s.flags, events[0].code));
        NoneIsAscii();
        AsciiAppend([], Typed(s.flags, events[0].code), Taken(s.pos, Typed(s.flags, events[0].code)));
        assert [] + Taken(s.pos, Typed(s.flags, events[0].code)) == Taken(s.pos, Typed(s.flags, events[0].code));
        AsciiAppend(Taken(s.pos, Typed(s.flags, events[0].code)), Incoming(u, rest), Incoming(u, rest));
      } else {
        assert [] + Incoming(u, rest) == Incoming(u, rest);
      }
    }
  }

  lemma TakenIsPrefix(n: nat, cs: seq<char>)
    ensures Taken(n, cs) <= cs
  {
  }

  lemma StreamAscii(s: State, events: seq<Event>)
    requires Inv(s) && s.reader.Idle?
    ensures Ascii(Stream(s, events))
  {
    hide Incoming;
    IncomingAscii(s, events);
    assert s.accepted == s.returned + Queue(s);
    assert forall c :: c in Queue(s) ==> c in s.accepted;
    AsciiAppend(Queue(s), Incoming(s, events), Incoming(s, events));
  }

  /** The answers that are keys. */
  function NonZero(keys: seq<byte>): (t: seq<byte>)
    ensures 0 !in t
  {
    if |keys| == 0 then [] else if keys[0] == 0 then NonZero(keys[1..]) else [keys[0]] + NonZero(keys[1..])
  }

  lemma {:induction false} NonZeroConcat(a: seq<byte>, b: seq<byte>)
    ensures NonZero(a + b) == NonZero(a) + NonZero(b)
  {
    if |a| == 0 {
      assert a + b == b;
    } else {
      assert (a + b)[1..] == a[1..] + b;
      NonZeroConcat(a[1..], b);
    }
  }

  /** Answers 0 change neither the line nor the screen. */
  lemma {:induction false} ZerosIgnored(s: Screen, line: seq<byte>, keys: seq<byte>, m: nat)
    requires OnScreen(s)
    ensures Edit(line, keys, m) == Edit(line, NonZero(keys), m)
    ensures Echo(s, line, keys, m) == Echo(s, line, NonZero(keys), m)
    decreases |keys|
  {
    if |keys| > 0 {
      ZerosIgnored(EchoChar(s, line, keys[0], m), EditChar(line, keys[0], m), keys[1..], m);
      if keys[0] != 0 {
        assert NonZero(keys)[1..] == NonZero(keys[1..]);
      }
    }
  }

  /** Up to the first newline it does not matter whether the zeros are dropped before or after. */
  lemma {:induction false} NewlineKept(keys: seq<byte>)
    requires NEWLINE in keys
    ensures NEWLINE in NonZero(keys) && UntilNewline(NonZero(keys)) == NonZero(UntilNewline(keys))
    decreases |keys|
  {
    if keys[0] != NEWLINE {
      NewlineKept(keys[1..]);
      if keys[0] != 0 {
        assert NonZero(keys)[1..] == NonZero(keys[1..]);
      }
    }
  }

  lemma {:induction false} NewlineInPrefix(a: seq<byte>, b: seq<byte>)
    requires NEWLINE in a
    ensures NEWLINE in a + b && UntilNewline(a + b) == UntilNewline(a)
    decreases |a|
  {
    if a[0] != NEWLINE {
      assert (a + b)[1..] == a[1..] + b;
      NewlineInPrefix(a[1..], b);
    }
  }

  /** The keys among the answers are the characters returned, in order, and the queue's invariant
      holds at the end, if no store of the position in the schedule is harmful. */
  lemma {:induction false} AnswersAreReturned(s: State, events: seq<Event>)
    requires Inv(s) && NoHarm(s, events)
    ensures var t := RunEvents(s, events);
            && Inv(t) && s.returned <= t.returned
            && NonZero(Answers(s, events)) == Bytes(t.returned[|s.returned|..])
    decreases |events|
  {
    hide Inv, Next, Harmless, Answer, NonZero, Bytes;
    if |events| == 0 {
      NoAnswers();
      assert s.returned[|s.returned|..] == [];
    } else {
      OneEvent(s, events[0]);
      var u, rest := Next(s, events[0]), events[1..];
      AnswersAreReturned(u, rest);
      var t := RunEvents(u, rest);
      NonZeroConcat(Answer(s, events[0]), Answers(u, rest));
      var a, b := u.returned[|s.returned|..], t.returned[|u.returned|..];
      BytesConcat(a, b);
      assert t.returned[|s.returned|..] == a + b;
    }
  }

  lemma NoAnswers()
    ensures NonZero([]) == Bytes([]) == []
  {
  }

  lemma OneEvent(s: State, e: Event)
    requires Inv(s) && (s.reader.DecStore? && e.Step? ==> Harmless(s))
    ensures Bounds(s) && Bounds(Next(s, e))
    ensures var u := Next(s, e);
            && Inv(u) && s.returned <= u.returned
            && NonZero(Answer(s, e)) == Bytes(u.returned[|s.returned|..])
  {
    hide Pending, Harmless, Fifo, Typed, Taken;
    StepBounds(s, e);
    KeyIsNotZero(s);
    if e.Key? {
      HandlerKeeps(s, e.code);
    } else if s.reader.DecStore? {
      DecStoreExact(s);
      assert (s.returned + [s.reader.key])[|s.returned|..] == [s.reader.key];
      assert [s.reader.key][1..] == [] && [ByteOf(s.reader.key)][1..] == [];
    } else {
      ReaderKeeps(s);
    }
  }

  /** The key about to be returned was accepted, so it is not 0. */
  lemma KeyIsNotZero(s: State)
    requires Inv(s)
    ensures s.reader.DecStore? ==> s.reader.key != '\0'
  {
    if s.reader.DecStore? {
      assert Pending(s)[0] == s.reader.key;
      assert s.accepted[|s.returned|] == s.reader.key;
      assert s.reader.key in s.accepted;
    }
  }

  /** The keys before the first Enter. */
  ghost predicate FirstEnter(keys: seq<char>, n: nat) {
    n < |keys| && keys[n] == '\n' && '\n' !in keys[..n]
  }

  /** The bytes cs are the codes of the characters text. */
  predicate Codes(cs: seq<byte>, text: seq<char>) {
    |cs| == |text| && forall j :: 0 <= j < |text| ==> cs[j] == text[j] as int
  }

  lemma {:induction false} EnterIsNewline(keys: seq<char>) returns (n: nat)
    requires Ascii(keys) && NEWLINE in Bytes(keys)
    ensures FirstEnter(keys, n) && UntilNewline(Bytes(keys)) == Bytes(keys[..n])
    decreases |keys|
  {
    hide Bytes, Ascii;
    NoneIsAscii();
    if keys == [] {
      assert false;
    }
    BytesCons(keys);
    AsciiParts([], keys);
    if keys[0] == '\n' {
      n := 0;
      assert keys[..0] == [];
    } else {
      var tl := keys[1..];
      var k := EnterIsNewline(tl);
      n := k + 1;
      assert keys[..n] == [keys[0]] + tl[..k] && keys[..n][1..] == tl[..k];
      BytesCons(keys[..n]);
    }
  }

  /** On every schedule without a harmful store, in particular on every one with a quiet window: the
      line, and its echo, are those of the characters queued when read_line was called and accepted by
      the handler since, up to the first Enter. */
  lemma LineOfAccepted(s: State, events: seq<Event>, m: nat, screen: Screen) returns (n: nat)
    requires Inv(s) && s.reader.Idle? && NoHarm(s, events) && NEWLINE in Answers(s, events) && OnScreen(screen)
    ensures FirstEnter(Stream(s, events), n) && RunEvents(s, events).accepted == s.returned + Stream(s, events)
    ensures var seen, keys := UntilNewline(Answers(s, events)), Stream(s, events)[..n];
            && Codes(Edit([], seen, m), EditText([], keys, m))
            && Codes(Bytes(keys), keys) && Echo(screen, [], seen, m) == Echo(screen, [], Bytes(keys), m)
  {
    assert Bounds(s);
    hide Edit, Echo, Answers, NonZero, UntilNewline, Stream, Bytes, Ascii, EditText, NoHarm, Inv, Bounds, RunEvents;
    StreamIsAccepted(s, events);
    var answers := Answers(s, events);
    AnswersBeginStream(s, events);
    NewlineKept(answers);
    NewlineInPrefix(NonZero(answers), Bytes(Stream(s, events))[|NonZero(answers)|..]);
    ZerosIgnored(screen, [], UntilNewline(answers), m);
    StreamAscii(s, events);
    n := EnterIsNewline(Stream(s, events));
    PrefixAscii(Stream(s, events), n);
    BytesAre(Stream(s, events)[..n]);
    NoneIsAscii();
    EditOfBytes([], Stream(s, events)[..n], m);
    BytesAre(EditText([], Stream(s, events)[..n], m));
  }

  /** The stream is what was accepted and not yet returned when the reader was called, and since. */
  lemma StreamIsAccepted(s: State, events: seq<Event>)
    requires Inv(s) && s.reader.Idle?
    ensures RunEvents(s, events).accepted == s.returned + Stream(s, events)
  {
    hide RunEvents, Incoming;
    AcceptedIsIncoming(s, events);
    assert s.accepted == s.returned + Queue(s);
    AppendAssociates(s.returned, Queue(s), Incoming(s, events));
  }

  lemma PrefixAscii(cs: seq<char>, n: nat)
    requires Ascii(cs) && n <= |cs|
    ensures Ascii(cs[..n])
  {
    assert forall c :: c in cs[..n] ==> c in cs;
  }

  lemma AppendAssociates(a: seq<char>, b: seq<char>, c: seq<char>)
    ensures (a + b) + c == a + (b + c)
  {
  }

  /** The keys among the answers are a beginning of the stream. */
  lemma AnswersBeginStream(s: State, events: seq<Event>)
    requires Inv(s) && s.reader.Idle? && NoHarm(s, events)
    ensures NonZero(Answers(s, events)) <= Bytes(Stream(s, events))
    ensures Bytes(Stream(s, events)) ==
            NonZero(Answers(s, events)) + Bytes(Stream(s, events))[|NonZero(Answers(s, events))|..]
  {
    hide Answers, NonZero, RunEvents, Incoming, NoHarm;
    AnswersAreReturned(s, events);
    AcceptedIsIncoming(s, events);
    var t := RunEvents(s, events);
    var got := t.returned[|s.returned|..];
    assert s.accepted == s.returned + Queue(s) && t.returned == s.returned + got;
    assert s.returned + (Queue(s) + Incoming(s, events)) == t.accepted == s.returned + (got + Pending(t)) by {
      AppendAssociates(s.returned, Queue(s), Incoming(s, events));
      AppendAssociates(s.returned, got, Pending(t));
    }
    SamePrefix(s.returned, Queue(s) + Incoming(s, events), got + Pending(t));
    BytesConcat(got, Pending(t));
  }

  /** With a quiet window no store is harmful. */
  lemma QuietLine(s: State, events: seq<Event>, m: nat, screen: Screen) returns (n: nat)
    requires Inv(s) && s.reader.Idle? && WindowQuiet(s, events) && NEWLINE in Answers(s, events) && OnScreen(screen)
    ensures FirstEnter(Stream(s, events), n) && RunEvents(s, events).accepted == s.returned + Stream(s, events)
    ensures var seen, keys := UntilNewline(Answers(s, events)), Stream(s, events)[..n];
            && Codes(Edit([], seen, m), EditText([], keys, m))
            && Codes(Bytes(keys), keys) && Echo(screen, [], seen, m) == Echo(screen, [], Bytes(keys), m)
  {
    QuietWindowIsSafe(s, events);
    n := LineOfAccepted(s, events, m, screen);
  }

  /** The characters of the line are in memory at p, code by code, and a 0 behind them. */
  predicate TextAt(m: seq<byte>, p: int, line: seq<char>) {
    && 0 <= p && p + |line| < |m| && m[p + |line|] == 0
    && forall j :: 0 <= j < |line| ==> m[p + j] == line[j] as int
  }

  /** read_line itself on such a schedule: byte by byte, the string it returns is the edited text of
      the characters in the stream before the first Enter, and the screen shows their echo. */
  method ReadLineUnderInterrupts(heap: Heap, console: TextConsole, maxLength: word, s: State, events: seq<Event>)
    returns (buffer: word, ghost n: nat, ghost codes: seq<byte>)
    requires heap.Valid() && console.Valid() && heap.mem != console.video
    requires Inv(s) && s.reader.Idle? && NoHarm(s, events) && NEWLINE in Answers(s, events)
    requires maxLength > WORD - 8 ==>
               BlockList.Malloc(heap.blocks, maxLength).1 + Reach([], UntilNewline(Answers(s, events)), maxLength)
               <= heap.mem.Length
    modifies heap`blocks, heap`usedSize, heap.mem, console`cursorPos, console.video
    ensures console.Valid() && (heap.blocks, buffer as int) == BlockList.Malloc(old(heap.blocks), maxLength)
    ensures FirstEnter(Stream(s, events), n) && Codes(codes, Stream(s, events)[..n])
    ensures RunEvents(s, events).accepted == s.returned + Stream(s, events)
    ensures buffer != 0 ==>
              var line := EditText([], Stream(s, events)[..n], maxLength);
              TextAt(heap.mem[..], buffer, line) && |line| < maxLength
    ensures buffer != 0 ==> console.Shown() == NewLine(Echo(old(console.Shown()), [], codes, maxLength))
  {
    assert Bounds(s);
    n := LineOfAccepted(s, events, maxLength, console.Shown());
    hide Bounds, Inv, NoHarm, Answers, Stream, Edit, Echo, UntilNewline, BlockList.Malloc, Reach, EditText, Bytes;
    hide StringAt, TextAt, Codes, RunEvents, Headers.WellFormed, Headers.Keeps, BlockList.Coalesced, HeapLaws.UsedSum;
    codes := Bytes(Stream(s, events)[..n]);
    ghost var m1;
    buffer, m1 := ReadLine(heap, console, maxLength, Answers(s, events));
    if buffer != 0 {
      TextInMemory(heap.mem[..], buffer, Edit([], UntilNewline(Answers(s, events)), maxLength),
                   EditText([], Stream(s, events)[..n], maxLength));
    }
  }

  lemma TextInMemory(m: seq<byte>, p: int, cs: seq<byte>, line: seq<char>)
    requires StringAt(m, p, cs) && Codes(cs, line)
    ensures TextAt(m, p, line) && |line| == |cs|
  {
    forall j | 0 <= j < |line| ensures m[p + j] == line[j] as int {
      assert m[p..p + |cs|][j] == cs[j];
    }
  }
}
