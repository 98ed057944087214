/** keyboard_read interrupted: the handler runs atomically (an interrupt gate), but it may run between
    any two memory accesses of keyboard_read. One step of the reader is one test, one load or one
    store of the compiled loop; the decrement is a load and a store. */
module KeyboardRace {
  import opened Words
  import opened Keyboard

  /** Where keyboard_read is. `n` remembers buffer_position at the failing loop test; the code itself
      does not keep it. */
  datatype Reader =
    | Idle                                       // outside keyboard_read
    | Fetch                                      // buffer_position > 0 seen; next: key = buffer[0]
    | Test(key: char, i: nat)                    // next: i < buffer_position
    | Load(key: char, i: nat)                    // next: load buffer[i]
    | Store(key: char, i: nat, value: char)      // next: store it to buffer[i - 1]
    | DecLoad(key: char, n: nat)                 // next: load buffer_position
    | DecStore(key: char, n: nat, loaded: nat)   // next: store loaded - 1 and return key

  /** The driver's statics and the reader's place, with two histories: the characters the handler has
      put in the queue, and those keyboard_read has returned. */
  datatype State = State(buffer: seq<char>, pos: nat, flags: Modifiers, reader: Reader,
                         accepted: seq<char>, returned: seq<char>)

  /** What can happen next: a step of the reader, or a keyboard interrupt with a scan code. */
  datatype Event = Step | Key(code: byte)

  function Queue(s: State): seq<char>
    requires s.pos <= |s.buffer|
  {
    s.buffer[..s.pos]
  }

  /** Nothing lost, nothing twice, nothing out of order. */
  predicate Fifo(s: State) {
    s.pos <= |s.buffer| && s.accepted == s.returned + Queue(s)
  }

  /** keyboard_handler_main */
  function HandlerStep(s: State, code: byte): State
    requires |s.buffer| == BUFFER_SIZE && s.pos <= BUFFER_SIZE - 1
  {
    var t := Taken(s.pos, Typed(s.flags, code));
    s.(buffer := s.buffer[..s.pos] + t + s.buffer[s.pos + |t|..], pos := s.pos + |t|,
       flags := NextModifiers(s.flags, code), accepted := s.accepted + t)
  }

  /** One step of keyboard_read. */
  function ReaderStep(s: State): State
    requires Bounds(s)
  {
    match s.reader
    case Idle => if s.pos > 0 then s.(reader := Fetch) else s
    case Fetch => s.(reader := Test(s.buffer[0], 1))
    case Test(key, i) => if i < s.pos then s.(reader := Load(key, i)) else s.(reader := DecLoad(key, s.pos))
    case Load(key, i) => s.(reader := Store(key, i, s.buffer[i]))
    case Store(key, i, value) => s.(buffer := s.buffer[i - 1 := value], reader := Test(key, i + 1))
    case DecLoad(key, n) => s.(reader := DecStore(key, n, s.pos))
    case DecStore(key, n, loaded) => s.(pos := loaded - 1, returned := s.returned + [key], reader := Idle)
  }

  function Next(s: State, e: Event): State
    requires Bounds(s)
  {
    match e
    case Step => ReaderStep(s)
    case Key(code) => HandlerStep(s, code)
  }

  /** Every access is inside the buffer, and the queue never holds more than 255 characters. */
  predicate Bounds(s: State) {
    && |s.buffer| == BUFFER_SIZE && s.pos <= BUFFER_SIZE - 1
    && match s.reader
       case Idle => true
       case Fetch => s.pos > 0
       case Test(_, i) => 1 <= i <= s.pos
       case Load(_, i) => 1 <= i < s.pos
       case Store(_, i, _) => 1 <= i < s.pos
       case DecLoad(_, n) => 1 <= n <= s.pos
       case DecStore(_, n, loaded) => 1 <= n <= loaded <= s.pos
  }

  /** Up to where the shift has come: from there on the queue is still in its old place. */
  function Behind(r: Reader): nat {
    match r
    case Idle => 0
    case Fetch => 0
    case Test(_, i) => i
    case Load(_, i) => i
    case Store(_, i, _) => i + 1
    case DecLoad(_, n) => n
    case DecStore(_, n, _) => n
  }

  /** The characters already taken or shifted. */
  function Front(r: Reader, b: seq<char>): seq<char>
    requires Behind(r) <= |b|
  {
    match r
    case Idle => []
    case Fetch => []
    case Test(key, i) => if i == 0 then [] else [key] + b[..i - 1]
    case Load(key, i) => if i == 0 then [] else [key] + b[..i - 1]
    case Store(key, i, value) => if i == 0 then [] else [key] + b[..i - 1] + [value]
    case DecLoad(key, n) => if n == 0 then [] else [key] + b[..n - 1]
    case DecStore(key, n, _) => if n == 0 then [] else [key] + b[..n - 1]
  }

  /** What the queue stands for while the reader is in the middle of shifting it down. */
  function Pending(s: State): seq<char>
    requires Bounds(s)
  {
    Front(s.reader, s.buffer) + s.buffer[Behind(s.reader)..s.pos]
  }

  /** At every step, in the middle of a shift as well, nothing has been lost, doubled or reordered. */
  predicate Inv(s: State) {
    Bounds(s) && s.accepted == s.returned + Pending(s) && Ascii(s.accepted)
  }

  /** The interrupt handler keeps the invariant wherever it strikes: it only appends. */
  lemma HandlerKeeps(s: State, code: byte)
    requires Inv(s)
    ensures Inv(HandlerStep(s, code))
  {
    hide Front, Typed, Taken, NextModifiers, KeyTypes, Ascii;
    var t := Taken(s.pos, Typed(s.flags, code));
    TypedAsPrinted(s.flags, code);
    AsciiAppend(s.accepted, Typed(s.flags, code), t);
    var b, b' := s.buffer, HandlerStep(s, code).buffer;
    var h := Behind(s.reader);
    assert b'[h..s.pos + |t|] == b[h..s.pos] + t;
    assert b'[..s.pos] == b[..s.pos];
    SameFront(s.reader, b, b', s.pos);
    Associate(s.returned, Front(s.reader, b), b[h..s.pos], t);
  }

  lemma AsciiAppend(a: seq<char>, b: seq<char>, t: seq<char>)
    requires Ascii(a) && Ascii(b) && t <= b
    ensures Ascii(a + t)
  {
    forall c | c in a + t ensures '\0' < c < '\U{0080}' {
      assert c in a || c in b;
    }
  }

  lemma Associate(a: seq<char>, b: seq<char>, c: seq<char>, d: seq<char>)
    ensures a + (b + c) + d == a + (b + (c + d))
  {
  }

  lemma SameFront(r: Reader, b: seq<char>, b': seq<char>, pos: nat)
    requires Behind(r) <= pos <= |b| && |b'| == |b| && b'[..pos] == b[..pos]
    ensures Front(r, b') == Front(r, b)
  {
    var kept := Behind(r) - if r.Store? then 2 else 1;
    if kept > 0 {
      assert b'[..kept] == b'[..pos][..kept] && b[..kept] == b[..pos][..kept];
    }
  }

  /** Each step of keyboard_read up to the last keeps the invariant. */
  lemma ReaderKeeps(s: State)
    requires Inv(s) && !s.reader.DecStore?
    ensures Inv(ReaderStep(s))
  {
    hide Pending;
    PendingKept(s);
  }

  lemma PendingKept(s: State)
    requires Bounds(s) && !s.reader.DecStore?
    ensures Pending(ReaderStep(s)) == Pending(s)
  {
    match s.reader {
      case Fetch =>
        TakeOne([], s.buffer, 0, s.pos);
        assert [s.buffer[0]] + s.buffer[..0] == [] + [s.buffer[0]];
      case Load(_, _) => LoadKept(s);
      case Store(_, _, _) => StoreKept(s);
      case _ =>
    }
  }

  lemma LoadKept(s: State)
    requires Bounds(s) && s.reader.Load?
    ensures Pending(ReaderStep(s)) == Pending(s)
  {
    TakeOne([s.reader.key] + s.buffer[..s.reader.i - 1], s.buffer, s.reader.i, s.pos);
  }

  lemma StoreKept(s: State)
    requires Bounds(s) && s.reader.Store?
    ensures Pending(ReaderStep(s)) == Pending(s)
  {
    ShiftOne([s.reader.key], s.buffer, s.reader.i, s.reader.value, s.pos);
  }

  lemma TakeOne(front: seq<char>, b: seq<char>, i: nat, pos: nat)
    requires i < pos <= |b|
    ensures front + b[i..pos] == (front + [b[i]]) + b[i + 1..pos]
  {
  }

  lemma ShiftOne(front: seq<char>, b: seq<char>, i: nat, value: char, pos: nat)
    requires 1 <= i < pos <= |b|
    ensures front + b[i - 1 := value][..i] == front + b[..i - 1] + [value]
    ensures b[i - 1 := value][i + 1..pos] == b[i + 1..pos]
  {
  }

  /** The last step, the store of the decremented position, goes well exactly when nothing was put in
      the queue between the load and the store of buffer_position, and whatever was put there between
      the failing loop test and the load repeats the character that was last in the queue. */
  predicate Harmless(s: State)
    requires Bounds(s) && s.reader.DecStore?
  {
    var n := s.reader.n;
    s.reader.loaded == s.pos && forall j :: n <= j < s.pos ==> s.buffer[j] == s.buffer[n - 1]
  }

  lemma DecStoreExact(s: State)
    requires Inv(s) && s.reader.DecStore?
    ensures Fifo(ReaderStep(s)) <==> Harmless(s)
    ensures Harmless(s) ==> Inv(ReaderStep(s))
  {
    hide Ascii;
    var n, v, b := s.reader.n, s.reader.loaded, s.buffer;
    var s' := ReaderStep(s);
    var want, have := b[..n - 1] + b[n..s.pos], b[..v - 1];
    assert s.accepted == (s.returned + [s.reader.key]) + want;
    assert s'.returned + Queue(s') == (s.returned + [s.reader.key]) + have;
    assert Fifo(s') <==> want == have by {
      SamePrefix(s.returned + [s.reader.key], want, have);
    }
    assert |want| == s.pos - 1 && |have| == v - 1;
    if v == s.pos {
      ShiftsToSame(b, n, s.pos);
    }
  }

  /** Shifting the last characters down by one changes nothing exactly when they are all the same. */
  lemma ShiftsToSame(b: seq<char>, n: nat, pos: nat)
    requires 1 <= n <= pos <= |b|
    ensures b[..n - 1] + b[n..pos] == b[..pos - 1] <==> forall j :: n <= j < pos ==> b[j] == b[n - 1]
  {
    if b[..n - 1] + b[n..pos] == b[..pos - 1] {
      AllRepeat(b, n, pos, pos);
    }
  }

  lemma SamePrefix(p: seq<char>, a: seq<char>, b: seq<char>)
    ensures p + a == p + b <==> a == b
  {
    assert (p + a)[|p|..] == a && (p + b)[|p|..] == b;
  }

  lemma {:induction false} AllRepeat(b: seq<char>, n: nat, m: nat, pos: nat)
    requires 1 <= n <= m <= pos <= |b| && b[..n - 1] + b[n..pos] == b[..pos - 1]
    ensures forall j :: n <= j < m ==> b[j] == b[n - 1]
  {
    if n < m {
      AllRepeat(b, n, m - 1, pos);
      assert (b[..n - 1] + b[n..pos])[m - 2] == b[m - 1];
      assert b[..pos - 1][m - 2] == b[m - 2];
    }
  }

  // ---- Schedules ----

  ghost predicate EveryReturnFifo(s: State, events: seq<Event>)
    requires Bounds(s)
    decreases |events|
  {
    (s.reader.Idle? ==> Fifo(s)) &&
    (|events| > 0 ==> Bounds(Next(s, events[0])) ==> EveryReturnFifo(Next(s, events[0]), events[1..]))
  }

  /** No store of the position in this schedule is harmful. */
  ghost predicate NoHarm(s: State, events: seq<Event>)
    requires Bounds(s)
    decreases |events|
  {
    |events| > 0 ==>
      && (s.reader.DecStore? && events[0].Step? ==> Harmless(s))
      && (Bounds(Next(s, events[0])) ==> NoHarm(Next(s, events[0]), events[1..]))
  }

  lemma StepBounds(s: State, e: Event)
    requires Bounds(s)
    ensures Bounds(Next(s, e))
  {
  }

  /** For every schedule of interrupts: the queue is a queue whenever keyboard_read is not running,
      if and only if every store of the position in it is harmless. */
  lemma {:induction false} FifoExact(s: State, events: seq<Event>)
    requires Inv(s)
    ensures EveryReturnFifo(s, events) <==> NoHarm(s, events)
    decreases |events|
  {
    if |events| > 0 {
      var e := events[0];
      StepBounds(s, e);
      if e.Key? {
        HandlerKeeps(s, e.code);
        FifoExact(Next(s, e), events[1..]);
      } else if !s.reader.DecStore? {
        ReaderKeeps(s);
        FifoExact(Next(s, e), events[1..]);
      } else {
        DecStoreExact(s);
        if Harmless(s) {
          FifoExact(Next(s, e), events[1..]);
        }
      }
    }
  }

  /** The reader is between the failing loop test and the end of the decrement. */
  predicate InWindow(r: Reader) {
    r.DecLoad? || r.DecStore?
  }

  /** In this schedule no interrupt puts a character in the queue while the reader is in the window,
      as if the code masked interrupts there. */
  ghost predicate WindowQuiet(s: State, events: seq<Event>)
    requires Bounds(s)
    decreases |events|
  {
    |events| > 0 ==>
      && (events[0].Key? && InWindow(s.reader) ==> Next(s, events[0]).pos == s.pos)
      && (Bounds(Next(s, events[0])) ==> WindowQuiet(Next(s, events[0]), events[1..]))
  }

  ghost predicate Quiet(s: State) {
    match s.reader
    case DecLoad(_, n) => s.pos == n
    case DecStore(_, n, loaded) => s.pos == n == loaded
    case _ => true
  }

  /** With the window closed, every schedule keeps the queue a queue, even when the handler appends in
      the middle of the shift. */
  lemma {:induction false} QuietWindowIsSafe(s: State, events: seq<Event>)
    requires Inv(s) && Quiet(s) && WindowQuiet(s, events)
    ensures EveryReturnFifo(s, events) && NoHarm(s, events)
    decreases |events|
  {
    FifoExact(s, events);
    if |events| > 0 {
      var e := events[0];
      StepBounds(s, e);
      if e.Key? {
        HandlerKeeps(s, e.code);
      } else if s.reader.DecStore? {
        DecStoreExact(s);
      } else {
        ReaderKeeps(s);
      }
      QuietWindowIsSafe(Next(s, e), events[1..]);
    }
  }

  /** Reader steps left until keyboard_read returns, if it is not interrupted. */
  function StepsLeft(s: State): nat
    requires Bounds(s)
  {
    match s.reader
    case Idle => 0
    case Fetch => 3 * s.pos + 2
    case Test(_, i) => 3 * (s.pos - i) + 3
    case Load(_, i) => 3 * (s.pos - i) + 2
    case Store(_, i, _) => 3 * (s.pos - i) + 1
    case DecLoad(_, _) => 2
    case DecStore(_, _, _) => 1
  }

  /** keyboard_read run to its return without interruption. */
  function RunAlone(s: State): (t: State)
    requires Bounds(s)
    ensures Bounds(t)
    decreases StepsLeft(s)
  {
    if s.reader.Idle? then s else RunAlone(ReaderStep(s))
  }

  /** From wherever it is, a reader left alone returns the oldest character it stands for and leaves
      the others; from a start on a non-empty queue, it does what KeyboardDriver.Read does. */
  lemma {:induction false} AloneTakesOldest(s: State)
    requires Inv(s) && Quiet(s) && !s.reader.Idle?
    ensures var t := RunAlone(s);
            && t.reader.Idle? && Inv(t) && t.accepted == s.accepted
            && |Pending(s)| > 0 && t.returned == s.returned + [Pending(s)[0]] && Queue(t) == Pending(s)[1..]
    decreases StepsLeft(s)
  {
    if s.reader.DecStore? {
      LastStepTakes(s);
      assert RunAlone(s) == ReaderStep(s);
    } else {
      hide Inv, Pending, Queue;
      ReaderKeeps(s);
      PendingKept(s);
      AloneTakesOldest(ReaderStep(s));
    }
  }

  lemma LastStepTakes(s: State)
    requires Inv(s) && Quiet(s) && s.reader.DecStore?
    ensures var t := ReaderStep(s);
            && t.reader.Idle? && Inv(t) && t.accepted == s.accepted
            && |Pending(s)| > 0 && t.returned == s.returned + [Pending(s)[0]] && Queue(t) == Pending(s)[1..]
  {
    hide Ascii;
    DecStoreExact(s);
    assert s.buffer[s.reader.n..s.pos] == [];
  }

  /** The driver at start-up. */
  function Start(): State {
    State(seq(BUFFER_SIZE, _ => '\0'), 0, Modifiers(false, false), Idle, [], [])
  }

  lemma StartInv()
    ensures Inv(Start()) && Quiet(Start())
  {
  }

  /** keyboard_read answers 0 exactly when the queue is empty: no 0 is ever put in it. */
  lemma ZeroMeansEmpty(s: State)
    requires Inv(s) && s.reader.Idle?
    ensures '\0' !in Queue(s)
    ensures ReaderStep(s).reader.Idle? <==> Queue(s) == []
  {
    assert s.accepted == s.returned + Queue(s);
    assert forall c :: c in Queue(s) ==> c in s.accepted;
  }

  /** From start-up: the queue is first-in first-out at every return exactly when every store of the
      position is harmless, as it is whenever the window is quiet. */
  lemma FromStart(events: seq<Event>)
    ensures EveryReturnFifo(Start(), events) <==> NoHarm(Start(), events)
    ensures WindowQuiet(Start(), events) ==> NoHarm(Start(), events)
  {
    StartInv();
    FifoExact(Start(), events);
    if WindowQuiet(Start(), events) {
      QuietWindowIsSafe(Start(), events);
    }
  }

  /** A schedule run to its end. */
  function RunEvents(s: State, events: seq<Event>): (t: State)
    requires Bounds(s)
    ensures Bounds(t)
    decreases |events|
  {
    if |events| == 0 then s
    else
      StepBounds(s, events[0]);
      RunEvents(Next(s, events[0]), events[1..])
  }

  /** keyboard_read on a queue of one character, from its call to its return. */
  const WHOLE_READ := [Step, Step, Step, Step, Step]

  /** The window open: the queue holds 'a'; while keyboard_read is between its failing loop test and
      its decrement, 'b' arrives. The call returns 'a', and the next call returns 'a' again: 'b' has
      been accepted and is never returned. Scan codes 0x1E and 0x30 type 'a' and 'b'. */
  lemma OpenWindowLosesKey()
    ensures var events := [Key(0x1E), Step, Step, Step] + ([Key(0x30), Step, Step] + WHOLE_READ);
            var t := RunEvents(Start(), events);
            && t.accepted == ['a', 'b'] && t.returned == ['a', 'a'] && t.reader.Idle? && Queue(t) == []
            && !EveryReturnFifo(Start(), events) && !WindowQuiet(Start(), events)
  {
    hide HandlerStep, ReaderStep;
    var s0 := Start();
    TypedAs(s0, 0x1E, 'a');
    var s1 := Next(s0, Key(0x1E));
    TakesFirst(s1);
    var s2 := Next(s1, Step);
    var s3 := Next(s2, Step);
    LosesFrom(Next(s3, Step));
    var rest := [Key(0x30), Step, Step] + WHOLE_READ;
    Unroll(s3, Step, rest);
    Unroll(s2, Step, [Step] + rest);
    Unroll(s1, Step, [Step] + ([Step] + rest));
    Unroll(s0, Key(0x1E), [Step] + ([Step] + ([Step] + rest)));
    assert [Key(0x1E), Step, Step, Step] + rest == [Key(0x1E)] + ([Step] + ([Step] + ([Step] + rest)));
  }

  /** The rest of that schedule, from inside the window. */
  lemma LosesFrom(s: State)
    requires Bounds(s) && s.pos == 1 && s.reader == DecLoad('a', 1) && s.buffer[0] == 'a'
    requires s.accepted == ['a'] && s.returned == [] && s.flags == Modifiers(false, false)
    ensures var events := [Key(0x30), Step, Step] + WHOLE_READ;
            var t := RunEvents(s, events);
            && t.accepted == ['a', 'b'] && t.returned == ['a', 'a'] && t.reader.Idle? && Queue(t) == []
            && !EveryReturnFifo(s, events) && !WindowQuiet(s, events)
  {
    hide HandlerStep, ReaderStep;
    TypedAs(s, 0x30, 'b');
    var s5 := Next(s, Key(0x30));
    Decrements(s5);
    var s6 := Next(s5, Step);
    var s7 := Next(s6, Step);
    assert s7.returned == ['a'] && Queue(s7) == ['a'] && s7.accepted == ['a', 'b'];
    assert (s7.returned + Queue(s7))[1] == 'a';
    ReturnsOnly(s7);
    Unroll(s6, Step, WHOLE_READ);
    Unroll(s5, Step, [Step] + WHOLE_READ);
    Unroll(s, Key(0x30), [Step] + ([Step] + WHOLE_READ));
    assert [Key(0x30), Step, Step] + WHOLE_READ == [Key(0x30)] + ([Step] + ([Step] + WHOLE_READ));
  }

  /** A whole keyboard_read on a queue of one character. */
  lemma ReturnsOnly(s: State)
    requires Bounds(s) && s.reader.Idle? && s.pos == 1
    ensures RunEvents(s, WHOLE_READ) == s.(pos := 0, returned := s.returned + [s.buffer[0]], reader := Idle)
  {
    TakesFirst(s);
    var t := ReaderStep(ReaderStep(ReaderStep(s)));
    Unroll(ReaderStep(t), Step, []);
    Unroll(t, Step, [Step]);
    Unroll(ReaderStep(ReaderStep(s)), Step, [Step, Step]);
    Unroll(ReaderStep(s), Step, [Step, Step, Step]);
    Unroll(s, Step, [Step, Step, Step, Step]);
  }

  /** The first three steps of keyboard_read on a queue of one character. */
  lemma TakesFirst(s: State)
    requires Bounds(s) && s.reader.Idle? && s.pos == 1
    ensures var t := ReaderStep(s); Bounds(t) && Bounds(ReaderStep(t))
    ensures ReaderStep(ReaderStep(ReaderStep(s))) == s.(reader := DecLoad(s.buffer[0], 1))
  {
  }

  /** The decrement, when a second character has come in since the failing loop test. */
  lemma Decrements(s: State)
    requires Bounds(s) && s.reader.DecLoad? && s.pos == 2
    ensures Bounds(ReaderStep(s))
    ensures ReaderStep(ReaderStep(s)) == s.(pos := 1, returned := s.returned + [s.reader.key], reader := Idle)
  {
  }

  /** An interrupt for a plain character key, with room in the queue and no modifier set. */
  lemma TypedAs(s: State, code: byte, c: char)
    requires Bounds(s) && s.pos < BUFFER_SIZE - 1 && s.flags == Modifiers(false, false)
    requires (code == 0x1E && c == 'a') || (code == 0x30 && c == 'b')
    ensures var s' := Next(s, Key(code));
            && Bounds(s') && s'.pos == s.pos + 1 && s'.buffer[s.pos] == c
            && (forall j :: 0 <= j < s.pos ==> s'.buffer[j] == s.buffer[j])
            && s'.reader == s.reader && s'.accepted == s.accepted + [c] && s'.returned == s.returned
            && s'.flags == s.flags
  {
    assert MapEntry(false, code) == c;
  }

  lemma Unroll(s: State, e: Event, rest: seq<Event>)
    requires Bounds(s)
    ensures Bounds(Next(s, e))
    ensures EveryReturnFifo(s, [e] + rest) ==> EveryReturnFifo(Next(s, e), rest)
    ensures WindowQuiet(s, [e] + rest) ==> WindowQuiet(Next(s, e), rest)
    ensures RunEvents(s, [e] + rest) == RunEvents(Next(s, e), rest)
  {
    StepBounds(s, e);
    assert ([e] + rest)[1..] == rest;
  }

  // ---- The same driver ----

  /** The handler's step is what the driver's handler does, to the queue and to the modifiers. */
  method HandlerAgrees(d: KeyboardDriver, s: State, code: byte)
    requires d.Valid() && Bounds(s) && d.Contents() == Queue(s) && d.Flags() == s.flags
    modifies d, d.buffer
    ensures d.Valid() && Bounds(HandlerStep(s, code))
    ensures d.Contents() == Queue(HandlerStep(s, code)) && d.Flags() == HandlerStep(s, code).flags
    ensures HandlerStep(s, code).reader == s.reader && HandlerStep(s, code).returned == s.returned
  {
    hide Typed, KeyTypes, Taken, NextModifiers;
    StepBounds(s, Key(code));
    ghost var text := d.HandlerMain(1, code);
    QueueOfHandler(s, code);
  }

  lemma QueueOfHandler(s: State, code: byte)
    requires Bounds(s)
    ensures HandlerStep(s, code).pos <= |HandlerStep(s, code).buffer|
    ensures Queue(HandlerStep(s, code)) == Queue(s) + Taken(s.pos, Typed(s.flags, code))
  {
    hide Typed, Taken;
  }

  /** An uninterrupted read is what the driver's keyboard_read does: the same answer, the same queue. */
  method ReadAgrees(d: KeyboardDriver, s: State) returns (key: char)
    requires d.Valid() && Inv(s) && s.reader.Idle? && d.Contents() == Queue(s)
    modifies d`position, d.buffer
    ensures d.Valid() && Bounds(ReaderStep(s))
    ensures var t := RunAlone(ReaderStep(s));
            && t.reader.Idle? && d.Contents() == Queue(t)
            && t.returned == if key == '\0' then s.returned else s.returned + [key]
  {
    if s.pos > 0 {
      ReaderKeeps(s);
      PendingKept(s);
      AloneTakesOldest(ReaderStep(s));
    }
    key := d.Read();
    assert s.pos > 0 ==> Queue(s) == Pending(s) && Queue(s)[1..] == d.Contents();
  }
}
