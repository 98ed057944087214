/** A client of the heap code that also writes into what it was given: over every run, whatever it
    allocates, frees, resizes and writes, each payload it holds reads as the client last wrote it. */
module HeapClient {
  import opened Words
  import opened Memory
  import opened BlockList
  import opened HeapLaws
  import opened HeapRuns
  import opened HeapExact
  import opened Headers
  import opened HeapSteps
  import opened KernelHeap
  import opened HeapRefinement

  /** A call of the heap, or the client storing a byte at an offset of a payload it holds. */
  datatype Call = Ask(op: Op) | Write(p: int, off: int, v: byte)

  /** The bytes the client has written, by payload address and offset. */
  type Notes = map<int, map<int, byte>>

  datatype Client = Client(heap: State, notes: Notes)

  /** A payload is freed or resized only while it is live, and written only inside its block. */
  ghost predicate Allowed(s: State, call: Call) {
    match call
    case Ask(op) => Legal(s, op) && (op.Alloc? || op.p == 0 || Live(s.blocks, op.p))
    case Write(p, off, _) => Live(s.blocks, p) && 0 <= off < SizeAt(s.blocks, p)
  }

  /** The heap after a call; a store is none of its business. */
  ghost function After(s: State, call: Call): State
    requires Allowed(s, call)
  {
    match call
    case Ask(op) => Step(s, op)
    case Write(_, _, _) => s
  }

  ghost predicate AllowedRun(s: State, calls: seq<Call>)
    decreases |calls|
  {
    |calls| > 0 ==> Allowed(s, calls[0]) && AllowedRun(After(s, calls[0]), calls[1..])
  }

  ghost function AfterAll(s: State, calls: seq<Call>): State
    requires AllowedRun(s, calls)
    decreases |calls|
  {
    if |calls| == 0 then s else AfterAll(After(s, calls[0]), calls[1..])
  }

  /** A new payload has no notes yet, a freed one loses them, a moved one takes them along. */
  ghost function NotesAfter(s: State, op: Op, notes: Notes): Notes
    requires Legal(s, op)
  {
    if op.Alloc? || (op.Resize? && op.p == 0) then
      var r := Malloc(s.blocks, op.n).1;
      if r == 0 then notes else notes[r := map[]]
    else if op.Release? || op.n == 0 then notes - {op.p}
    else
      var r := Realloc(s.blocks, op.p, op.n).1;
      if r == 0 || op.p !in notes then notes else (notes - {op.p})[r := notes[op.p]]
  }

  ghost function StepClient(c: Client, call: Call): Client
    requires Allowed(c.heap, call)
  {
    Client(After(c.heap, call),
           match call
           case Ask(op) => NotesAfter(c.heap, op, c.notes)
           case Write(p, off, v) => c.notes[p := if p in c.notes then c.notes[p][off := v] else map[off := v]])
  }

  ghost function RunClient(c: Client, calls: seq<Call>): Client
    requires AllowedRun(c.heap, calls)
    decreases |calls|
  {
    if |calls| == 0 then c else RunClient(StepClient(c, calls[0]), calls[1..])
  }

  /** The byte noted for offset off of payload p is there. */
  ghost predicate Reads(m: seq<byte>, bs: seq<Block>, p: int, off: int, v: byte) {
    Live(bs, p) && 0 <= off < SizeAt(bs, p) && ByteIs(m, p + off, v)
  }

  /** The memory is as the client noted it. */
  ghost predicate Remembers(m: seq<byte>, bs: seq<Block>, notes: Notes) {
    forall p, off :: p in notes && off in notes[p] ==> Reads(m, bs, p, off, notes[p][off])
  }

  /** What a call of the heap does to one payload and the byte noted there. */
  lemma CarriedByte(m: seq<byte>, m': seq<byte>, bs: seq<Block>, bs': seq<Block>, op: Op, p: int, off: int, v: byte)
    requires Carried(m, m', bs, op) && Reads(m, bs, p, off, v) && !Frees(op, p)
    requires var r := NewPlace(bs, op, p); Live(bs', r) && SizeAt(bs, p) <= SizeAt(bs', r)
    ensures Reads(m', bs', NewPlace(bs, op, p), off, v)
  {
    hide Copied, LiveIndex, Realloc;
    assert Copied(m, m', p, NewPlace(bs, op, p), SizeAt(bs, p));
    CopiedByte(m, m', p, NewPlace(bs, op, p), SizeAt(bs, p), off, v);
  }

  lemma CopiedByte(m: seq<byte>, m': seq<byte>, p: int, r: int, len: int, off: int, v: byte)
    requires Copied(m, m', p, r, len) && 0 <= off < len && ByteIs(m, p + off, v)
    ensures ByteIs(m', r + off, v)
  {
    assert m'[r + off] == m'[r..r + len][off] && m[p + off] == m[p..p + len][off];
  }

  /** A payload that is not freed is live at its new place, with at least its old size, and no other
      payload comes to stand there. */
  lemma NewPlaceLive(s: State, op: Op, start: int, end: int, q: int)
    requires Good(s, start, end) && Legal(s, op) && Live(s.blocks, q) && !Frees(op, q)
    ensures var bs, r := Step(s, op).blocks, NewPlace(s.blocks, op, q);
            Live(bs, r) && SizeAt(s.blocks, q) <= SizeAt(bs, r)
  {
    hide Malloc, Free, Realloc, Books, Accounts, EightByteSplit, AlignUp;
    var bs, b := s.blocks, LiveBlock(s.blocks, q);
    assert b in UsedBlocks(bs) && b.Payload() == q;
    NullNotLive(bs, start, end);
    if op.Alloc? || (op.Resize? && op.p == 0) {
      if Malloc(bs, op.n).1 != 0 {
        MallocAddsOne(bs, start, end, op.n);
        SameLiveBlock(bs, Malloc(bs, op.n).0, start, end, q);
      }
    } else if op.Release? || op.n == 0 {
      if Live(bs, op.p) {
        FreeRemovesOne(bs, start, end, op.p);
        SameLiveBlock(bs, Free(bs, op.p), start, end, q);
      }
    } else {
      ReallocReplacesOne(bs, start, end, op.p, op.n);
      if Realloc(bs, op.p, op.n).1 != 0 && q != op.p {
        SameLiveBlock(bs, Realloc(bs, op.p, op.n).0, start, end, q);
      }
    }
  }

  /** The payload address a call returns is not one of another live payload. */
  lemma ResultIsNew(s: State, op: Op, start: int, end: int)
    requires Good(s, start, end) && Legal(s, op)
    ensures op.Alloc? || (op.Resize? && op.p == 0) ==> !Live(s.blocks, Malloc(s.blocks, op.n).1)
    ensures op.Resize? && op.p != 0 && op.n != 0 ==>
              var r := Realloc(s.blocks, op.p, op.n).1; r == op.p || !Live(s.blocks, r)
  {
    hide Malloc, Free, Realloc, Books, Accounts, EightByteSplit, AlignUp;
    NullNotLive(s.blocks, start, end);
    if op.Alloc? || (op.Resize? && op.p == 0) {
      if Malloc(s.blocks, op.n).1 != 0 {
        MallocAddsOne(s.blocks, start, end, op.n);
      }
    } else if op.Resize? && op.n != 0 {
      ReallocReplacesOne(s.blocks, start, end, op.p, op.n);
    }
  }

  /** Each note after a call is a note from before, at the new place of its payload. */
  lemma NotesFrom(s: State, op: Op, start: int, end: int, notes: Notes, r: int, off: int) returns (p: int)
    requires Good(s, start, end) && Legal(s, op)
    requires forall p, off :: p in notes && off in notes[p] ==> Live(s.blocks, p)
    requires var after := NotesAfter(s, op, notes); r in after && off in after[r]
    ensures p in notes && off in notes[p] && notes[p][off] == NotesAfter(s, op, notes)[r][off]
    ensures Live(s.blocks, p) && !Frees(op, p) && NewPlace(s.blocks, op, p) == r
  {
    hide Malloc, Realloc, Good, EightByteSplit, LiveIndex;
    ResultIsNew(s, op, start, end);
    p := r;
    if op.Resize? && op.p != 0 && op.n != 0 && op.p in notes && Realloc(s.blocks, op.p, op.n).1 == r {
      p := op.p;
    }
    assert off in notes[p];
  }

  lemma CallRemembered(m: seq<byte>, m': seq<byte>, s: State, op: Op, start: int, end: int, notes: Notes)
    requires Good(s, start, end) && Legal(s, op) && Carried(m, m', s.blocks, op)
    requires Remembers(m, s.blocks, notes)
    ensures Remembers(m', Step(s, op).blocks, NotesAfter(s, op, notes))
  {
    hide Good, Legal, Carried, Step, Frees, NewPlace, NotesAfter, Live;
    var bs', after := Step(s, op).blocks, NotesAfter(s, op, notes);
    forall p, off | p in notes && off in notes[p] ensures Live(s.blocks, p) {
      assert Reads(m, s.blocks, p, off, notes[p][off]);
    }
    forall r, off | r in after && off in after[r] ensures Reads(m', bs', r, off, after[r][off]) {
      var p := NotesFrom(s, op, start, end, notes, r, off);
      NewPlaceLive(s, op, start, end, p);
      CarriedByte(m, m', s.blocks, bs', op, p, off, notes[p][off]);
    }
  }

  /** A byte stored in a payload is remembered, and nothing else is forgotten. */
  lemma WriteRemembered(m: seq<byte>, m': seq<byte>, bs: seq<Block>, start: int, end: int, notes: Notes,
                        p: int, off: int, v: byte)
    requires WellFormed(m, start, end, bs) && Remembers(m, bs, notes)
    requires Live(bs, p) && 0 <= off < SizeAt(bs, p) && 0 <= p + off < |m| && m' == m[p + off := v]
    ensures Remembers(m', bs, notes[p := if p in notes then notes[p][off := v] else map[off := v]])
  {
    var notes' := notes[p := if p in notes then notes[p][off := v] else map[off := v]];
    forall q, o | q in notes' && o in notes'[q] ensures Reads(m', bs, q, o, notes'[q][o]) {
      if q != p || o != off {
        assert Reads(m, bs, q, o, notes[q][o]);
        if q != p {
          PayloadsIsolated(bs, start, end, p, q);
        }
      }
    }
  }

  // ---- Following a payload ----

  /** Where the payload p is after a call, and after all calls of a run. */
  ghost function PlaceNext(s: State, call: Call, p: int): int
    requires Allowed(s, call)
  {
    if call.Ask? && Live(s.blocks, p) then NewPlace(s.blocks, call.op, p) else p
  }

  ghost function PlaceAfter(s: State, calls: seq<Call>, p: int): int
    requires AllowedRun(s, calls)
    decreases |calls|
  {
    if |calls| == 0 then p else PlaceAfter(After(s, calls[0]), calls[1..], PlaceNext(s, calls[0], p))
  }

  /** The call neither frees the payload p nor stores at this offset of it. */
  predicate Spares(call: Call, p: int, off: int) {
    match call
    case Ask(op) => !Frees(op, p)
    case Write(q, o, _) => q != p || o != off
  }

  /** Nor does any call of the run, wherever the payload is by then. */
  ghost predicate Untouched(s: State, calls: seq<Call>, p: int, off: int)
    requires AllowedRun(s, calls)
    decreases |calls|
  {
    |calls| > 0 ==>
      Spares(calls[0], p, off) && Untouched(After(s, calls[0]), calls[1..], PlaceNext(s, calls[0], p), off)
  }

  /** Every byte of a payload that the calls do not touch is, at its offset, where the payload is. */
  ghost predicate BytesFollow(m: seq<byte>, m': seq<byte>, s: State, calls: seq<Call>)
    requires AllowedRun(s, calls)
  {
    forall p, off, v {:trigger Reads(m, s.blocks, p, off, v)} ::
      Reads(m, s.blocks, p, off, v) && Untouched(s, calls, p, off) ==>
        Reads(m', AfterAll(s, calls).blocks, PlaceAfter(s, calls, p), off, v)
  }

  /** A note of the client: v at this offset of the payload p. */
  ghost predicate Noted(notes: Notes, p: int, off: int, v: byte) {
    p in notes && off in notes[p] && notes[p][off] == v
  }

  /** Every byte stored during the run, unless its payload is freed or it is stored over, is in the
      memory m at its offset where the payload is at the end, and noted for that place. */
  ghost predicate StoresFollow(s: State, calls: seq<Call>, m: seq<byte>, notes: Notes)
    requires AllowedRun(s, calls)
    decreases |calls|
  {
    |calls| > 0 ==>
      var s', rest := After(s, calls[0]), calls[1..];
      && StoresFollow(s', rest, m, notes)
      && (calls[0].Write? && Untouched(s', rest, calls[0].p, calls[0].off) ==>
            var place := PlaceAfter(s', rest, calls[0].p);
            && Reads(m, AfterAll(s', rest).blocks, place, calls[0].off, calls[0].v)
            && Noted(notes, place, calls[0].off, calls[0].v))
  }

  /** One call and every byte it does not touch. */
  lemma CallFollows(m: seq<byte>, m': seq<byte>, s: State, op: Op, start: int, end: int)
    requires Good(s, start, end) && Allowed(s, Ask(op)) && Carried(m, m', s.blocks, op)
    ensures BytesFollow(m, m', s, [Ask(op)])
  {
    hide Good, Carried, Step, Legal, NewPlace;
    OneCall(s, Ask(op));
    forall p, off, v | Reads(m, s.blocks, p, off, v) && Untouched(s, [Ask(op)], p, off)
      ensures Reads(m', AfterAll(s, [Ask(op)]).blocks, PlaceAfter(s, [Ask(op)], p), off, v)
    {
      OnePlace(s, Ask(op), p, off);
      NewPlaceLive(s, op, start, end, p);
      CarriedByte(m, m', s.blocks, Step(s, op).blocks, op, p, off, v);
    }
  }

  lemma OneCall(s: State, call: Call)
    requires Allowed(s, call)
    ensures AllowedRun(s, [call]) && AfterAll(s, [call]) == After(s, call)
  {
    assert [call][1..] == [];
    assert AllowedRun(After(s, call), []);
  }

  lemma OnePlace(s: State, call: Call, p: int, off: int)
    requires Allowed(s, call) && AllowedRun(s, [call])
    ensures PlaceAfter(s, [call], p) == PlaceNext(s, call, p)
    ensures Untouched(s, [call], p, off) <==> Spares(call, p, off)
  {
    assert [call][1..] == [];
    assert PlaceAfter(After(s, call), [], PlaceNext(s, call, p)) == PlaceNext(s, call, p);
    assert Untouched(After(s, call), [], PlaceNext(s, call, p), off);
  }

  /** A store and every byte it does not touch. */
  lemma StoreFollows(m: seq<byte>, m': seq<byte>, s: State, start: int, end: int, p: int, off: int, v: byte)
    requires WellFormed(m, start, end, s.blocks) && Allowed(s, Write(p, off, v))
    requires 0 <= p + off < |m| && m' == m[p + off := v]
    ensures BytesFollow(m, m', s, [Write(p, off, v)]) && Reads(m', s.blocks, p, off, v)
  {
    var call := Write(p, off, v);
    OneCall(s, call);
    forall q, o, w | Reads(m, s.blocks, q, o, w) && Untouched(s, [call], q, o)
      ensures Reads(m', AfterAll(s, [call]).blocks, PlaceAfter(s, [call], q), o, w)
    {
      OnePlace(s, call, q, o);
      if q != p {
        PayloadsIsolated(s.blocks, start, end, p, q);
      }
    }
  }

  /** A first call, then the rest. */
  lemma FollowOn(m: seq<byte>, m1: seq<byte>, m2: seq<byte>, s: State, calls: seq<Call>)
    requires |calls| > 0 && AllowedRun(s, calls)
    requires AllowedRun(s, [calls[0]]) && BytesFollow(m, m1, s, [calls[0]])
    requires BytesFollow(m1, m2, After(s, calls[0]), calls[1..])
    ensures BytesFollow(m, m2, s, calls)
  {
    hide Reads, Allowed, After, Spares, PlaceNext;
    OneCall(s, calls[0]);
    forall p, off, v | Reads(m, s.blocks, p, off, v) && Untouched(s, calls, p, off)
      ensures Reads(m2, AfterAll(s, calls).blocks, PlaceAfter(s, calls, p), off, v)
    {
      OnePlace(s, calls[0], p, off);
      assert Reads(m1, After(s, calls[0]).blocks, PlaceNext(s, calls[0], p), off, v);
    }
  }

  /** A note goes where its payload goes. */
  lemma NoteCarried(s: State, op: Op, start: int, end: int, notes: Notes, p: int, off: int, v: byte)
    requires Good(s, start, end) && Allowed(s, Ask(op)) && Live(s.blocks, p) && !Frees(op, p)
    requires Noted(notes, p, off, v)
    ensures Noted(NotesAfter(s, op, notes), NewPlace(s.blocks, op, p), off, v)
  {
    hide Malloc, Realloc, Good, EightByteSplit, LiveIndex;
    HeapOfGood(s, start, end);
    NullNotLive(s.blocks, start, end);
    ResultIsNew(s, op, start, end);
  }

  lemma HeapOfGood(s: State, start: int, end: int)
    requires Good(s, start, end)
    ensures HeapInv(s.blocks, start, end) && Tiled(s.blocks, start, end)
  {
  }

  lemma {:induction false} NoteFollows(c: Client, calls: seq<Call>, start: int, end: int, p: int, off: int, v: byte)
    requires Good(c.heap, start, end) && AllowedRun(c.heap, calls)
    requires Live(c.heap.blocks, p) && Noted(c.notes, p, off, v) && Untouched(c.heap, calls, p, off)
    ensures Noted(RunClient(c, calls).notes, PlaceAfter(c.heap, calls, p), off, v)
    decreases |calls|
  {
    hide Good, Live, NewPlace, NotesAfter, Step, Legal;
    if |calls| > 0 {
      var c' := StepClient(c, calls[0]);
      match calls[0] {
        case Ask(op) =>
          StepGood(c.heap, op, start, end);
          NoteCarried(c.heap, op, start, end, c.notes, p, off, v);
          NewPlaceLive(c.heap, op, start, end, p);
          NoteFollows(c', calls[1..], start, end, NewPlace(c.heap.blocks, op, p), off, v);
        case Write(_, _, _) =>
          NoteFollows(c', calls[1..], start, end, p, off, v);
      }
    }
  }

  /** The size last asked for the payload p, n at first. */
  ghost function AskedAfter(s: State, calls: seq<Call>, p: int, n: word): word
    requires AllowedRun(s, calls)
    decreases |calls|
  {
    if |calls| == 0 then n
    else
      var asks := calls[0].Ask? && calls[0].op.Resize? && calls[0].op.p == p && p != 0 && calls[0].op.n != 0
                  && Realloc(s.blocks, p, calls[0].op.n).1 != 0;
      AskedAfter(After(s, calls[0]), calls[1..], PlaceNext(s, calls[0], p), if asks then calls[0].op.n else n)
  }

  /** The payload address that a call returns. */
  ghost function Result(s: State, op: Op): int
    requires Legal(s, op)
  {
    if op.Release? then 0
    else if op.Alloc? || op.p == 0 then Malloc(s.blocks, op.n).1
    else if op.n == 0 then 0
    else Realloc(s.blocks, op.p, op.n).1
  }

  /** What a call has given its client stays its own until it is freed: wherever it is after any calls,
      it is live, as long as asked unless the request wrapped, and in the ledger with the size last
      asked for. */
  lemma GivenIsKept(s: State, op: Op, calls: seq<Call>, start: int, end: int)
    requires Good(s, start, end) && Legal(s, op) && Result(s, op) != 0
    requires AllowedRun(Step(s, op), calls) && Untouched(Step(s, op), calls, Result(s, op), -1)
    ensures var s', r := Step(s, op), Result(s, op);
            var t, q := AfterAll(s', calls), PlaceAfter(s', calls, r);
            && Live(t.blocks, q) && (op.n <= WORD - 8 ==> op.n <= SizeAt(t.blocks, q))
            && q in t.ledger && t.ledger[q] == AskedAfter(s', calls, r, op.n)
  {
    hide AllowedRun, AfterAll, PlaceAfter, AskedAfter, Untouched, Good, Legal;
    StepGood(s, op, start, end);
    ResultHeld(s, op, start, end);
    KeptFrom(Step(s, op), calls, start, end, Result(s, op), op.n);
  }

  lemma ResultHeld(s: State, op: Op, start: int, end: int)
    requires Good(s, start, end) && Legal(s, op) && Result(s, op) != 0
    ensures var s', r := Step(s, op), Result(s, op);
            && Live(s'.blocks, r) && (op.n <= WORD - 8 ==> op.n <= SizeAt(s'.blocks, r))
            && r in s'.ledger && s'.ledger[r] == op.n
  {
    hide Malloc, Free, Realloc, Books, Accounts, EightByteSplit, AlignUp, LiveIndex;
    if op.Alloc? || op.p == 0 {
      MallocAddsOne(s.blocks, start, end, op.n);
      PayloadLongEnough(s.blocks, start, end, op.n);
    } else {
      ReallocReplacesOne(s.blocks, start, end, op.p, op.n);
      ResizedLongEnough(s.blocks, start, end, op.p, op.n);
    }
  }

  lemma {:induction false} KeptFrom(s: State, calls: seq<Call>, start: int, end: int, p: int, n: word)
    requires Good(s, start, end) && AllowedRun(s, calls) && Untouched(s, calls, p, -1)
    requires Live(s.blocks, p) && p in s.ledger && s.ledger[p] == n
    ensures var t, q := AfterAll(s, calls), PlaceAfter(s, calls, p);
            && Live(t.blocks, q) && SizeAt(s.blocks, p) <= SizeAt(t.blocks, q)
            && q in t.ledger && t.ledger[q] == AskedAfter(s, calls, p, n)
    decreases |calls|
  {
    hide Good, Live, NewPlace, SizeAt, Legal, Step;
    if |calls| > 0 {
      match calls[0] {
        case Ask(op) =>
          StepGood(s, op, start, end);
          NewPlaceLive(s, op, start, end, p);
          LedgerCarried(s, op, start, end, p);
          KeptFrom(Step(s, op), calls[1..], start, end, NewPlace(s.blocks, op, p),
                   Step(s, op).ledger[NewPlace(s.blocks, op, p)]);
        case Write(_, _, _) =>
          KeptFrom(s, calls[1..], start, end, p, n);
      }
    }
  }

  lemma LedgerCarried(s: State, op: Op, start: int, end: int, p: int)
    requires Good(s, start, end) && Allowed(s, Ask(op)) && Live(s.blocks, p) && !Frees(op, p) && p in s.ledger
    ensures var q, l := NewPlace(s.blocks, op, p), Step(s, op).ledger;
            var asks := op.Resize? && op.p == p && p != 0 && op.n != 0 && Realloc(s.blocks, p, op.n).1 != 0;
            q in l && l[q] == if asks then op.n else s.ledger[p]
  {
    hide Malloc, Free, Realloc, Good, EightByteSplit, LiveIndex;
    HeapOfGood(s, start, end);
    NullNotLive(s.blocks, start, end);
    ResultIsNew(s, op, start, end);
  }

  /** The code, one call: one step of the client. */
  method PerformCall(h: Heap, call: Call, ghost ledger: map<int, word>, ghost notes: Notes)
    returns (ghost ledger': map<int, word>, ghost notes': Notes)
    requires h.Valid() && Books(h.blocks, ledger) && Remembers(h.mem[..], h.blocks, notes)
    requires Allowed(StateOf(h, ledger), call)
    modifies h`blocks, h`usedSize, h`grown, h.mem
    ensures h.Valid() && Books(h.blocks, ledger') && Remembers(h.mem[..], h.blocks, notes')
    ensures Client(StateOf(h, ledger'), notes') == StepClient(old(Client(StateOf(h, ledger), notes)), call)
    ensures AllowedRun(old(StateOf(h, ledger)), [call])
    ensures BytesFollow(old(h.mem[..]), h.mem[..], old(StateOf(h, ledger)), [call])
    ensures call.Write? ==>
              Reads(h.mem[..], h.blocks, call.p, call.off, call.v) && Noted(notes', call.p, call.off, call.v)
  {
    hide Step, NotesAfter, Remembers, Live, Carried, BytesFollow, Reads, AllowedRun;
    OneCall(StateOf(h, ledger), call);
    ghost var m, s := h.mem[..], StateOf(h, ledger);
    ghost var c := StepClient(Client(s, notes), call);
    ledger', notes' := c.heap.ledger, c.notes;
    HeapKeepsInv(h);
    match call {
      case Ask(op) =>
        AskIsCallable(h, ledger, op);
        ghost var l := Perform(h, op, ledger);
        CallRemembered(m, h.mem[..], s, op, h.startAddr, h.endAddr, notes);
        CallFollows(m, h.mem[..], s, op, h.startAddr, h.endAddr);
      case Write(p, off, v) =>
        LiveHeader(m, h.startAddr, h.endAddr, h.blocks, p);
        h.mem[p + off] := v;
        StoreKeepsHeap(m, h.mem[..], h.startAddr, h.endAddr, h.blocks, p, off);
        WriteRemembered(m, h.mem[..], h.blocks, h.startAddr, h.endAddr, notes, p, off, v);
        StoreFollows(m, h.mem[..], s, h.startAddr, h.endAddr, p, off, v);
    }
  }

  lemma StoreKeepsHeap(m: seq<byte>, m': seq<byte>, start: int, end: int, bs: seq<Block>, p: int, off: int)
    requires WellFormed(m, start, end, bs) && Live(bs, p) && 0 <= off < SizeAt(bs, p)
    requires 0 <= p + off < |m| && |m'| == |m| && m' == m[p + off := m'[p + off]]
    ensures WellFormed(m', start, end, bs)
  {
    PayloadWritten(m, m', start, end, bs, p);
  }

  lemma AskIsCallable(h: Heap, ledger: map<int, word>, op: Op)
    requires h.Valid() && Legal(StateOf(h, ledger), op) && (op.Alloc? || op.p == 0 || Live(h.blocks, op.p))
    ensures Callable(h, ledger, op)
  {
    if !op.Alloc? && op.p != 0 {
      LiveHeader(h.mem[..], h.startAddr, h.endAddr, h.blocks, op.p);
    }
  }

  /** The code over any run of a client: every byte that is not stored over, in a payload that is not
      freed, those stored during the run and those there before, is at its offset wherever krealloc has
      moved the payload; and the notes the client keeps of its stores are complete and true. */
  method PerformRun(h: Heap, calls: seq<Call>, ghost ledger: map<int, word>, ghost notes: Notes)
    returns (ghost ledger': map<int, word>, ghost notes': Notes)
    requires h.Valid() && Books(h.blocks, ledger) && Remembers(h.mem[..], h.blocks, notes)
    requires AllowedRun(StateOf(h, ledger), calls)
    modifies h`blocks, h`usedSize, h`grown, h.mem
    ensures h.Valid() && Books(h.blocks, ledger') && Remembers(h.mem[..], h.blocks, notes')
    ensures Client(StateOf(h, ledger'), notes') == RunClient(old(Client(StateOf(h, ledger), notes)), calls)
    ensures BytesFollow(old(h.mem[..]), h.mem[..], old(StateOf(h, ledger)), calls)
    ensures StoresFollow(old(StateOf(h, ledger)), calls, h.mem[..], notes')
    decreases |calls|
  {
    hide Remembers, Books, NotesAfter, Allowed, After, BytesFollow, StoresFollow;
    ledger', notes' := ledger, notes;
    if |calls| > 0 {
      ghost var m, s := h.mem[..], StateOf(h, ledger);
      ledger', notes' := PerformCall(h, calls[0], ledger, notes);
      ghost var m1, c1 := h.mem[..], Client(StateOf(h, ledger'), notes');
      RestAllowed(s, calls);
      GoodNow(h, ledger');
      ledger', notes' := PerformRun(h, calls[1..], ledger', notes');
      FollowOn(m, m1, h.mem[..], s, calls);
      StoreFollowsOn(s, calls, m1, h.mem[..], c1, h.startAddr, h.endAddr);
    } else {
      NothingFollows(h.mem[..], StateOf(h, ledger), notes);
    }
  }

  lemma RestAllowed(s: State, calls: seq<Call>)
    requires |calls| > 0 && AllowedRun(s, calls)
    ensures Allowed(s, calls[0]) && AllowedRun(After(s, calls[0]), calls[1..])
  {
  }

  lemma GoodNow(h: Heap, ledger: map<int, word>)
    requires h.Valid() && Books(h.blocks, ledger)
    ensures Good(StateOf(h, ledger), h.startAddr, h.endAddr)
  {
  }

  lemma NothingFollows(m: seq<byte>, s: State, notes: Notes)
    ensures AllowedRun(s, []) && BytesFollow(m, m, s, []) && StoresFollow(s, [], m, notes)
  {
  }

  /** The stores of a run: the first call's, if it is one, and the rest's. */
  lemma StoreFollowsOn(s: State, calls: seq<Call>, m1: seq<byte>, m2: seq<byte>, c1: Client, start: int, end: int)
    requires |calls| > 0 && AllowedRun(s, calls) && c1.heap == After(s, calls[0])
    requires Good(c1.heap, start, end)
    requires calls[0].Write? ==>
               && Reads(m1, c1.heap.blocks, calls[0].p, calls[0].off, calls[0].v)
               && Noted(c1.notes, calls[0].p, calls[0].off, calls[0].v)
    requires BytesFollow(m1, m2, c1.heap, calls[1..])
    requires StoresFollow(c1.heap, calls[1..], m2, RunClient(c1, calls[1..]).notes)
    ensures StoresFollow(s, calls, m2, RunClient(c1, calls[1..]).notes)
  {
    hide Good, Allowed, RunClient, Noted, After;
    var rest := calls[1..];
    if calls[0].Write? && Untouched(c1.heap, rest, calls[0].p, calls[0].off) {
      NoteFollows(c1, rest, start, end, calls[0].p, calls[0].off, calls[0].v);
    }
  }

  // ---- From start-up ----

  /** The heap calls among a client's calls. */
  function Asked(calls: seq<Call>): seq<Op> {
    if |calls| == 0 then []
    else (match calls[0] case Ask(op) => [op] case Write(_, _, _) => []) + Asked(calls[1..])
  }

  /** The client's stores leave the run of the heap alone. */
  lemma {:induction false} RunOfAsked(c: Client, calls: seq<Call>)
    requires AllowedRun(c.heap, calls)
    ensures LegalRun(c.heap, Asked(calls)) && RunClient(c, calls).heap == Run(c.heap, Asked(calls))
    decreases |calls|
  {
    if |calls| > 0 {
      RunOfAsked(StepClient(c, calls[0]), calls[1..]);
      match calls[0] {
        case Ask(op) =>
          assert ([op] + Asked(calls[1..]))[1..] == Asked(calls[1..]);
        case Write(_, _, _) =>
          assert [] + Asked(calls[1..]) == Asked(calls[1..]);
      }
    }
  }

  /** A client before its first call. */
  ghost function Newcomer(start: int, end: int): Client {
    Client(Init(start, end), map[])
  }

  lemma FreshHeap(h: Heap)
    requires h.Valid() && h.grown == 0 && h.blocks == Init(h.startAddr, h.endAddr).blocks
    ensures StateOf(h, map[]) == Init(h.startAddr, h.endAddr)
    ensures Books(h.blocks, map[]) && Remembers(h.mem[..], h.blocks, map[])
  {
    InitRight(h.startAddr, h.endAddr);
  }

  lemma AlignedArea(start: word, size: word)
    requires 0 < start <= WORD - 8 && size >= HEADER
    ensures var s, t := AlignUp(start, 8), AlignDown(size, 8);
            && 8 <= s && s % 8 == 0 && (s + t) % 8 == 0 && HEADER <= t && (size >= MIN_BLOCK ==> MIN_BLOCK <= t)
  {
    hide AlignUp, AlignDown;
    AlignTo8(start);
    AlignTo8(size);
    Sum8(AlignUp(start, 8), AlignDown(size, 8));
  }

  /** What holds of the heap, in the memory, after any run of the code from heap_init on. */
  method RunFromInit(h: Heap, start: word, size: word, calls: seq<Call>)
    returns (ghost ledger: map<int, word>, ghost notes: Notes)
    requires h.mem.Length <= WORD && 0 < start <= WORD - 8 && size >= HEADER
    requires AlignUp(start, 8) + AlignDown(size, 8) <= h.mem.Length
    requires AlignUp(start, 8) + AlignDown(size, 8) <= WORD - 8
    requires AllowedRun(Init(AlignUp(start, 8), AlignUp(start, 8) + AlignDown(size, 8)), calls)
    modifies h, h.mem
    ensures h.Valid() && h.startAddr == AlignUp(start, 8) && h.endAddr == AlignUp(start, 8) + AlignDown(size, 8)
    ensures LegalRun(Init(h.startAddr, h.endAddr), Asked(calls))
    ensures StateOf(h, ledger) == Run(Init(h.startAddr, h.endAddr), Asked(calls))
    ensures Client(StateOf(h, ledger), notes) == RunClient(Newcomer(h.startAddr, h.endAddr), calls)
    ensures Remembers(h.mem[..], h.blocks, notes)
    ensures StoresFollow(Init(h.startAddr, h.endAddr), calls, h.mem[..], notes)
    ensures ledger == map[] <==> h.blocks == Init(h.startAddr, h.endAddr).blocks
    ensures NeverGrowsInPlace(Init(h.startAddr, h.endAddr), Asked(calls)) ==> h.usedSize == UsedSum(h.blocks)
    ensures (forall op :: op in Asked(calls) ==> Unwrapped(op)) && size >= MIN_BLOCK ==> Positive(h.blocks)
  {
    hide AlignUp, AlignDown, Step, StepClient, Allowed, Legal, UsedSum, Remembers;
    AlignedArea(start, size);
    h.HeapInit(start, size);
    FreshHeap(h);
    ledger, notes := PerformRun(h, calls, map[], map[]);
    RunOfAsked(Newcomer(h.startAddr, h.endAddr), calls);
    EverythingFreed(Asked(calls), h.startAddr, h.endAddr);
    RunFacts(Asked(calls), h.startAddr, h.endAddr);
  }

  /** The last state of a run, when its calls are such that the counter, or the sizes, stay right. */
  lemma RunFacts(ops: seq<Op>, start: int, end: int)
    requires 8 <= start && start % 8 == 0 && end % 8 == 0 && start + HEADER <= end <= WORD - 8
    requires LegalRun(Init(start, end), ops)
    ensures NeverGrowsInPlace(Init(start, end), ops) ==> CounterRight(Run(Init(start, end), ops))
    ensures (forall op :: op in ops ==> Unwrapped(op)) && start + MIN_BLOCK <= end ==>
              Positive(Run(Init(start, end), ops).blocks)
  {
    hide Step, Legal;
    CounterOverRuns(ops, start, end);
    if AlwaysRight(Init(start, end), ops) {
      LastRight(Init(start, end), ops);
    }
    if (forall op :: op in ops ==> Unwrapped(op)) && start + MIN_BLOCK <= end {
      SizesPositive(ops, start, end);
    }
  }
}
