/** Every call of the heap code is one step of the client-level run model, so what HeapRuns proves of
    all runs holds of all runs of the code. */
module HeapRefinement {
  import opened Words
  import opened Memory
  import opened BlockList
  import opened HeapLaws
  import opened HeapRuns
  import opened Headers
  import opened HeapSteps
  import opened KernelHeap

  /** The run model's state, as the heap and its client's ledger show it. */
  ghost function StateOf(h: Heap, ledger: map<int, word>): State
    reads h
  {
    State(h.blocks, ledger, h.usedSize, h.grown)
  }

  /** A call the code can take: legal in the run model, with pointers that are words and that kfree
      may be given. */
  ghost predicate Callable(h: Heap, ledger: map<int, word>, op: Op)
    reads h, h.mem
  {
    && Legal(StateOf(h, ledger), op)
    && (op.Release? ==> 0 <= op.p < WORD && h.Freeable(op.p))
    && (op.Resize? ==> 0 <= op.p < WORD && (op.n == 0 ==> h.Freeable(op.p)))
  }

  /** The counter of a state whose accounts are kept is fixed by the rest of it. */
  lemma SameCounter(s: State, t: State)
    requires Accounts(s) && Accounts(t) && s.blocks == t.blocks && s.grown == t.grown && s.ledger == t.ledger
    ensures s == t
  {
  }

  lemma HeapKeepsInv(h: Heap)
    requires h.Valid()
    ensures HeapInv(h.blocks, h.startAddr, h.endAddr)
  {
  }

  // ---- Payload contents across one call ----

  /** The call gives the payload q back. */
  predicate Frees(op: Op, q: int) {
    q != 0 && ((op.Release? && op.p == q) || (op.Resize? && op.n == 0 && op.p == q))
  }

  /** Where the payload q is after the call. */
  ghost function NewPlace(bs: seq<Block>, op: Op, q: int): int
    requires Live(bs, q)
  {
    if op.Resize? && op.p == q && q != 0 && op.n != 0 && Realloc(bs, q, op.n).1 != 0 then Realloc(bs, q, op.n).1
    else q
  }

  /** Every payload that the call does not free is, byte for byte, at its new place. */
  ghost predicate Carried(m: seq<byte>, m': seq<byte>, bs: seq<Block>, op: Op) {
    forall q :: Live(bs, q) && !Frees(op, q) ==> Copied(m, m', q, NewPlace(bs, op, q), SizeAt(bs, q))
  }

  lemma StaysPut(m: seq<byte>, m': seq<byte>, start: int, end: int, bs: seq<Block>, q: int, U: set<Block>)
    requires WellFormed(m, start, end, bs) && Live(bs, q) && Keeps(m, m', U) && LiveBlock(bs, q) in U
    ensures Copied(m, m', q, q, SizeAt(bs, q))
  {
    LiveHeader(m, start, end, bs, q);
    assert Same(m, m', q, q + SizeAt(bs, q));
  }

  /** All payloads but the one at p, if any, stay where they are. */
  lemma OthersStayPut(m: seq<byte>, m': seq<byte>, start: int, end: int, bs: seq<Block>, p: int)
    requires WellFormed(m, start, end, bs) && Keeps(m, m', Others(bs, p))
    ensures forall q :: Live(bs, q) && q != p ==> Copied(m, m', q, q, SizeAt(bs, q))
  {
    forall q | Live(bs, q) && q != p ensures Copied(m, m', q, q, SizeAt(bs, q)) {
      assert LiveBlock(bs, q) in UsedBlocks(bs);
      StaysPut(m, m', start, end, bs, q, Others(bs, p));
    }
  }

  lemma CarriedAway(m: seq<byte>, m': seq<byte>, start: int, end: int, bs: seq<Block>, op: Op)
    requires WellFormed(m, start, end, bs) && !Live(bs, 0)
    requires var p := if op.Alloc? then 0 else op.p;
             && Keeps(m, m', Others(bs, p))
             && (Live(bs, p) && !Frees(op, p) ==> Copied(m, m', p, NewPlace(bs, op, p), SizeAt(bs, p)))
    ensures Carried(m, m', bs, op)
  {
    hide Copied, Keeps, Live, WellFormed;
    var p := if op.Alloc? then 0 else op.p;
    OthersStayPut(m, m', start, end, bs, p);
    forall q | Live(bs, q) && !Frees(op, q) ensures Copied(m, m', q, NewPlace(bs, op, q), SizeAt(bs, q)) {
      if q != p {
        assert NewPlace(bs, op, q) == q;
      }
    }
  }

  /** kmalloc(n), or krealloc(NULL, n). */
  method PerformAlloc(h: Heap, n: word, resize: bool, ghost ledger: map<int, word>) returns (r: word)
    requires h.Valid() && Books(h.blocks, ledger)
    modifies h`blocks, h`usedSize, h`grown, h.mem
    ensures h.Valid()
    ensures StateOf(h, StepAlloc(old(StateOf(h, ledger)), n).ledger) == StepAlloc(old(StateOf(h, ledger)), n)
    ensures Keeps(old(h.mem[..]), h.mem[..], Others(old(h.blocks), 0))
  {
    hide Malloc, UsedSum;
    ghost var s := StateOf(h, ledger);
    HeapKeepsInv(h);
    AllocGood(s, h.startAddr, h.endAddr, n);
    if n == 0 {
      MallocFails(s.blocks, n);
    }
    if resize {
      r := h.Krealloc(0, n);
    } else {
      r := h.Kmalloc(n);
    }
    SameCounter(StateOf(h, StepAlloc(s, n).ledger), StepAlloc(s, n));
  }

  /** kfree(p), or krealloc(p, 0). */
  method PerformRelease(h: Heap, p: word, resize: bool, ghost ledger: map<int, word>)
    requires h.Valid() && Books(h.blocks, ledger) && h.Freeable(p) && (resize ==> p != 0)
    modifies h`blocks, h`usedSize, h`grown, h.mem
    ensures h.Valid()
    ensures StateOf(h, StepRelease(old(StateOf(h, ledger)), p).ledger) == StepRelease(old(StateOf(h, ledger)), p)
    ensures Keeps(old(h.mem[..]), h.mem[..], Others(old(h.blocks), p))
  {
    hide Free, UsedSum;
    ghost var s := StateOf(h, ledger);
    HeapKeepsInv(h);
    ReleaseGood(s, h.startAddr, h.endAddr, p);
    if !Live(s.blocks, p) {
      NothingToFree(s.blocks, p);
    }
    if resize {
      var r := h.Krealloc(p, 0);
    } else {
      ghost var m := h.mem[..];
      h.Kfree(p);
      FreeKeeps(m, h.mem[..], s.blocks, h.startAddr, h.endAddr, p);
    }
    SameCounter(StateOf(h, StepRelease(s, p).ledger), StepRelease(s, p));
  }

  method PerformResize(h: Heap, p: word, n: word, ghost ledger: map<int, word>) returns (r: word)
    requires h.Valid() && Books(h.blocks, ledger) && p != 0 && n != 0
    requires Live(h.blocks, p) && !EightByteSplit(h.blocks, p, n)
    modifies h`blocks, h`usedSize, h`grown, h.mem
    ensures h.Valid()
    ensures StateOf(h, StepResize(old(StateOf(h, ledger)), p, n).ledger) == StepResize(old(StateOf(h, ledger)), p, n)
    ensures Keeps(old(h.mem[..]), h.mem[..], Others(old(h.blocks), p))
    ensures var r' := Realloc(old(h.blocks), p, n).1;
            Copied(old(h.mem[..]), h.mem[..], p, if r' != 0 then r' else p, SizeAt(old(h.blocks), p))
  {
    hide Realloc, UsedSum, EightByteSplit, LiveIndex;
    ghost var s := StateOf(h, ledger);
    HeapKeepsInv(h);
    ResizeGood(s, h.startAddr, h.endAddr, p, n);
    OthersAre(s.blocks, h.startAddr, h.endAddr, p);
    LiveHeader(h.mem[..], h.startAddr, h.endAddr, s.blocks, p);
    r := h.Krealloc(p, n);
    SameCounter(StateOf(h, StepResize(s, p, n).ledger), StepResize(s, p, n));
  }

  /** One call of the code, with the ledger entry its client makes of it, is one step of the model. */
  method Perform(h: Heap, op: Op, ghost ledger: map<int, word>) returns (ghost ledger': map<int, word>)
    requires h.Valid() && Books(h.blocks, ledger) && Callable(h, ledger, op)
    modifies h`blocks, h`usedSize, h`grown, h.mem
    ensures h.Valid() && Books(h.blocks, ledger')
    ensures StateOf(h, ledger') == Step(old(StateOf(h, ledger)), op)
    ensures Carried(old(h.mem[..]), h.mem[..], old(h.blocks), op)
  {
    hide StepAlloc, StepRelease, StepResize, HeapInv, UsedSum, Realloc, Keeps, Copied, Carried;
    ghost var s, m := StateOf(h, ledger), h.mem[..];
    HeapKeepsInv(h);
    StepGood(s, op, h.startAddr, h.endAddr);
    ledger' := Step(s, op).ledger;
    NullNotLive(s.blocks, h.startAddr, h.endAddr);
    match op {
      case Alloc(n) =>
        var r := PerformAlloc(h, n, false, ledger);
      case Release(p) =>
        PerformRelease(h, p, false, ledger);
      case Resize(p, n) =>
        if p == 0 {
          var r := PerformAlloc(h, n, true, ledger);
        } else if n == 0 {
          PerformRelease(h, p, true, ledger);
        } else {
          var r := PerformResize(h, p, n, ledger);
        }
    }
    CarriedAway(m, h.mem[..], h.startAddr, h.endAddr, s.blocks, op);
  }
}
