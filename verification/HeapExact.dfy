/** Two things the heap code keeps on some calls only, with those calls named exactly: block sizes
    stay positive, and used_size stays the sum of the live sizes. */
module HeapExact {
  import opened Words
  import opened BlockList
  import opened HeapLaws
  import opened HeapRuns
  import opened HeapSteps

  // ---- Positive sizes ----

  ghost predicate Positive(bs: seq<Block>) {
    forall i :: 0 <= i < |bs| ==> bs[i].size > 0
  }

  /** A request that align_up wraps to 0, met by a first free block that is large enough to be cut:
      the cut comes after no byte at all. */
  predicate WrappedCut(bs: seq<Block>, n: word) {
    var i := FirstFitFrom(bs, 0, 0);
    n > WORD - 8 && i < |bs| && bs[i].size >= MIN_BLOCK
  }

  lemma SplicePositive(bs: seq<Block>, i: nat, j: nat, mid: seq<Block>)
    requires Positive(bs) && i <= j <= |bs|
    ensures Positive(Splice(bs, i, j, mid)) <==> Positive(mid)
  {
    var cs := Splice(bs, i, j, mid);
    assert forall k :: 0 <= k < |mid| ==> cs[i + k] == mid[k];
  }

  lemma CarvePositive(b: Block, size: int)
    requires 0 < b.size && 0 <= size <= b.size
    ensures Positive(Carve(b, size)) <==> size > 0 || b.size < MIN_BLOCK
  {
    assert size == 0 && b.size >= MIN_BLOCK ==> Carve(b, size)[0].size == 0;
  }

  /** kmalloc makes a block of size 0 exactly when the request wraps and the first free block can be cut. */
  lemma MallocPositiveExact(bs: seq<Block>, start: int, end: int, n: word)
    requires HeapInv(bs, start, end) && Positive(bs)
    ensures Positive(Malloc(bs, n).0) <==> !WrappedCut(bs, n)
  {
    hide AlignUp;
    AlignTo8(n);
    var i := FirstFitFrom(bs, 0, AlignUp(n, 8));
    if n != 0 && i < |bs| {
      assert GoodBlock(bs[i], start, end) by {
        Geometry(bs, start, end);
      }
      MallocIsSplice(bs, n);
      SplicePositive(bs, i, i + 1, Carve(bs[i].(used := true), AlignUp(n, 8)));
      CarvePositive(bs[i].(used := true), AlignUp(n, 8));
    }
  }

  /** kfree never does. */
  lemma FreePositive(bs: seq<Block>, start: int, end: int, p: int)
    requires Tiled(bs, start, end) && Positive(bs)
    ensures Positive(Free(bs, p))
  {
    if Live(bs, p) {
      var lo, hi := FreeIsSplice(bs, start, end, p);
      Stretch(bs, start, end, lo, hi);
      SplicePositive(bs, lo, hi, [Whole(bs, lo, hi, end, false)]);
    }
  }

  /** Nor does krealloc of a live payload, whatever the new size. */
  lemma ReallocPositive(bs: seq<Block>, start: int, end: int, p: int, n: word)
    requires HeapInv(bs, start, end) && Positive(bs) && Live(bs, p) && p != 0 && n != 0
    ensures Positive(Realloc(bs, p, n).0)
  {
    hide AlignUp, Realloc, Malloc, Free, Split, Merge, Tiled, Coalesced;
    var i, size := LiveIndex(bs, p), AlignUp(n, 8);
    AlignTo8(n);
    ReallocCases(bs, p, n);
    if size <= bs[i].size {
    } else if CanGrow(bs, i, size) {
      var w := Whole(bs, i, i + 2, end, true);
      GrowIsSplice(bs, start, end, i, size);
      SplicePositive(bs, i, i + 2, Carve(w, size));
      CarvePositive(w, size);
    } else if Malloc(bs, size).1 != 0 {
      MallocPositiveExact(bs, start, end, size);
      MovedReplacesOne(bs, start, end, p, size);
      FreePositive(Malloc(bs, size).0, start, end, p);
    }
  }

  /** The calls that cut a block after no byte. */
  predicate CutsAtZero(bs: seq<Block>, op: Op) {
    !op.Release? && (op.Resize? ==> op.p == 0) && WrappedCut(bs, op.n)
  }

  lemma StepPositiveExact(s: State, op: Op, start: int, end: int)
    requires Good(s, start, end) && Legal(s, op) && Positive(s.blocks)
    ensures Positive(Step(s, op).blocks) <==> !CutsAtZero(s.blocks, op)
  {
    hide Malloc, Free, Realloc, WrappedCut, Books, Accounts;
    match op
    case Alloc(n) => AllocPositive(s, start, end, n);
    case Release(p) => FreePositive(s.blocks, start, end, p);
    case Resize(p, n) =>
      if p == 0 {
        AllocPositive(s, start, end, n);
      } else if n == 0 {
        FreePositive(s.blocks, start, end, p);
      } else {
        ReallocPositive(s.blocks, start, end, p, n);
      }
  }

  lemma AllocPositive(s: State, start: int, end: int, n: word)
    requires HeapInv(s.blocks, start, end) && Positive(s.blocks)
    ensures Positive(StepAlloc(s, n).blocks) <==> !WrappedCut(s.blocks, n)
  {
    MallocPositiveExact(s.blocks, start, end, n);
    if n != 0 {
      MallocComplete(s.blocks, start, end, n);
    }
  }

  /** In every state of the run all sizes are positive. */
  ghost predicate AlwaysPositive(s: State, ops: seq<Op>)
    requires LegalRun(s, ops)
    decreases |ops|
  {
    Positive(s.blocks) && (|ops| > 0 ==> AlwaysPositive(Step(s, ops[0]), ops[1..]))
  }

  ghost predicate NeverCutsAtZero(s: State, ops: seq<Op>)
    requires LegalRun(s, ops)
    decreases |ops|
  {
    |ops| > 0 ==> !CutsAtZero(s.blocks, ops[0]) && NeverCutsAtZero(Step(s, ops[0]), ops[1..])
  }

  /** Over every run: all sizes stay positive if and only if no call cuts a block after no byte. */
  lemma {:induction false} RunPositiveExact(s: State, ops: seq<Op>, start: int, end: int)
    requires Good(s, start, end) && LegalRun(s, ops) && Positive(s.blocks)
    ensures AlwaysPositive(s, ops) <==> NeverCutsAtZero(s, ops)
    decreases |ops|
  {
    hide Step, Good, Legal, CutsAtZero, Positive;
    if |ops| > 0 {
      StepGood(s, ops[0], start, end);
      StepPositiveExact(s, ops[0], start, end);
      if !CutsAtZero(s.blocks, ops[0]) {
        RunPositiveExact(Step(s, ops[0]), ops[1..], start, end);
      }
    }
  }

  predicate Unwrapped(op: Op) {
    op.Release? || op.n <= WORD - 8
  }

  lemma {:induction false} UnwrappedNeverCuts(s: State, ops: seq<Op>)
    requires LegalRun(s, ops) && forall op :: op in ops ==> Unwrapped(op)
    ensures NeverCutsAtZero(s, ops)
    decreases |ops|
  {
    if |ops| > 0 {
      assert ops[0] in ops && forall op :: op in ops[1..] ==> op in ops;
      UnwrappedNeverCuts(Step(s, ops[0]), ops[1..]);
    }
  }

  lemma {:induction false} LastPositive(s: State, ops: seq<Op>)
    requires LegalRun(s, ops) && AlwaysPositive(s, ops)
    ensures Positive(Run(s, ops).blocks)
    decreases |ops|
  {
    if |ops| > 0 {
      LastPositive(Step(s, ops[0]), ops[1..]);
    }
  }

  /** From heap_init on, with at least 24 bytes and no request above 2^32 - 8, every block size is a
      positive multiple of 8 after every run. */
  lemma SizesPositive(ops: seq<Op>, start: int, end: int)
    requires 8 <= start && start % 8 == 0 && end % 8 == 0 && start + MIN_BLOCK <= end <= WORD - 8
    requires LegalRun(Init(start, end), ops) && forall op :: op in ops ==> Unwrapped(op)
    ensures forall b :: b in Run(Init(start, end), ops).blocks ==> b.size > 0 && b.size % 8 == 0
  {
    var s, bs := Init(start, end), Run(Init(start, end), ops).blocks;
    InitGood(start, end);
    UnwrappedNeverCuts(s, ops);
    RunPositiveExact(s, ops, start, end);
    LastPositive(s, ops);
    RunGood(s, ops, start, end);
    Geometry(bs, start, end);
    assert forall b :: b in bs ==> GoodBlock(b, start, end);
  }

  /** A concrete call that makes a block of size 0: one kilobyte of heap, kmalloc(2^32 - 1). */
  lemma ConcreteWrappedCut()
    ensures Malloc(Init(1024, 2048).blocks, 0xFFFF_FFFF) == ([Block(1024, 0, true), Block(1040, 992, false)], 1040)
    ensures WrappedCut(Init(1024, 2048).blocks, 0xFFFF_FFFF)
  {
    hide AlignUp;
    AlignTo8(0xFFFF_FFFF);
    var b := Init(1024, 2048).blocks;
    assert b == [Block(1024, 1008, false)] && FirstFitFrom(b, 0, 0) == 0;
    assert Split(b, 0, 0) == [Block(1024, 0, false), Block(1040, 992, false)];
    assert SetUsed(Split(b, 0, 0), 0, true) == [Block(1024, 0, true), Block(1040, 992, false)];
  }

  // ---- The used_size counter ----

  ghost predicate CounterRight(s: State) {
    s.usedSize == UsedSum(s.blocks)
  }

  /** The calls that grow a payload in place: the test krealloc itself makes. */
  predicate GrowsInPlace(bs: seq<Block>, op: Op) {
    && op.Resize? && op.p != 0 && op.n != 0 && LiveIndex(bs, op.p) < |bs|
    && CanGrow(bs, LiveIndex(bs, op.p), AlignUp(op.n, 8))
  }

  /** Only those move the total that used_size misses, by less than 2^32. */
  lemma GrownMoves(s: State, op: Op, start: int, end: int)
    requires Good(s, start, end) && Legal(s, op)
    ensures var d := Step(s, op).grown - s.grown;
            if GrowsInPlace(s.blocks, op) then 0 < d < WORD else d == 0
  {
    hide AlignUp, Malloc, Free, Realloc, Books, Accounts, EightByteSplit;
    if op.Resize? && op.p != 0 && op.n != 0 {
      ResizeMoves(s, op.p, op.n, start, end);
    }
  }

  lemma ResizeMoves(s: State, p: int, n: word, start: int, end: int)
    requires HeapInv(s.blocks, start, end) && Live(s.blocks, p) && p != 0 && n != 0
    ensures var d := StepResize(s, p, n).grown - s.grown;
            if CanGrow(s.blocks, LiveIndex(s.blocks, p), AlignUp(n, 8)) then 0 < d < WORD else d == 0
  {
    hide AlignUp, Malloc, Free, Realloc, Split, Merge, LiveIndex;
    var bs, i, size := s.blocks, LiveIndex(s.blocks, p), AlignUp(n, 8);
    AlignTo8(n);
    ReallocCases(bs, p, n);
    if CanGrow(bs, i, size) {
      GrowReplacesOne(bs, start, end, p, size);
      LiveSizeBound(bs, start, end, p);
      LiveSizeBound(Realloc(bs, p, n).0, start, end, p);
    } else if size > bs[i].size && Malloc(bs, size).1 != 0 {
      MovedReplacesOne(bs, start, end, p, size);
      MallocAddsOne(bs, start, end, size);
      assert Malloc(bs, size).1 != p;
    }
  }

  lemma LiveSizeBound(bs: seq<Block>, start: int, end: int, p: int)
    requires HeapInv(bs, start, end) && Live(bs, p)
    ensures 0 <= LiveBlock(bs, p).size < WORD
  {
    Geometry(bs, start, end);
    assert GoodBlock(LiveBlock(bs, p), start, end);
  }

  /** A right counter stays right exactly when the call does not grow a payload in place. */
  lemma CounterExact(s: State, op: Op, start: int, end: int)
    requires Good(s, start, end) && Legal(s, op) && CounterRight(s)
    ensures CounterRight(Step(s, op)) <==> !GrowsInPlace(s.blocks, op)
  {
    hide Step, GrowsInPlace, UsedSum, Legal, Books;
    StepGood(s, op, start, end);
    TallyExact(s, start, end);
    TallyExact(Step(s, op), start, end);
    GrownMoves(s, op, start, end);
  }

  ghost predicate AlwaysRight(s: State, ops: seq<Op>)
    requires LegalRun(s, ops)
    decreases |ops|
  {
    CounterRight(s) && (|ops| > 0 ==> AlwaysRight(Step(s, ops[0]), ops[1..]))
  }

  ghost predicate NeverGrowsInPlace(s: State, ops: seq<Op>)
    requires LegalRun(s, ops)
    decreases |ops|
  {
    |ops| > 0 ==> !GrowsInPlace(s.blocks, ops[0]) && NeverGrowsInPlace(Step(s, ops[0]), ops[1..])
  }

  lemma {:induction false} LastRight(s: State, ops: seq<Op>)
    requires LegalRun(s, ops) && AlwaysRight(s, ops)
    ensures CounterRight(Run(s, ops))
    decreases |ops|
  {
    if |ops| > 0 {
      LastRight(Step(s, ops[0]), ops[1..]);
    }
  }

  lemma InitRight(start: int, end: int)
    ensures CounterRight(Init(start, end))
  {
    var bs := Init(start, end).blocks;
    assert bs[1..] == [] && UsedSum(bs[1..]) == 0;
  }

  /** Over every run from heap_init: used_size is the sum of the live sizes in every state if and only
      if no call of the run grows a payload in place. */
  lemma CounterOverRuns(ops: seq<Op>, start: int, end: int)
    requires 8 <= start && start % 8 == 0 && end % 8 == 0 && start + HEADER <= end <= WORD - 8
    requires LegalRun(Init(start, end), ops)
    ensures AlwaysRight(Init(start, end), ops) <==> NeverGrowsInPlace(Init(start, end), ops)
  {
    InitGood(start, end);
    InitRight(start, end);
    CounterRun(Init(start, end), ops, start, end);
  }

  /** A concrete run that makes the counter wrong: one kilobyte of heap, kmalloc(8), then krealloc to
      24 in place. Both calls succeed and are legal; used_size stays 8 while 24 bytes are live. */
  lemma ConcreteWrongCounter()
    ensures var ops := [Alloc(8), Resize(1040, 24)];
            && LegalRun(Init(1024, 2048), ops) && !NeverGrowsInPlace(Init(1024, 2048), ops)
            && var t := Run(Init(1024, 2048), ops);
               t.usedSize == 8 && UsedSum(t.blocks) == 24 && t.ledger == map[1040 := 24]
  {
    hide AlignUp, Malloc, Realloc, UsedSum, LiveIndex, EightByteSplit;
    var s0, s1, op := Init(1024, 2048), AfterFirst(), Resize(1040, 24);
    FirstAlloc();
    SecondResize();
    var s2 := Step(s1, op);
    assert [Alloc(8), op][1..] == [op] && [op][1..] == [];
    assert LegalRun(s2, []) && Run(s2, []) == s2;
    assert LegalRun(s1, [op]) && Run(s1, [op]) == s2;
  }

  function AfterFirst(): State {
    State([Block(1024, 8, true), Block(1048, 984, false)], map[1040 := 8], 8, 0)
  }

  lemma FirstAlloc()
    ensures Step(Init(1024, 2048), Alloc(8)) == AfterFirst()
    ensures !GrowsInPlace(Init(1024, 2048).blocks, Alloc(8))
  {
    hide AlignUp, Malloc;
    ConcreteEightByteSplit();
    assert LiveIndex(AfterFirst().blocks, 1040) == 0;
  }

  lemma SecondResize()
    ensures var s, op := AfterFirst(), Resize(1040, 24);
            && Legal(s, op) && GrowsInPlace(s.blocks, op)
            && Step(s, op) == State([Block(1024, 24, true), Block(1064, 968, false)], map[1040 := 24], 8, 16)
    ensures UsedSum([Block(1024, 24, true), Block(1064, 968, false)]) == 24
  {
    hide AlignUp;
    AlignTo8(24);
    var bs, cs := AfterFirst().blocks, [Block(1024, 24, true), Block(1064, 968, false)];
    assert LiveIndex(bs, 1040) == 0 && LiveIndex(cs, 1040) == 0;
    assert Merge(bs, 0) == [Block(1024, 1008, true)];
    assert Split([Block(1024, 1008, true)], 0, 24) == cs;
    ReallocCases(bs, 1040, 24);
    UsedSumOfPair(cs[0], cs[1]);
  }

  lemma {:induction false} CounterRun(s: State, ops: seq<Op>, start: int, end: int)
    requires Good(s, start, end) && LegalRun(s, ops) && CounterRight(s)
    ensures AlwaysRight(s, ops) <==> NeverGrowsInPlace(s, ops)
    decreases |ops|
  {
    hide Step, Good, Legal, GrowsInPlace, CounterRight;
    if |ops| > 0 {
      StepGood(s, ops[0], start, end);
      CounterExact(s, ops[0], start, end);
      if !GrowsInPlace(s.blocks, ops[0]) {
        CounterRun(Step(s, ops[0]), ops[1..], start, end);
      }
    }
  }
}
