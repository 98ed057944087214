/** Whole runs of the heap, seen by a client that keeps its own ledger of what it holds. */
module HeapRuns {
  import opened Words
  import opened BlockList
  import opened HeapLaws

  /** The calls a client can make. */
  datatype Op = Alloc(n: word) | Release(p: int) | Resize(p: int, n: word)

  /** The block list, the client's ledger (payload address to requested size), the used_size
      counter, and the total by which krealloc has grown payloads in place. */
  datatype State = State(blocks: seq<Block>, ledger: map<int, word>, usedSize: word, grown: int)

  /** The heap as heap_init leaves it. */
  function Init(start: int, end: int): State {
    State([Block(start, end - start - HEADER, false)], map[], 0, 0)
  }

  /** The size the live block at p has, 0 if there is none. */
  ghost function SizeAt(bs: seq<Block>, p: int): int {
    if Live(bs, p) then LiveBlock(bs, p).size else 0
  }

  ghost function StepAlloc(s: State, n: word): State {
    var (bs, r) := Malloc(s.blocks, n);
    if r == 0 then s
    else s.(blocks := bs, ledger := s.ledger[r := n], usedSize := (s.usedSize + SizeAt(bs, r)) % WORD)
  }

  ghost function StepRelease(s: State, p: int): State {
    if !Live(s.blocks, p) then s
    else s.(blocks := Free(s.blocks, p), ledger := s.ledger - {p},
            usedSize := (s.usedSize - SizeAt(s.blocks, p)) % WORD)
  }

  /** krealloc of a live payload to a non-zero size. Growing in place adds nothing to used_size. */
  ghost function StepResize(s: State, p: int, n: word): State
    requires Live(s.blocks, p) && p != 0 && n != 0
  {
    var (bs, r) := Realloc(s.blocks, p, n);
    if r == 0 then s else Resized(s, p, n, bs, r)
  }

  ghost function Resized(s: State, p: int, n: word, bs: seq<Block>, r: int): State {
    if r == p then
      s.(blocks := bs, ledger := s.ledger[p := n], grown := s.grown + SizeAt(bs, p) - SizeAt(s.blocks, p))
    else
      s.(blocks := bs, ledger := (s.ledger - {p})[r := n],
         usedSize := (s.usedSize + SizeAt(bs, r) - SizeAt(s.blocks, p)) % WORD)
  }

  /** krealloc may be given NULL, a live payload, or (with size 0) what kfree may be given; the
      eight-byte in-place split, after which there is no list any more, is excluded. */
  ghost predicate Legal(s: State, op: Op) {
    op.Resize? && op.p != 0 && op.n != 0 ==> Live(s.blocks, op.p) && !EightByteSplit(s.blocks, op.p, op.n)
  }

  ghost function Step(s: State, op: Op): State
    requires Legal(s, op)
  {
    match op
    case Alloc(n) => StepAlloc(s, n)
    case Release(p) => StepRelease(s, p)
    case Resize(p, n) =>
      if p == 0 then StepAlloc(s, n)
      else if n == 0 then StepRelease(s, p)
      else StepResize(s, p, n)
  }

  ghost predicate LegalRun(s: State, ops: seq<Op>)
    decreases |ops|
  {
    |ops| > 0 ==> Legal(s, ops[0]) && LegalRun(Step(s, ops[0]), ops[1..])
  }

  ghost function Run(s: State, ops: seq<Op>): State
    requires LegalRun(s, ops)
    decreases |ops|
  {
    if |ops| == 0 then s else Run(Step(s, ops[0]), ops[1..])
  }

  /** The ledger lists exactly the live payloads, and each holds what was asked for. */
  ghost predicate Books(bs: seq<Block>, ledger: map<int, word>) {
    && (forall p :: p in ledger <==> Live(bs, p))
    && forall p :: p in ledger && ledger[p] <= WORD - 8 ==> ledger[p] <= SizeAt(bs, p)
  }

  /** used_size is the sum of the live sizes less the growth it never saw. */
  ghost predicate Accounts(s: State) {
    s.usedSize == (UsedSum(s.blocks) - s.grown) % WORD && s.grown >= 0
  }

  ghost predicate Good(s: State, start: int, end: int) {
    HeapInv(s.blocks, start, end) && Books(s.blocks, s.ledger) && Accounts(s)
  }

  lemma InitGood(start: int, end: int)
    requires 8 <= start && start % 8 == 0 && end % 8 == 0 && start + HEADER <= end <= WORD - 8
    ensures Good(Init(start, end), start, end)
  {
    Sum8(end, start);
    Sum8(end - start, HEADER);
  }

  /** The live set decides liveness and sizes. */
  lemma LiveFromUsed(bs: seq<Block>, start: int, end: int, p: int)
    requires Tiled(bs, start, end)
    ensures Live(bs, p) <==> exists b :: b in UsedBlocks(bs) && b.Payload() == p
    ensures forall b :: b in UsedBlocks(bs) && b.Payload() == p ==> SizeAt(bs, p) == b.size
  {
    LiveIffUsed(bs, p);
    forall b | b in UsedBlocks(bs) && b.Payload() == p ensures SizeAt(bs, p) == b.size {
      LiveBlockIs(bs, start, end, b);
    }
  }

  /** If the live set loses the block at p (or nothing) and gains the one at r (or nothing), the
      other payloads stay as they were. */
  lemma OthersStay(bs: seq<Block>, cs: seq<Block>, start: int, end: int, gone: set<Block>, come: set<Block>, q: int)
    requires Tiled(bs, start, end) && Tiled(cs, start, end)
    requires UsedBlocks(cs) == UsedBlocks(bs) - gone + come
    requires forall b :: b in gone || b in come ==> b.Payload() != q
    ensures Live(cs, q) <==> Live(bs, q)
    ensures SizeAt(cs, q) == SizeAt(bs, q)
  {
    LiveFromUsed(bs, start, end, q);
    LiveFromUsed(cs, start, end, q);
    if b :| b in UsedBlocks(bs) && b.Payload() == q {
      assert b in UsedBlocks(cs);
    }
  }

  lemma AllocGood(s: State, start: int, end: int, n: word)
    requires Good(s, start, end)
    ensures Good(StepAlloc(s, n), start, end)
  {
    hide Malloc, AlignUp, UsedSum, LiveIndex;
    var (bs, r) := Malloc(s.blocks, n);
    if r != 0 {
      MallocAddsOne(s.blocks, start, end, n);
      PayloadLongEnough(s.blocks, start, end, n);
      MallocSum(s.blocks, start, end, n);
      AllocBooks(s, bs, start, end, r, n);
      WrapAdd(UsedSum(s.blocks) - s.grown, SizeAt(bs, r));
      assert UsedSum(bs) - s.grown == (UsedSum(s.blocks) - s.grown) + SizeAt(bs, r);
    }
  }

  lemma AllocBooks(s: State, bs: seq<Block>, start: int, end: int, r: int, n: word)
    requires Good(s, start, end) && HeapInv(bs, start, end) && Live(bs, r)
    requires UsedBlocks(bs) == UsedBlocks(s.blocks) + {LiveBlock(bs, r)}
    requires n <= WORD - 8 ==> n <= LiveBlock(bs, r).size
    ensures Books(bs, s.ledger[r := n])
  {
    forall q | q != r ensures Live(bs, q) <==> Live(s.blocks, q) ensures SizeAt(bs, q) == SizeAt(s.blocks, q) {
      OthersStay(s.blocks, bs, start, end, {}, {LiveBlock(bs, r)}, q);
    }
  }

  lemma ReleaseGood(s: State, start: int, end: int, p: int)
    requires Good(s, start, end)
    ensures Good(StepRelease(s, p), start, end)
  {
    if Live(s.blocks, p) {
      FreeRemovesOne(s.blocks, start, end, p);
      FreeSum(s.blocks, start, end, p);
      ReleaseBooks(s, Free(s.blocks, p), start, end, p);
      WrapAdd(UsedSum(s.blocks) - s.grown, -SizeAt(s.blocks, p));
    }
  }

  lemma ReleaseBooks(s: State, bs: seq<Block>, start: int, end: int, p: int)
    requires Good(s, start, end) && HeapInv(bs, start, end) && Live(s.blocks, p) && !Live(bs, p)
    requires UsedBlocks(bs) == UsedBlocks(s.blocks) - {LiveBlock(s.blocks, p)}
    ensures Books(bs, s.ledger - {p})
  {
    forall q | q != p ensures Live(bs, q) <==> Live(s.blocks, q) ensures SizeAt(bs, q) == SizeAt(s.blocks, q) {
      OthersStay(s.blocks, bs, start, end, {LiveBlock(s.blocks, p)}, {}, q);
    }
  }

  lemma WrapAdd(x: int, d: int)
    ensures (x % WORD + d) % WORD == (x + d) % WORD
  {
  }

  lemma ResizeGood(s: State, start: int, end: int, p: int, n: word)
    requires Good(s, start, end) && Live(s.blocks, p) && p != 0 && n != 0
    ensures Good(StepResize(s, p, n), start, end)
  {
    var (bs, r) := Realloc(s.blocks, p, n);
    ReallocReplacesOne(s.blocks, start, end, p, n);
    if r != 0 {
      ReallocSum(s.blocks, start, end, p, n);
      ResizedGood(s, bs, start, end, p, r, n);
    }
  }

  lemma ResizedGood(s: State, bs: seq<Block>, start: int, end: int, p: int, r: int, n: word)
    requires Good(s, start, end) && Live(s.blocks, p) && p != 0 && n != 0 && r != 0
    requires HeapInv(bs, start, end)
    requires ReplacedBy(s.blocks, bs, p, r, AlignUp(n, 8))
    requires UsedSum(bs) == UsedSum(s.blocks) + SizeAt(bs, r) - SizeAt(s.blocks, p)
    requires r == p ==> SizeAt(s.blocks, p) <= SizeAt(bs, r)
    ensures Good(Resized(s, p, n, bs, r), start, end)
  {
    hide AlignUp, UsedSum, Books, SizeAt, HeapInv;
    AlignTo8(n);
    ResizeBooks(s, bs, start, end, p, r, n);
    var t, d := Resized(s, p, n, bs, r), SizeAt(bs, r) - SizeAt(s.blocks, p);
    if r == p {
      assert UsedSum(t.blocks) - t.grown == UsedSum(s.blocks) - s.grown;
    } else {
      WrapAdd(UsedSum(s.blocks) - s.grown, d);
      assert UsedSum(t.blocks) - t.grown == (UsedSum(s.blocks) - s.grown) + d;
    }
  }

  lemma ResizeBooks(s: State, bs: seq<Block>, start: int, end: int, p: int, r: int, n: word)
    requires Good(s, start, end) && HeapInv(bs, start, end) && Live(s.blocks, p)
    requires ReplacedBy(s.blocks, bs, p, r, AlignUp(n, 8)) && (n <= WORD - 8 ==> n <= AlignUp(n, 8))
    ensures Books(bs, (s.ledger - {p})[r := n])
    ensures r == p ==> (s.ledger - {p})[r := n] == s.ledger[p := n]
  {
    hide AlignUp, LiveIndex, Tiled, Coalesced, UsedSum;
    var l := (s.ledger - {p})[r := n];
    if r != p {
      MovedAway(s.blocks, bs, start, end, p, r);
    }
    forall q ensures (q in l <==> Live(bs, q)) && (q in l && l[q] <= WORD - 8 ==> l[q] <= SizeAt(bs, q)) {
      if q != p && q != r {
        OthersStay(s.blocks, bs, start, end, {LiveBlock(s.blocks, p)}, {LiveBlock(bs, r)}, q);
        assert q in l <==> q in s.ledger;
      }
    }
  }

  /** A payload that has moved is no longer live where it was. */
  lemma MovedAway(bs: seq<Block>, cs: seq<Block>, start: int, end: int, p: int, r: int)
    requires Tiled(bs, start, end) && Tiled(cs, start, end) && Live(bs, p) && Live(cs, r) && r != p
    requires UsedBlocks(cs) == UsedBlocks(bs) - {LiveBlock(bs, p)} + {LiveBlock(cs, r)}
    ensures !Live(cs, p)
  {
    LiveFromUsed(cs, start, end, p);
    forall b | b in UsedBlocks(cs) ensures b.Payload() != p {
      if b in UsedBlocks(bs) && b.Payload() == p {
        LiveBlockIs(bs, start, end, b);
      }
    }
  }

  lemma ReallocSum(bs: seq<Block>, start: int, end: int, p: int, n: word)
    requires HeapInv(bs, start, end) && Live(bs, p) && p != 0 && n != 0 && Realloc(bs, p, n).1 != 0
    ensures var (bs', r) := Realloc(bs, p, n);
            UsedSum(bs') == UsedSum(bs) + SizeAt(bs', r) - SizeAt(bs, p)
  {
    hide AlignUp, Realloc, Malloc, Free, Split, Merge;
    var size := AlignUp(n, 8);
    AlignTo8(n);
    ReallocCases(bs, p, n);
    if size <= LiveBlock(bs, p).size {
    } else if CanGrow(bs, LiveIndex(bs, p), size) {
      GrowSum(bs, start, end, p, size);
    } else {
      MallocSum(bs, start, end, size);
      MovedReplacesOne(bs, start, end, p, size);
      FreeSum(Malloc(bs, size).0, start, end, p);
    }
  }

  lemma StepGood(s: State, op: Op, start: int, end: int)
    requires Good(s, start, end) && Legal(s, op)
    ensures Good(Step(s, op), start, end)
  {
    match op
    case Alloc(n) => AllocGood(s, start, end, n);
    case Release(p) => ReleaseGood(s, start, end, p);
    case Resize(p, n) =>
      if p == 0 {
        AllocGood(s, start, end, n);
      } else if n == 0 {
        ReleaseGood(s, start, end, p);
      } else {
        ResizeGood(s, start, end, p, n);
      }
  }

  /** Over every run the blocks tile the heap, no two free blocks are neighbours, the ledger is the
      live set, and used_size is the live total less the in-place growth. */
  lemma {:induction false} RunGood(s: State, ops: seq<Op>, start: int, end: int)
    requires Good(s, start, end) && LegalRun(s, ops)
    ensures Good(Run(s, ops), start, end)
    decreases |ops|
  {
    if |ops| > 0 {
      StepGood(s, ops[0], start, end);
      RunGood(Step(s, ops[0]), ops[1..], start, end);
    }
  }

  /** No permanent fragmentation: once everything the client holds is freed, in whatever order, the
      heap is the single block heap_init made. */
  lemma EverythingFreed(ops: seq<Op>, start: int, end: int)
    requires 8 <= start && start % 8 == 0 && end % 8 == 0 && start + HEADER <= end <= WORD - 8
    requires LegalRun(Init(start, end), ops)
    ensures var s := Run(Init(start, end), ops);
            s.ledger == map[] <==> s.blocks == Init(start, end).blocks
  {
    InitGood(start, end);
    RunGood(Init(start, end), ops, start, end);
    var s := Run(Init(start, end), ops);
    NothingLiveOneBlock(s.blocks, start, end);
    if s.ledger == map[] {
      forall b | b in UsedBlocks(s.blocks) ensures false {
        LiveBlockIs(s.blocks, start, end, b);
      }
    } else if s.blocks == Init(start, end).blocks {
      forall p ensures p !in s.ledger {
        LiveIffUsed(s.blocks, p);
      }
    }
  }

  /** Over every run, each payload the client holds is live, 8-aligned, inside the heap and away from
      every header, and as long as asked unless the request wrapped. */
  lemma LedgerInside(ops: seq<Op>, start: int, end: int, p: int)
    requires 8 <= start && start % 8 == 0 && end % 8 == 0 && start + HEADER <= end <= WORD - 8
    requires LegalRun(Init(start, end), ops) && p in Run(Init(start, end), ops).ledger
    ensures var s := Run(Init(start, end), ops);
            && Live(s.blocks, p) && p % 8 == 0 && start + HEADER <= p
            && var size := LiveBlock(s.blocks, p).size;
            && p + size <= end && (s.ledger[p] <= WORD - 8 ==> s.ledger[p] <= size)
            && forall k :: 0 <= k < |s.blocks| ==> p + size <= s.blocks[k].addr || s.blocks[k].Payload() <= p
  {
    InitGood(start, end);
    RunGood(Init(start, end), ops, start, end);
    PayloadInside(Run(Init(start, end), ops).blocks, start, end, p);
  }

  /** Over every run, no two payloads the client holds meet, whatever was asked for them. */
  lemma LedgerIsolated(ops: seq<Op>, start: int, end: int, p: int, q: int)
    requires 8 <= start && start % 8 == 0 && end % 8 == 0 && start + HEADER <= end <= WORD - 8
    requires LegalRun(Init(start, end), ops) && p != q
    requires p in Run(Init(start, end), ops).ledger && q in Run(Init(start, end), ops).ledger
    ensures var bs := Run(Init(start, end), ops).blocks;
            && Live(bs, p) && Live(bs, q)
            && (p + LiveBlock(bs, p).size <= q - HEADER || q + LiveBlock(bs, q).size <= p - HEADER)
  {
    InitGood(start, end);
    RunGood(Init(start, end), ops, start, end);
    PayloadsIsolated(Run(Init(start, end), ops).blocks, start, end, p, q);
  }

  /** In any reachable state used_size is the sum of the live sizes exactly when the growth it missed
      so far is a multiple of 2^32, and then no kfree can make it underflow. */
  lemma TallyExact(s: State, start: int, end: int)
    requires Good(s, start, end)
    ensures s.usedSize == UsedSum(s.blocks) <==> s.grown % WORD == 0
    ensures s.usedSize == UsedSum(s.blocks) ==> forall p :: SizeAt(s.blocks, p) <= s.usedSize
  {
    hide UsedSum, SizeAt, Books;
    UsedSumBound(s.blocks, start, end);
    forall p ensures SizeAt(s.blocks, p) <= UsedSum(s.blocks) {
      SizeWithinSum(s.blocks, start, end, p);
    }
  }

  lemma SizeWithinSum(bs: seq<Block>, start: int, end: int, p: int)
    requires HeapInv(bs, start, end)
    ensures SizeAt(bs, p) <= UsedSum(bs)
  {
    hide Tiled, Coalesced;
    UsedSumBound(bs, start, end);
    if Live(bs, p) {
      var i := LiveIndex(bs, p);
      Geometry(bs, start, end);
      UsedSumConcat(bs[..i], bs[i..]);
      UsedSumNonNegative(bs[..i], start, end);
      UsedSumNonNegative(bs[i + 1..], start, end);
      assert bs == bs[..i] + bs[i..];
      assert bs[i..][1..] == bs[i + 1..];
    }
  }

  lemma {:induction false} UsedSumNonNegative(bs: seq<Block>, start: int, end: int)
    requires forall k :: 0 <= k < |bs| ==> GoodBlock(bs[k], start, end)
    ensures UsedSum(bs) >= 0
    decreases |bs|
  {
    if |bs| > 0 {
      UsedSumNonNegative(bs[1..], start, end);
    }
  }

  /** The list depends only on what is live: two runs that leave the same live blocks, at whatever
      cost and in whatever order, leave the same heap. */
  lemma HistoryForgotten(ops: seq<Op>, ops': seq<Op>, start: int, end: int)
    requires 8 <= start && start % 8 == 0 && end % 8 == 0 && start + HEADER <= end <= WORD - 8
    requires LegalRun(Init(start, end), ops)
    requires LegalRun(Init(start, end), ops')
    requires UsedBlocks(Run(Init(start, end), ops).blocks) == UsedBlocks(Run(Init(start, end), ops').blocks)
    ensures Run(Init(start, end), ops).blocks == Run(Init(start, end), ops').blocks
  {
    InitGood(start, end);
    RunGood(Init(start, end), ops, start, end);
    RunGood(Init(start, end), ops', start, end);
    Canonical(Run(Init(start, end), ops).blocks, Run(Init(start, end), ops').blocks, start, end);
  }
}
