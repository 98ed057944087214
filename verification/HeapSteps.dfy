/** Proof steps between the headers in memory and the block list, one for each thing the heap's
    methods do. */
module HeapSteps {
  import opened Words
  import opened Memory
  import opened BlockList
  import opened HeapLaws
  import opened HeapRuns
  import opened Headers

  lemma InitBounds(start: word, size: word)
    requires 0 < start <= WORD - 8 && size >= HEADER
    ensures AlignUp(start, 8) >= 8 && AlignUp(start, 8) % 8 == 0
    ensures AlignDown(size, 8) >= HEADER && (AlignDown(size, 8) - HEADER) % 8 == 0
  {
    hide AlignUp, AlignDown;
    AlignTo8(start);
    AlignTo8(size);
  }

  /** A single free block over the whole heap. */
  lemma OneBlock(m: seq<byte>, start: int, end: int, b: Block)
    requires 8 <= start && start % 8 == 0 && end <= |m| && end <= WORD - 8
    requires b.addr == start && b.End() == end && !b.used && 0 <= b.size && b.size % 8 == 0
    requires Header(m, b, 0, 0)
    ensures WellFormed(m, start, end, [b]) && Coalesced([b]) && UsedSum([b]) == 0
  {
  }

  lemma SplitFirst(bs: seq<Block>, i: nat, size: int)
    requires i < |bs|
    ensures i < |Split(bs, i, size)| && Split(bs, i, size)[i].addr == bs[i].addr
  {
  }

  lemma SplitTooSmall(bs: seq<Block>, i: nat, size: int)
    requires i < |bs| && bs[i].size < size + MIN_BLOCK
    ensures Split(bs, i, size) == bs
  {
  }

  lemma NoneFound(m: seq<byte>, start: int, end: int, bs: seq<Block>, size: int)
    requires WellFormed(m, start, end, bs)
    requires var i := FirstFitFrom(bs, 0, size); i < |bs| ==> bs[i].addr == 0
    ensures FirstFitFrom(bs, 0, size) == |bs|
  {
    var i := FirstFitFrom(bs, 0, size);
    if i < |bs| {
      HeaderFacts(m, start, end, bs, i);
    }
  }

  lemma MallocFails(bs: seq<Block>, n: word)
    requires n == 0 || FirstFitFrom(bs, 0, AlignUp(n, 8)) == |bs|
    ensures Malloc(bs, n) == (bs, 0)
  {
  }

  /** Malloc's list, found where kmalloc leaves it. */
  lemma MallocFacts(bs: seq<Block>, start: int, end: int, i: nat, n: word, grown: int)
    requires HeapInv(bs, start, end) && n != 0 && i == FirstFitFrom(bs, 0, AlignUp(n, 8)) < |bs|
    ensures i < |Split(bs, i, AlignUp(n, 8))|
    ensures Malloc(bs, n) == (SetUsed(Split(bs, i, AlignUp(n, 8)), i, true), bs[i].Payload())
    ensures var bs' := Malloc(bs, n).0;
            && Inv(bs', start, end) && i < |bs'| && bs'[i].addr == bs[i].addr
            && ((UsedSum(bs) - grown) % WORD + bs'[i].size) % WORD == (UsedSum(bs') - grown) % WORD
  {
    hide AlignUp, UsedSum, LiveIndex, Carve, Splice, Tiled, Coalesced;
    AlignedBlock(bs, start, end, i);
    SplitFirst(bs, i, AlignUp(n, 8));
    var j, c := MallocKeepsInv(bs, start, end, n);
    MallocSum(bs, start, end, n);
    LiveIndexUnique(Malloc(bs, n).0, start, end, i);
    WrapAdd(UsedSum(bs) - grown, Malloc(bs, n).0[i].size);
  }

  /** The address kmalloc returns is a word, and not NULL. */
  lemma AddressFits(m: seq<byte>, start: int, end: int, bs: seq<Block>, i: nat, n: word)
    requires WellFormed(m, start, end, bs) && n != 0 && i == FirstFitFrom(bs, 0, AlignUp(n, 8)) < |bs|
    ensures Malloc(bs, n).1 == bs[i].Payload() && 0 < bs[i].Payload() < WORD
  {
    HeaderFacts(m, start, end, bs, i);
  }

  /** Setting block i's used byte, and nothing else. */
  lemma FlagSet(m: seq<byte>, m': seq<byte>, start: int, end: int, bs: seq<Block>, i: nat)
    requires WellFormed(m, start, end, bs) && i < |bs|
    requires SameOutside(m, m', bs[i].addr + USED, bs[i].addr + USED + 1) && ByteIs(m', bs[i].addr + USED, 1)
    ensures WellFormed(m', start, end, SetUsed(bs, i, true))
  {
    HeaderFacts(m, start, end, bs, i);
    FlagLinked(m, m', start, end, bs, i, true);
  }

  /** kmalloc writes only inside the free block it takes, and the header behind it. */
  lemma MallocKeeps(m: seq<byte>, m': seq<byte>, m1: seq<byte>, start: int, end: int, bs: seq<Block>, i: nat)
    requires Tiled(bs, start, end) && i < |bs| && !bs[i].used
    requires SameOutside(m, m', bs[i].addr, EditEnd(bs, i + 1, end))
    requires SameOutside(m', m1, bs[i].addr + USED, bs[i].addr + USED + 1)
    ensures Keeps(m, m1, UsedBlocks(bs)) && SameOutside(m, m1, start, end)
  {
    Stretch(bs, start, end, i, i + 1);
    if i + 1 < |bs| {
      Stretch(bs, start, end, i + 1, i + 2);
    }
    assert SameOutside(m, m1, bs[i].addr, EditEnd(bs, i + 1, end));
    EditKeeps(m, m1, start, end, bs, i, i + 1, UsedBlocks(bs));
  }

  lemma Aligned8(n: word)
    ensures AlignUp(n, 8) % 8 == 0
  {
    hide AlignUp;
    AlignTo8(n);
  }

  /** kfree's first half: block i's used byte and payload are zero. */
  lemma FreedLinked(m: seq<byte>, m1: seq<byte>, m2: seq<byte>, start: int, end: int, bs: seq<Block>, i: nat)
    requires WellFormed(m, start, end, bs) && i < |bs| && bs[i].used
    requires SameOutside(m, m1, bs[i].addr + USED, bs[i].addr + USED + 1) && ByteIs(m1, bs[i].addr + USED, 0)
    requires SameOutside(m1, m2, bs[i].Payload(), bs[i].End())
    ensures WellFormed(m2, start, end, SetUsed(bs, i, false)) && SetUsed(bs, i, false)[i] == bs[i].(used := false)
    ensures Keeps(m, m2, UsedBlocks(bs) - {bs[i]}) && SameOutside(m, m2, start, end)
    ensures UsedBlocks(SetUsed(bs, i, false)) == UsedBlocks(bs) - {bs[i]}
  {
    HeaderFacts(m, start, end, bs, i);
    FlagLinked(m, m2, start, end, bs, i, false);
    UsedOfRun(bs, i, i, i + 1);
    EditKeeps(m, m2, start, end, bs, i, i + 1, UsedBlocks(bs) - {bs[i]});
    ReplaceUsed(bs, start, end, i, i, i + 1, [bs[i].(used := false)]);
  }

  lemma KeepsTrans(m: seq<byte>, m1: seq<byte>, m2: seq<byte>, U: set<Block>, V: set<Block>)
    requires Keeps(m, m1, U) && Keeps(m1, m2, V) && U <= V
    ensures Keeps(m, m2, U)
  {
  }

  /** A zeroed payload stays zeroed in a memory that keeps it. */
  lemma ZeroKept(m: seq<byte>, m': seq<byte>, U: set<Block>, b: Block)
    requires Keeps(m, m', U) && b in U && Zeroed(m, b.Payload(), b.End())
    ensures Zeroed(m', b.Payload(), b.End())
  {
  }

  /** A live payload's header is in the heap, and says so. */
  lemma LiveHeader(m: seq<byte>, start: int, end: int, bs: seq<Block>, p: int)
    requires WellFormed(m, start, end, bs) && Live(bs, p)
    ensures 8 <= start <= p - HEADER && p + LiveBlock(bs, p).size <= end <= WORD - 8 && end <= |m|
    ensures LiveIndex(bs, p) < |bs| && LiveBlock(bs, p) == bs[LiveIndex(bs, p)] && 0 <= LiveBlock(bs, p).size
    ensures LiveBlock(bs, p).used && LiveBlock(bs, p).Payload() == p
    ensures Header(m, LiveBlock(bs, p), NextAddr(bs, LiveIndex(bs, p)), PrevAddr(bs, LiveIndex(bs, p)))
    ensures ByteIs(m, p - HEADER + USED, 1) && (p - HEADER) % WORD == p - HEADER
  {
    HeaderFacts(m, start, end, bs, LiveIndex(bs, p));
  }

  /** Free's list in terms of what kfree does, with its accounts. */
  lemma FreeFacts(bs: seq<Block>, start: int, end: int, p: int, grown: int)
    requires HeapInv(bs, start, end) && Live(bs, p)
    ensures var i := LiveIndex(bs, p);
            && i < |SetUsed(bs, i, false)| && Free(bs, p) == MergeAround(SetUsed(bs, i, false), i)
            && Inv(Free(bs, p), start, end) && !Live(Free(bs, p), p)
            && UsedBlocks(Free(bs, p)) == UsedBlocks(bs) - {bs[i]}
            && ((UsedSum(bs) - grown) % WORD - bs[i].size) % WORD == (UsedSum(Free(bs, p)) - grown) % WORD
  {
    FreeRemovesOne(bs, start, end, p);
    FreeSum(bs, start, end, p);
    WrapAdd(UsedSum(bs) - grown, -LiveBlock(bs, p).size);
  }

  lemma NothingToFree(bs: seq<Block>, p: int)
    requires !Live(bs, p)
    ensures Free(bs, p) == bs
  {
  }

  /** The sum of two neighbours' sizes and a header does not wrap. */
  lemma SumIsWord(x: int, y: int)
    requires 0 <= x && 0 <= y && x + HEADER + y < WORD
    ensures (x + HEADER + y) % WORD == x + HEADER + y
  {
  }

  // ---- krealloc in place ----

  /** Growing rewrites headers only: its own, the one it builds behind, and the `prev` after that. */
  lemma GrowKeeps(m: seq<byte>, m': seq<byte>, start: int, end: int, bs: seq<Block>, i: nat)
    requires Tiled(bs, start, end) && i + 1 < |bs| && bs[i].used && !bs[i + 1].used
    requires SameOutside(m, m', bs[i].addr, EditEnd(bs, i + 2, end))
    requires Same(m, m', bs[i].Payload(), bs[i].End())
    ensures Keeps(m, m', UsedBlocks(bs)) && SameOutside(m, m', start, end)
  {
    UsedOfRun(bs, i, i, i + 2);
    EditKeeps(m, m', start, end, bs, i, i + 2, UsedBlocks(bs) - {bs[i]});
  }

  /** The grown block with a remainder behind it. */
  lemma GrowSplitLinked(m: seq<byte>, m': seq<byte>, start: int, end: int, bs: seq<Block>, i: nat, size: int, rest: int)
    requires WellFormed(m, start, end, bs) && i + 1 < |bs| && bs[i].used && size % 8 == 0
    requires bs[i].size < size && 8 <= rest && size + HEADER + rest == bs[i].size + HEADER + bs[i + 1].size
    requires Header(m', bs[i].(size := size), bs[i].Payload() + size, PrevAddr(bs, i))
    requires Header(m', Block(bs[i].Payload() + size, rest, false), NextAddr(bs, i + 1), bs[i].addr)
    requires i + 2 < |bs| ==> Header(m', bs[i + 2], NextAddr(bs, i + 2), bs[i].Payload() + size)
    requires SameOutside(m, m', bs[i].addr, EditEnd(bs, i + 2, end))
    ensures WellFormed(m', start, end, Split(Merge(bs, i), i, size))
  {
    assert Fits(bs, i, end);
    GrowIsSplice(bs, start, end, i, size);
    CutLinked(m, m', start, end, bs, i, i + 2, size);
  }

  /** The grown block with no room for a remainder. */
  lemma GrowWholeLinked(m: seq<byte>, m': seq<byte>, start: int, end: int,
                        bs: seq<Block>, i: nat, size: int, total: int)
    requires WellFormed(m, start, end, bs) && i + 1 < |bs| && bs[i].used
    requires bs[i].size < size && total == bs[i].size + HEADER + bs[i + 1].size && total < size + MIN_BLOCK
    requires Header(m', bs[i].(size := total), NextAddr(bs, i + 1), PrevAddr(bs, i))
    requires i + 2 < |bs| ==> Header(m', bs[i + 2], NextAddr(bs, i + 2), bs[i].addr)
    requires SameOutside(m, m', bs[i].addr, EditEnd(bs, i + 2, end))
    ensures WellFormed(m', start, end, Split(Merge(bs, i), i, size))
  {
    GrowIsSplice(bs, start, end, i, size);
    MergeLinked(m, m', start, end, bs, i);
  }

  /** A word at an 8-aligned address does not meet the `prev` field of a header at an 8-aligned one. */
  lemma PrevFieldApart(a: int, r: int)
    requires a % 8 == 0 && r % 8 == 0
    ensures a + 4 <= r + PREV || r + HEADER <= a
  {
  }

  lemma WordKept(m: seq<byte>, m': seq<byte>, lo: int, hi: int, a: int, v: int)
    requires SameOutside(m, m', lo, hi) && Holds(m, a, v) && (a + 4 <= lo || hi <= a)
    ensures Holds(m', a, v)
  {
  }

  /** The memory after the eight-byte split holds no list at all: m0 is after the block's size is
      set, m1 after the new header is built over the old one's `next`, m2 after the stray `prev`
      write at address `rest`, m3 after the block's `next` is set. */
  lemma EightByteBreaks(m: seq<byte>, m0: seq<byte>, m1: seq<byte>, m2: seq<byte>, m3: seq<byte>, start: int, end: int,
                        bs: seq<Block>, i: nat, n: int, rest: int)
    requires WellFormed(m, start, end, bs) && i + 1 < |bs| && n == bs[i + 1].addr + 8
    requires n % 8 == 0 && rest % 8 == 0 && 0 < rest && n + HEADER + rest <= end
    requires SizeSet(m, m0, bs[i].addr, n - bs[i].Payload())
    requires SameOutside(m0, m1, n, n + HEADER) && OtherHeaders(m0, m1, n, n + HEADER)
    requires Header(m1, Block(n, rest, false), rest, bs[i].addr)
    requires PrevSet(m1, m2, rest, n) && NextSet(m2, m3, bs[i].addr, n)
    ensures forall cs :: !WellFormed(m3, start, end, cs)
  {
    hide Holds, SameOutside, WellFormed, Get32;
    EightByteWords(m, m0, m1, m2, m3, start, end, bs, i, n, rest);
    forall k | 0 <= k < i ensures Holds(m3, bs[k].addr, bs[k].size) {
      SizeBefore(m, start, end, bs, k, i);
      WordKept(m, m1, bs[i].addr, n + HEADER, bs[k].addr, bs[k].size);
      SurvivesBoth(m1, m2, m3, bs[i].addr, rest, bs[k].addr, bs[k].size);
    }
    SurvivesBoth(m1, m2, m3, bs[i].addr, rest, bs[i].addr, n - bs[i].Payload());
    SurvivesBoth(m1, m2, m3, bs[i].addr, rest, n, rest);
    SurvivesBoth(m1, m2, m3, bs[i].addr, rest, n + NEXT, rest);
    SelfSizedNextBreaks(m, m3, start, end, bs, i, n, rest);
  }

  lemma EightByteWords(m: seq<byte>, m0: seq<byte>, m1: seq<byte>, m2: seq<byte>, m3: seq<byte>, start: int, end: int,
                       bs: seq<Block>, i: nat, n: int, rest: int)
    requires WellFormed(m, start, end, bs) && i + 1 < |bs| && n == bs[i + 1].addr + 8
    requires SizeSet(m, m0, bs[i].addr, n - bs[i].Payload())
    requires SameOutside(m0, m1, n, n + HEADER) && OtherHeaders(m0, m1, n, n + HEADER)
    requires PrevSet(m1, m2, rest, n) && NextSet(m2, m3, bs[i].addr, n)
    ensures |m3| == |m| && SameOutside(m, m1, bs[i].addr, n + HEADER)
    ensures Holds(m1, bs[i].addr, n - bs[i].Payload()) && bs[i].addr % 8 == 0 && bs[i].Payload() <= bs[i + 1].addr
  {
    hide Get32;
    HeaderFacts(m, start, end, bs, i);
    AlignedBlock(bs, start, end, i);
    assert Header(m1, bs[i].(size := n - bs[i].Payload()), NextAddr(bs, i), PrevAddr(bs, i));
  }

  /** The two headers krealloc reads after it has set the block's size. */
  lemma SizedHeaders(m: seq<byte>, m0: seq<byte>, start: int, end: int, bs: seq<Block>, i: nat, size: int)
    requires WellFormed(m, start, end, bs) && i + 1 < |bs| && SizeSet(m, m0, bs[i].addr, size)
    ensures Header(m0, bs[i].(size := size), bs[i + 1].addr, PrevAddr(bs, i))
    ensures Header(m0, bs[i + 1], NextAddr(bs, i + 1), bs[i].addr) && |m0| == |m|
    ensures 8 <= bs[i].addr && 0 <= bs[i].size && bs[i].End() == bs[i + 1].addr
    ensures bs[i + 1].End() <= end <= WORD - 8 && end <= |m|
    ensures i + 2 < |bs| ==> bs[i + 1].End() == bs[i + 2].addr && bs[i + 2].Payload() <= end && NextAddr(bs, i + 1) != 0
  {
    hide Get32, Holds;
    HeaderFacts(m, start, end, bs, i);
    HeaderFacts(m, start, end, bs, i + 1);
    if i + 2 < |bs| {
      HeaderFacts(m, start, end, bs, i + 2);
    }
  }

  /** The same two headers after the size has been set again. */
  lemma SizedTwice(m: seq<byte>, m0: seq<byte>, m1: seq<byte>, start: int, end: int, bs: seq<Block>, i: nat,
                   size: int, total: int)
    requires WellFormed(m, start, end, bs) && i + 1 < |bs|
    requires SizeSet(m, m0, bs[i].addr, size) && SizeSet(m0, m1, bs[i].addr, total)
    ensures Header(m1, bs[i].(size := total), bs[i + 1].addr, PrevAddr(bs, i)) && |m1| == |m|
    ensures Header(m1, bs[i + 1], NextAddr(bs, i + 1), bs[i].addr)
  {
    hide Get32, Holds;
    SizedHeaders(m, m0, start, end, bs, i, size);
  }

  lemma SizeBefore(m: seq<byte>, start: int, end: int, bs: seq<Block>, k: nat, i: nat)
    requires WellFormed(m, start, end, bs) && k < i < |bs|
    ensures Holds(m, bs[k].addr, bs[k].size) && bs[k].addr % 8 == 0 && 0 < bs[k].addr
    ensures bs[k].Payload() <= bs[k].End() <= bs[i].addr
  {
    HeaderFacts(m, start, end, bs, k);
    AlignedBlock(bs, start, end, k);
    OrderedPair(bs, start, end, k, i);
  }

  lemma SurvivesBoth(m1: seq<byte>, m2: seq<byte>, m3: seq<byte>, b: int, rest: int, a: int, v: int)
    requires SameOutside(m1, m2, rest + PREV, rest + HEADER)
    requires SameOutside(m2, m3, b + NEXT, b + PREV)
    requires Holds(m1, a, v) && a % 8 == 0 && rest % 8 == 0 && (a <= b || b + HEADER <= a)
    ensures Holds(m3, a, v)
  {
    PrevFieldApart(a, rest);
    WordKept(m1, m2, rest + PREV, rest + HEADER, a, v);
    WordKept(m2, m3, b + NEXT, b + PREV, a, v);
  }

  /** Aligned growth is 8 bytes or at least 16, and what it builds is 8-aligned. */
  lemma GrowthIsAligned(bs: seq<Block>, start: int, end: int, i: nat, size: int)
    requires Tiled(bs, start, end) && i + 1 < |bs| && size % 8 == 0 && bs[i].size < size
    ensures size == bs[i].size + 8 || size >= bs[i].size + 16
    ensures (bs[i].Payload() + size) % 8 == 0
    ensures (bs[i].size + HEADER + bs[i + 1].size - size - HEADER) % 8 == 0
  {
    hide Tiled;
    AlignedBlock(bs, start, end, i);
    AlignedBlock(bs, start, end, i + 1);
    GrowthArithmetic(bs[i].addr, bs[i].size, bs[i + 1].size, size);
  }

  lemma GrowthArithmetic(a: int, s: int, t: int, size: int)
    requires a % 8 == 0 && s % 8 == 0 && t % 8 == 0 && size % 8 == 0 && s < size
    ensures size == s + 8 || size >= s + 16
    ensures (a + HEADER + size) % 8 == 0 && (s + HEADER + t - size - HEADER) % 8 == 0
  {
    Sum8(a, HEADER);
    Sum8(a + HEADER, size);
    Sum8(size, s);
    Sum8(t, size - s);
  }

  /** The header writes of an in-place growth by 16 bytes or more, one memory after the other. */
  lemma GrowSplitDone(m: seq<byte>, m0: seq<byte>, m1: seq<byte>, m2: seq<byte>, m3: seq<byte>, start: int, end: int,
                      bs: seq<Block>, i: nat, size: int, rest: int)
    requires WellFormed(m, start, end, bs) && i + 1 < |bs| && bs[i].used && !bs[i + 1].used && size % 8 == 0
    requires bs[i].size + 16 <= size && 8 <= rest && size + HEADER + rest == bs[i].size + HEADER + bs[i + 1].size
    requires var n := bs[i].Payload() + size;
             && SizeSet(m, m0, bs[i].addr, size)
             && SameOutside(m0, m1, n, n + HEADER) && OtherHeaders(m0, m1, n, n + HEADER)
             && Header(m1, Block(n, rest, false), NextAddr(bs, i + 1), bs[i].addr)
             && (if i + 2 < |bs| then PrevSet(m1, m2, bs[i + 2].addr, n) else m2 == m1)
             && NextSet(m2, m3, bs[i].addr, n)
    ensures WellFormed(m3, start, end, Split(Merge(bs, i), i, size))
    ensures Keeps(m, m3, UsedBlocks(bs)) && SameOutside(m, m3, start, end)
  {
    hide Get32, Holds, Tiled, Splice, UsedBlocks, Keeps;
    HeaderFacts(m, start, end, bs, i);
    HeaderFacts(m, start, end, bs, i + 1);
    if i + 2 < |bs| {
      HeaderFacts(m, start, end, bs, i + 2);
    }
    GrowSplitLinked(m, m3, start, end, bs, i, size, rest);
    GrowKeeps(m, m3, start, end, bs, i);
  }

  /** The header writes of an in-place growth that takes the whole next block. */
  lemma GrowWholeDone(m: seq<byte>, m0: seq<byte>, m1: seq<byte>, m2: seq<byte>, m3: seq<byte>, start: int, end: int,
                      bs: seq<Block>, i: nat, size: int, total: int)
    requires WellFormed(m, start, end, bs) && i + 1 < |bs| && bs[i].used && !bs[i + 1].used
    requires bs[i].size < size && total == bs[i].size + HEADER + bs[i + 1].size && total < size + MIN_BLOCK
    requires SizeSet(m, m0, bs[i].addr, size) && SizeSet(m0, m1, bs[i].addr, total)
    requires NextSet(m1, m2, bs[i].addr, NextAddr(bs, i + 1))
    requires if i + 2 < |bs| then PrevSet(m2, m3, bs[i + 2].addr, bs[i].addr) else m3 == m2
    ensures WellFormed(m3, start, end, Split(Merge(bs, i), i, size))
    ensures Keeps(m, m3, UsedBlocks(bs)) && SameOutside(m, m3, start, end)
  {
    hide Get32, Holds, Tiled, Splice, UsedBlocks, Keeps;
    HeaderFacts(m, start, end, bs, i);
    HeaderFacts(m, start, end, bs, i + 1);
    if i + 2 < |bs| {
      HeaderFacts(m, start, end, bs, i + 2);
    }
    assert Header(m1, bs[i].(size := total), bs[i + 1].addr, PrevAddr(bs, i)) by {
      assert Header(m0, bs[i].(size := size), bs[i + 1].addr, PrevAddr(bs, i));
    }
    GrowWholeLinked(m, m3, start, end, bs, i, size, total);
    GrowKeeps(m, m3, start, end, bs, i);
  }

  /** The header writes of split_block. */
  lemma SplitDone(m: seq<byte>, m1: seq<byte>, m2: seq<byte>, m3: seq<byte>, m4: seq<byte>, start: int, end: int,
                  bs: seq<Block>, i: nat, size: int)
    requires WellFormed(m, start, end, bs) && i < |bs|
    requires 0 <= size && size % 8 == 0 && size + MIN_BLOCK <= bs[i].size
    requires var n := bs[i].Payload() + size;
             && SameOutside(m, m1, n, n + HEADER) && OtherHeaders(m, m1, n, n + HEADER)
             && Header(m1, Block(n, bs[i].size - size - HEADER, false), NextAddr(bs, i), bs[i].addr)
             && (if i + 1 < |bs| then PrevSet(m1, m2, bs[i + 1].addr, n) else m2 == m1)
             && NextSet(m2, m3, bs[i].addr, n) && SizeSet(m3, m4, bs[i].addr, size)
    ensures WellFormed(m4, start, end, Split(bs, i, size))
    ensures SameOutside(m, m4, bs[i].addr, EditEnd(bs, i + 1, end))
  {
    hide Get32, Holds, Tiled, Splice;
    HeaderFacts(m, start, end, bs, i);
    if i + 1 < |bs| {
      HeaderFacts(m, start, end, bs, i + 1);
    }
    SplitLinked(m, m4, start, end, bs, i, size);
  }

  /** The header writes of one merge. */
  lemma AbsorbDone(m: seq<byte>, m1: seq<byte>, m2: seq<byte>, m3: seq<byte>, start: int, end: int,
                   bs: seq<Block>, i: nat)
    requires WellFormed(m, start, end, bs) && i + 1 < |bs| && !bs[i].used && !bs[i + 1].used
    requires SizeSet(m, m1, bs[i].addr, bs[i].size + HEADER + bs[i + 1].size)
    requires NextSet(m1, m2, bs[i].addr, NextAddr(bs, i + 1))
    requires if i + 2 < |bs| then PrevSet(m2, m3, bs[i + 2].addr, bs[i].addr) else m3 == m2
    ensures WellFormed(m3, start, end, Merge(bs, i)) && ByteIs(m3, bs[i + 1].addr + USED, 0)
    ensures Keeps(m, m3, UsedBlocks(bs) + {bs[i], bs[i + 1]}) && SameOutside(m, m3, start, end)
  {
    hide Get32, Holds, Tiled, Splice, UsedBlocks, Keeps;
    HeaderFacts(m, start, end, bs, i);
    HeaderFacts(m, start, end, bs, i + 1);
    if i + 2 < |bs| {
      HeaderFacts(m, start, end, bs, i + 2);
    }
    MergeLinked(m, m3, start, end, bs, i);
    MergeKeeps(m, m3, start, end, bs, i);
  }

  /** Realloc's list and accounts when the block grows in place. */
  lemma GrowFacts(bs: seq<Block>, start: int, end: int, p: int, size: int, grown: int)
    requires HeapInv(bs, start, end) && Live(bs, p) && CanGrow(bs, LiveIndex(bs, p), size) && size % 8 == 0
    ensures var i := LiveIndex(bs, p);
            i < |Merge(bs, i)| &&
            var bs' := Split(Merge(bs, i), i, size);
            && Inv(bs', start, end) && SizeAt(bs', p) >= SizeAt(bs, p)
            && UsedSum(bs') - (grown + SizeAt(bs', p) - SizeAt(bs, p)) == UsedSum(bs) - grown
  {
    GrowReplacesOne(bs, start, end, p, size);
    GrowSum(bs, start, end, p, size);
  }

  /** The live payloads other than the one at p. */
  ghost function Others(bs: seq<Block>, p: int): set<Block> {
    set b | b in UsedBlocks(bs) && b.Payload() != p
  }

  lemma OthersAre(bs: seq<Block>, start: int, end: int, p: int)
    requires Tiled(bs, start, end)
    ensures Live(bs, p) ==> Others(bs, p) == UsedBlocks(bs) - {LiveBlock(bs, p)}
    ensures !Live(bs, p) ==> Others(bs, p) == UsedBlocks(bs)
  {
    forall b | b in UsedBlocks(bs) && b.Payload() == p ensures Live(bs, p) && b == LiveBlock(bs, p) {
      LiveBlockIs(bs, start, end, b);
    }
  }

  lemma KeepsSome(m: seq<byte>, m': seq<byte>, U: set<Block>, V: set<Block>)
    requires Keeps(m, m', V) && U <= V
    ensures Keeps(m, m', U)
  {
  }

  lemma KeepsSelf(m: seq<byte>, U: set<Block>)
    ensures Keeps(m, m, U) && SameOutside(m, m, 0, 0)
  {
  }

  /** Isolation of a client: writing inside one live payload disturbs neither the list nor any other
      live payload. */
  lemma PayloadWritten(m: seq<byte>, m': seq<byte>, start: int, end: int, bs: seq<Block>, p: int)
    requires WellFormed(m, start, end, bs) && Live(bs, p)
    requires SameOutside(m, m', p, p + LiveBlock(bs, p).size)
    ensures WellFormed(m', start, end, bs)
    ensures Keeps(m, m', UsedBlocks(bs) - {LiveBlock(bs, p)}) && SameOutside(m, m', start, end)
  {
    var i := LiveIndex(bs, p);
    LiveHeader(m, start, end, bs, p);
    FlagLinked(m, m', start, end, bs, i, true);
    assert SetUsed(bs, i, true) == bs;
    HeaderFacts(m, start, end, bs, i);
    UsedOfRun(bs, i, i, i + 1);
    EditKeeps(m, m', start, end, bs, i, i + 1, UsedBlocks(bs) - {bs[i]});
  }

  /** A shorter write into the payload at r is a write into the payload at r. */
  lemma ShorterWrite(m: seq<byte>, m': seq<byte>, r: int, len: int, size: int)
    requires SameOutside(m, m', r, r + len) && len <= size
    ensures SameOutside(m, m', r, r + size)
  {
  }

  /** The moving krealloc, memory by memory: m1 after kmalloc, m2 after the copy, m3 after kfree. */
  lemma MoveDone(m: seq<byte>, m1: seq<byte>, m2: seq<byte>, m3: seq<byte>, start: int, end: int,
                 bs: seq<Block>, bs1: seq<Block>, bs3: seq<Block>, p: int, r: int)
    requires Tiled(bs, start, end) && Tiled(bs1, start, end) && Live(bs, p) && Live(bs1, r) && !Live(bs, r)
    requires UsedBlocks(bs1) == UsedBlocks(bs) + {LiveBlock(bs1, r)}
    requires UsedBlocks(bs3) == UsedBlocks(bs) - {LiveBlock(bs, p)} + {LiveBlock(bs1, r)}
    requires LiveBlock(bs, p).size <= LiveBlock(bs1, r).size
    requires Keeps(m, m1, UsedBlocks(bs)) && Keeps(m2, m3, UsedBlocks(bs3))
    requires Keeps(m1, m2, UsedBlocks(bs1) - {LiveBlock(bs1, r)})
    requires SameOutside(m, m1, start, end) && SameOutside(m1, m2, start, end) && SameOutside(m2, m3, start, end)
    requires Copied(m1, m2, p, r, LiveBlock(bs, p).size)
    ensures Copied(m, m3, p, r, LiveBlock(bs, p).size)
    ensures Keeps(m, m3, UsedBlocks(bs) - {LiveBlock(bs, p)}) && SameOutside(m, m3, start, end)
  {
    var b, c := LiveBlock(bs, p), LiveBlock(bs1, r);
    assert b in UsedBlocks(bs) && b.Payload() == p && c.Payload() == r;
    assert Same(m, m1, b.Payload(), b.End()) && Same(m2, m3, c.Payload(), c.End());
    assert m1[p..p + b.size] == m[p..p + b.size];
    assert m3[r..r + b.size] == m2[r..r + b.size];
    assert LiveBlock(bs1, r) !in UsedBlocks(bs) by {
      NotYetLive(bs, start, end, c);
    }
    KeepsSome(m, m1, UsedBlocks(bs) - {b}, UsedBlocks(bs));
    KeepsTrans(m, m1, m2, UsedBlocks(bs) - {b}, UsedBlocks(bs1) - {c});
    KeepsTrans(m, m2, m3, UsedBlocks(bs) - {b}, UsedBlocks(bs3));
  }

  lemma NotYetLive(bs: seq<Block>, start: int, end: int, c: Block)
    requires Tiled(bs, start, end) && !Live(bs, c.Payload())
    ensures c !in UsedBlocks(bs)
  {
  }

  lemma NullNotLive(bs: seq<Block>, start: int, end: int)
    requires Tiled(bs, start, end)
    ensures !Live(bs, 0)
  {
    Geometry(bs, start, end);
  }

  lemma KeptPayload(m: seq<byte>, m': seq<byte>, bs: seq<Block>, p: int)
    requires Live(bs, p) && Keeps(m, m', UsedBlocks(bs))
    requires 0 <= p && 0 <= LiveBlock(bs, p).size && p + LiveBlock(bs, p).size <= |m|
    ensures Copied(m, m', p, p, LiveBlock(bs, p).size)
    ensures Keeps(m, m', UsedBlocks(bs) - {LiveBlock(bs, p)})
  {
  }

  /** kfree leaves alone every live payload but the one it is given. */
  lemma FreeKeeps(m: seq<byte>, m': seq<byte>, bs: seq<Block>, start: int, end: int, p: int)
    requires HeapInv(bs, start, end) && Keeps(m, m', UsedBlocks(Free(bs, p)))
    ensures Keeps(m, m', Others(bs, p))
  {
    OthersAre(bs, start, end, p);
    if Live(bs, p) {
      FreeRemovesOne(bs, start, end, p);
    }
  }

  /** A concrete call that breaks the list: one kilobyte of heap, kmalloc(8), then krealloc to 16. */
  lemma ConcreteEightByteSplit()
    ensures Malloc(Init(1024, 2048).blocks, 8) == ([Block(1024, 8, true), Block(1048, 984, false)], 1040)
    ensures EightByteSplit([Block(1024, 8, true), Block(1048, 984, false)], 1040, 16)
  {
    hide AlignUp;
    AlignTo8(8);
    AlignTo8(16);
    var b := Init(1024, 2048).blocks;
    assert b == [Block(1024, 1008, false)] && FirstFitFrom(b, 0, 8) == 0;
    assert Split(b, 0, 8) == [Block(1024, 8, false), Block(1048, 984, false)];
    assert SetUsed(Split(b, 0, 8), 0, true) == [Block(1024, 8, true), Block(1048, 984, false)];
    assert LiveIndex([Block(1024, 8, true), Block(1048, 984, false)], 1040) == 0;
  }
}
