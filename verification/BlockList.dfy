/** The block list of the kernel heap as a value: what heap.c's operations do to it, and what the
    list then guarantees. Heap.dfy proves that the code, working on headers in memory, performs
    exactly these operations. */
module BlockList {
  import opened Words

  const HEADER := 16
  const MIN_BLOCK := 24

  /** A heap block: its header's address, its payload size and its used flag. */
  datatype Block = Block(addr: int, size: int, used: bool) {
    function Payload(): int { addr + HEADER }
    function End(): int { addr + HEADER + size }
  }

  function NextAddr(bs: seq<Block>, i: nat): int
    requires i < |bs|
  {
    if i + 1 < |bs| then bs[i + 1].addr else 0
  }

  function PrevAddr(bs: seq<Block>, i: nat): int
    requires i < |bs|
  {
    if i > 0 then bs[i - 1].addr else 0
  }

  function Limit(bs: seq<Block>, i: nat, end: int): int
    requires i < |bs|
  {
    if i + 1 < |bs| then bs[i + 1].addr else end
  }

  /** Block i is 8-aligned in size and ends where the next one, or the heap, begins or ends. */
  ghost predicate Fits(bs: seq<Block>, i: nat, end: int)
    requires i < |bs|
  {
    bs[i].size >= 0 && bs[i].size % 8 == 0 && bs[i].End() == Limit(bs, i, end)
  }

  /** The blocks follow each other without gap or overlap from start to end. */
  ghost predicate Tiled(bs: seq<Block>, start: int, end: int) {
    && |bs| > 0 && bs[0].addr == start && 0 < start && start % 8 == 0
    && forall i :: 0 <= i < |bs| ==> Fits(bs, i, end)
  }

  /** No two neighbouring blocks are both free. */
  ghost predicate Coalesced(bs: seq<Block>) {
    forall i :: 0 < i < |bs| ==> bs[i - 1].used || bs[i].used
  }

  ghost predicate Inv(bs: seq<Block>, start: int, end: int) {
    Tiled(bs, start, end) && Coalesced(bs)
  }

  /** The live blocks, without their order. */
  ghost function UsedBlocks(bs: seq<Block>): set<Block> {
    set b | b in bs && b.used
  }

  /** p is the payload address of a live block. */
  ghost predicate Live(bs: seq<Block>, p: int) {
    LiveIndex(bs, p) < |bs|
  }

  ghost function LiveBlock(bs: seq<Block>, p: int): Block
    requires Live(bs, p)
  {
    bs[LiveIndex(bs, p)]
  }

  // ---- The operations ----

  function Splice(bs: seq<Block>, i: nat, j: nat, mid: seq<Block>): seq<Block>
    requires i <= j <= |bs|
  {
    bs[..i] + mid + bs[j..]
  }

  function SetUsed(bs: seq<Block>, i: nat, used: bool): seq<Block>
    requires i < |bs|
  {
    Splice(bs, i, i + 1, [bs[i].(used := used)])
  }

  /** Block b cut after `size` bytes when the rest can hold a header and 8 bytes. */
  function Carve(b: Block, size: int): seq<Block> {
    if b.size < size + MIN_BLOCK then [b]
    else [b.(size := size), Block(b.addr + HEADER + size, b.size - size - HEADER, false)]
  }

  /** split_block */
  function Split(bs: seq<Block>, i: nat, size: int): seq<Block>
    requires i < |bs|
  {
    Splice(bs, i, i + 1, Carve(bs[i], size))
  }

  function Merge(bs: seq<Block>, i: nat): seq<Block>
    requires i + 1 < |bs|
  {
    Splice(bs, i, i + 2, [bs[i].(size := bs[i].size + HEADER + bs[i + 1].size)])
  }

  function MergeNext(bs: seq<Block>, i: nat): seq<Block>
    requires i < |bs|
  {
    if i + 1 < |bs| && !bs[i + 1].used then Merge(bs, i) else bs
  }

  function MergePrev(bs: seq<Block>, i: nat): seq<Block>
    requires i < |bs|
  {
    if i > 0 && !bs[i - 1].used then Merge(bs, i - 1) else bs
  }

  /** merge_blocks */
  function MergeAround(bs: seq<Block>, i: nat): seq<Block>
    requires i < |bs|
  {
    MergePrev(MergeNext(bs, i), i)
  }

  function FirstFitFrom(bs: seq<Block>, k: nat, size: int): (r: nat)
    requires k <= |bs|
    ensures k <= r <= |bs|
    ensures r < |bs| ==> !bs[r].used && bs[r].size >= size
    ensures forall j :: k <= j < r ==> bs[j].used || bs[j].size < size
    decreases |bs| - k
  {
    if k == |bs| || (!bs[k].used && bs[k].size >= size) then k else FirstFitFrom(bs, k + 1, size)
  }

  function LiveIndexFrom(bs: seq<Block>, k: nat, p: int): (r: nat)
    requires k <= |bs|
    ensures k <= r <= |bs|
    ensures r < |bs| ==> bs[r].used && bs[r].Payload() == p
    ensures forall j :: k <= j < r ==> !(bs[j].used && bs[j].Payload() == p)
    decreases |bs| - k
  {
    if k == |bs| || (bs[k].used && bs[k].Payload() == p) then k else LiveIndexFrom(bs, k + 1, p)
  }

  /** The index of the live block with payload p, or |bs|. */
  function LiveIndex(bs: seq<Block>, p: int): (i: nat)
    ensures i <= |bs| && (i < |bs| ==> bs[i].used && bs[i].Payload() == p)
  {
    LiveIndexFrom(bs, 0, p)
  }

  /** kmalloc: the new list and the returned address. */
  function Malloc(bs: seq<Block>, n: word): (seq<Block>, int) {
    var size := AlignUp(n, 8);
    var i := FirstFitFrom(bs, 0, size);
    if n == 0 || i == |bs| then (bs, 0)
    else (SetUsed(Split(bs, i, size), i, true), bs[i].Payload())
  }

  /** kfree of a live payload; for any other pointer the list stays as it is. */
  function Free(bs: seq<Block>, p: int): seq<Block> {
    var i := LiveIndex(bs, p);
    if i == |bs| then bs
    else MergeAround(SetUsed(bs, i, false), i)
  }

  /** The in-place growth test of krealloc. */
  predicate CanGrow(bs: seq<Block>, i: nat, size: int)
    requires i < |bs|
  {
    i + 1 < |bs| && !bs[i + 1].used && bs[i].size < size <= bs[i].size + HEADER + bs[i + 1].size
  }

  /** krealloc of NULL, of a live payload, or (with size 0) of any pointer kfree accepts. */
  function Realloc(bs: seq<Block>, p: int, n: word): (seq<Block>, int)
    requires p == 0 || n == 0 || LiveIndex(bs, p) < |bs|
  {
    if p == 0 then Malloc(bs, n)
    else if n == 0 then (Free(bs, p), 0)
    else
      var size := AlignUp(n, 8);
      var i := LiveIndex(bs, p);
      if size <= bs[i].size then (bs, p)
      else if CanGrow(bs, i, size) then (Split(Merge(bs, i), i, size), p)
      else
        var (bs1, r) := Malloc(bs, size);
        if r == 0 then (bs, 0) else (Free(bs1, p), r)
  }

  /** The calls on which krealloc's in-place split writes its new header over the `next` field it
      is about to read: the payload must grow by exactly 8 bytes into a free block that is
      large enough to be split again. */
  predicate EightByteSplit(bs: seq<Block>, p: int, n: word) {
    var i := LiveIndex(bs, p);
    && p != 0 && n != 0 && i + 1 < |bs| && !bs[i + 1].used
    && AlignUp(n, 8) == bs[i].size + 8 && bs[i + 1].size >= 16
  }

  ghost predicate GoodBlock(b: Block, start: int, end: int) {
    b.addr % 8 == 0 && b.size % 8 == 0 && 0 <= b.size && start <= b.addr && b.End() <= end
  }

  // ---- Geometry of a tiled list ----

  lemma {:induction false} OrderedPair(bs: seq<Block>, start: int, end: int, i: nat, j: nat)
    requires Tiled(bs, start, end) && i < j < |bs|
    ensures bs[i].End() <= bs[j].addr
    decreases j
  {
    if i + 1 < j {
      OrderedPair(bs, start, end, i, j - 1);
    }
    assert Fits(bs, j - 1, end);
    assert Fits(bs, j, end);
  }

  /** Multiples of 8 add up to multiples of 8. */
  lemma Sum8(a: int, b: int)
    requires a % 8 == 0 && b % 8 == 0
    ensures (a + b) % 8 == 0 && (a - b) % 8 == 0
  {
  }

  lemma {:induction false} AlignedBlock(bs: seq<Block>, start: int, end: int, i: nat)
    requires Tiled(bs, start, end) && i < |bs|
    ensures GoodBlock(bs[i], start, end) && bs[i].End() % 8 == 0
  {
    if i > 0 {
      AlignedBlock(bs, start, end, i - 1);
      assert Fits(bs, i - 1, end);
    }
    assert Fits(bs, i, end) && Fits(bs, |bs| - 1, end);
    Sum8(bs[i].addr, HEADER);
    Sum8(bs[i].Payload(), bs[i].size);
    if i + 1 < |bs| {
      OrderedPair(bs, start, end, i, |bs| - 1);
    }
  }

  /** Blocks are 8-aligned, inside the heap, and lie one after the other. */
  lemma Geometry(bs: seq<Block>, start: int, end: int)
    requires Tiled(bs, start, end)
    ensures forall i :: 0 <= i < |bs| ==> GoodBlock(bs[i], start, end)
    ensures forall i, j :: 0 <= i < j < |bs| ==> bs[i].End() <= bs[j].addr
  {
    forall i | 0 <= i < |bs| ensures GoodBlock(bs[i], start, end) {
      AlignedBlock(bs, start, end, i);
    }
    forall i, j | 0 <= i < j < |bs| ensures bs[i].End() <= bs[j].addr {
      OrderedPair(bs, start, end, i, j);
    }
  }

  /** Every heap address belongs to a block. */
  lemma {:induction false} BlockAt(bs: seq<Block>, start: int, end: int, a: int, k: nat) returns (i: nat)
    requires Tiled(bs, start, end) && k < |bs| && bs[k].addr <= a < end
    ensures k <= i < |bs| && bs[i].addr <= a < bs[i].End()
    decreases |bs| - k
  {
    assert Fits(bs, k, end);
    if a < bs[k].End() {
      i := k;
    } else {
      i := BlockAt(bs, start, end, a, k + 1);
    }
  }

  /** A live payload address names one block. */
  lemma LiveIndexUnique(bs: seq<Block>, start: int, end: int, i: nat)
    requires Tiled(bs, start, end) && i < |bs| && bs[i].used
    ensures LiveIndex(bs, bs[i].Payload()) == i
  {
    Geometry(bs, start, end);
  }

  lemma LiveIffUsed(bs: seq<Block>, p: int)
    ensures Live(bs, p) <==> exists b :: b in UsedBlocks(bs) && b.Payload() == p
  {
    if Live(bs, p) {
      assert bs[LiveIndex(bs, p)] in UsedBlocks(bs);
    }
  }

  /** Replacing a run of blocks by blocks that tile the same stretch keeps the list tiled. */
  lemma SpliceTiled(bs: seq<Block>, start: int, end: int, i: nat, j: nat, mid: seq<Block>)
    requires Tiled(bs, start, end) && i < j <= |bs|
    requires Tiled(mid, bs[i].addr, Limit(bs, j - 1, end))
    ensures Tiled(Splice(bs, i, j, mid), start, end)
  {
    var bs' := Splice(bs, i, j, mid);
    forall k | 0 <= k < |bs'| ensures Fits(bs', k, end) {
      if k < i {
        assert Fits(bs, k, end);
      } else if k < i + |mid| {
        assert Fits(mid, k - i, Limit(bs, j - 1, end));
      } else {
        assert Fits(bs, k - i - |mid| + j, end);
      }
    }
  }

  lemma UsedOfSplice(bs: seq<Block>, i: nat, j: nat, mid: seq<Block>)
    requires i <= j <= |bs|
    ensures UsedBlocks(Splice(bs, i, j, mid)) == UsedBlocks(bs[..i]) + UsedBlocks(mid) + UsedBlocks(bs[j..])
    ensures UsedBlocks(bs) == UsedBlocks(bs[..i]) + UsedBlocks(bs[i..j]) + UsedBlocks(bs[j..])
  {
    assert bs == bs[..i] + bs[i..j] + bs[j..];
  }

  /** A run whose only live block can be block m has no other live block. */
  lemma UsedOfRun(bs: seq<Block>, i: nat, m: nat, j: nat)
    requires i <= m < j <= |bs| && forall k :: i <= k < j && k != m ==> !bs[k].used
    ensures UsedBlocks(bs[i..j]) == if bs[m].used then {bs[m]} else {}
  {
  }

  lemma NotElsewhere(bs: seq<Block>, start: int, end: int, i: nat, m: nat, j: nat)
    requires Tiled(bs, start, end) && i <= m < j <= |bs|
    ensures bs[m] !in bs[..i] && bs[m] !in bs[j..]
  {
    Geometry(bs, start, end);
  }

  /** Replacing block m, and free blocks beside it, replaces it in the live set. */
  lemma ReplaceUsed(bs: seq<Block>, start: int, end: int, i: nat, m: nat, j: nat, mid: seq<Block>)
    requires Tiled(bs, start, end) && i <= m < j <= |bs|
    requires forall k :: i <= k < j && k != m ==> !bs[k].used
    ensures UsedBlocks(Splice(bs, i, j, mid)) == UsedBlocks(bs) - {bs[m]} + UsedBlocks(mid)
  {
    UsedOfSplice(bs, i, j, mid);
    UsedOfRun(bs, i, m, j);
    NotElsewhere(bs, start, end, i, m, j);
  }

  /** A coalesced tiling is determined by its bounds and its live blocks: the order of past
      operations leaves no trace in the list. */
  lemma {:induction false} Canonical(bs: seq<Block>, cs: seq<Block>, start: int, end: int)
    requires Inv(bs, start, end) && Inv(cs, start, end)
    requires UsedBlocks(bs) == UsedBlocks(cs)
    ensures bs == cs
    decreases |bs|
  {
    SameFirst(bs, cs, start, end);
    if |bs| > 1 {
      Tail(bs, start, end);
      Tail(cs, start, end);
      Canonical(bs[1..], cs[1..], bs[0].End(), end);
      assert bs == [bs[0]] + bs[1..] && cs == [cs[0]] + cs[1..];
    }
  }

  lemma Tail(bs: seq<Block>, start: int, end: int)
    requires Inv(bs, start, end) && |bs| > 1
    ensures Inv(bs[1..], bs[0].End(), end)
    ensures UsedBlocks(bs[1..]) == UsedBlocks(bs) - {bs[0]}
  {
    TailTiled(bs, start, end);
    var tl := bs[1..];
    forall i | 0 < i < |tl| ensures tl[i - 1].used || tl[i].used {
      assert bs[i + 1 - 1].used || bs[i + 1].used;
    }
    ReplaceUsed(bs, start, end, 0, 0, 1, []);
    assert Splice(bs, 0, 1, []) == tl;
  }

  lemma TailTiled(bs: seq<Block>, start: int, end: int)
    requires Tiled(bs, start, end) && |bs| > 1
    ensures Tiled(bs[1..], bs[0].End(), end)
  {
    AlignedBlock(bs, start, end, 0);
    AlignedBlock(bs, start, end, 1);
    assert Fits(bs, 0, end);
    forall i | 0 <= i < |bs[1..]| ensures Fits(bs[1..], i, end) {
      assert Fits(bs, i + 1, end);
    }
  }

  /** A live block is found at its own address in any list with the same live blocks. */
  lemma UsedAt(bs: seq<Block>, start: int, end: int, b: Block) returns (k: nat)
    requires Tiled(bs, start, end) && b in UsedBlocks(bs)
    ensures k < |bs| && bs[k] == b && (k > 0 ==> bs[0].End() <= b.addr)
    ensures start <= b.addr
  {
    k :| 0 <= k < |bs| && bs[k] == b;
    Geometry(bs, start, end);
  }

  lemma SameFirst(bs: seq<Block>, cs: seq<Block>, start: int, end: int)
    requires Inv(bs, start, end) && Inv(cs, start, end)
    requires UsedBlocks(bs) == UsedBlocks(cs)
    ensures bs[0] == cs[0] && (|bs| == 1 <==> |cs| == 1) && (|bs| == 1 ==> bs == cs)
  {
    Geometry(bs, start, end);
    Geometry(cs, start, end);
    assert Fits(bs, 0, end) && Fits(cs, 0, end);
    if bs[0].used {
      var k := UsedAt(cs, start, end, bs[0]);
    } else if cs[0].used {
      var k := UsedAt(bs, start, end, cs[0]);
    } else {
      if |bs| > 1 {
        assert bs[1 - 1].used || bs[1].used;
        var k := UsedAt(cs, start, end, bs[1]);
      }
      if |cs| > 1 {
        assert cs[1 - 1].used || cs[1].used;
        var k := UsedAt(bs, start, end, cs[1]);
      }
    }
  }

  // ---- What the operations do to the list ----

  lemma SpliceCoalesced(bs: seq<Block>, i: nat, j: nat, mid: seq<Block>)
    requires Coalesced(bs) && i < j <= |bs| && |mid| > 0 && Coalesced(mid)
    requires i > 0 ==> bs[i - 1].used || mid[0].used
    requires j < |bs| ==> mid[|mid| - 1].used || bs[j].used
    ensures Coalesced(Splice(bs, i, j, mid))
  {
  }

  /** Both parts of a carved block together cover it. */
  lemma CarveTiled(b: Block, size: int)
    requires 0 < b.addr && b.addr % 8 == 0 && b.size % 8 == 0
    requires 0 <= size <= b.size && size % 8 == 0
    ensures Tiled(Carve(b, size), b.addr, b.End())
    ensures b.used ==> Coalesced(Carve(b, size)) && UsedBlocks(Carve(b, size)) == {Carve(b, size)[0]}
  {
    Sum8(b.size, size);
    Sum8(b.size - size, HEADER);
  }

  /** The stretch of blocks i..j, measured. */
  lemma Stretch(bs: seq<Block>, start: int, end: int, i: nat, j: nat)
    requires Tiled(bs, start, end) && i < j <= |bs|
    ensures bs[j - 1].End() == Limit(bs, j - 1, end) && bs[i].End() <= Limit(bs, j - 1, end)
    ensures GoodBlock(bs[i], start, end) && Limit(bs, j - 1, end) % 8 == 0
  {
    AlignedBlock(bs, start, end, i);
    AlignedBlock(bs, start, end, j - 1);
    assert Fits(bs, j - 1, end);
    if i < j - 1 {
      OrderedPair(bs, start, end, i, j - 1);
    }
  }

  /** Blocks i..j as one block. */
  function Whole(bs: seq<Block>, i: nat, j: nat, end: int, used: bool): Block
    requires i < j <= |bs|
  {
    Block(bs[i].addr, Limit(bs, j - 1, end) - bs[i].Payload(), used)
  }

  lemma WholeTiled(bs: seq<Block>, start: int, end: int, i: nat, j: nat, used: bool)
    requires Tiled(bs, start, end) && i < j <= |bs|
    ensures Tiled([Whole(bs, i, j, end, used)], bs[i].addr, Limit(bs, j - 1, end))
  {
    Stretch(bs, start, end, i, j);
    Sum8(Limit(bs, j - 1, end), bs[i].addr);
    Sum8(Limit(bs, j - 1, end) - bs[i].addr, HEADER);
    assert Fits([Whole(bs, i, j, end, used)], 0, Limit(bs, j - 1, end));
  }

  /** The block kmalloc hands out, in place of the free block i it was cut from. */
  lemma MallocIsSplice(bs: seq<Block>, n: word)
    requires Malloc(bs, n).1 != 0
    ensures var i := FirstFitFrom(bs, 0, AlignUp(n, 8));
            Malloc(bs, n).0 == Splice(bs, i, i + 1, Carve(bs[i].(used := true), AlignUp(n, 8)))
  {
    var size := AlignUp(n, 8);
    var i := FirstFitFrom(bs, 0, size);
    var c := Carve(bs[i], size);
    SetUsedFirst(bs, i, c);
    assert Carve(bs[i].(used := true), size) == [c[0].(used := true)] + c[1..];
  }

  /** Setting the used flag of the first block that was spliced in. */
  lemma SetUsedFirst(bs: seq<Block>, i: nat, c: seq<Block>)
    requires i < |bs| && |c| > 0
    ensures i < |Splice(bs, i, i + 1, c)|
    ensures SetUsed(Splice(bs, i, i + 1, c), i, true) == Splice(bs, i, i + 1, [c[0].(used := true)] + c[1..])
  {
  }

  /** kfree turns the block, with the free neighbours it has, into one free block. */
  lemma FreeIsSplice(bs: seq<Block>, start: int, end: int, p: int) returns (lo: nat, hi: nat)
    requires Tiled(bs, start, end) && Live(bs, p)
    ensures var i := LiveIndex(bs, p);
            && lo == (if i > 0 && !bs[i - 1].used then i - 1 else i)
            && hi == (if i + 1 < |bs| && !bs[i + 1].used then i + 2 else i + 1)
            && Free(bs, p) == Splice(bs, lo, hi, [Whole(bs, lo, hi, end, false)])
  {
    hide Splice, SetUsed, MergeNext, MergePrev, Whole, LiveIndex, Tiled;
    var i := LiveIndex(bs, p);
    lo := if i > 0 && !bs[i - 1].used then i - 1 else i;
    hi := if i + 1 < |bs| && !bs[i + 1].used then i + 2 else i + 1;
    MergeNextIsSplice(bs, i);
    WholeOne(bs, start, end, i, false);
    if hi == i + 2 {
      WholeOne(bs, start, end, i + 1, false);
      WholeMore(bs, start, end, i, hi, false);
    }
    MergePrevIsSplice(bs, i, hi, Whole(bs, i, hi, end, false));
    if lo < i {
      WholeMore(bs, start, end, lo, hi, false);
    }
  }

  /** A stretch of one block, and a stretch one block longer. */
  lemma WholeOne(bs: seq<Block>, start: int, end: int, i: nat, used: bool)
    requires Tiled(bs, start, end) && i < |bs|
    ensures Whole(bs, i, i + 1, end, used) == bs[i].(used := used)
  {
    assert Fits(bs, i, end);
  }

  lemma WholeMore(bs: seq<Block>, start: int, end: int, i: nat, j: nat, used: bool)
    requires Tiled(bs, start, end) && i + 1 < j <= |bs|
    ensures Whole(bs, i, j, end, used) ==
            bs[i].(size := bs[i].size + HEADER + Whole(bs, i + 1, j, end, used).size, used := used)
    ensures !Whole(bs, i + 1, j, end, used).used == !used
  {
    assert Fits(bs, i, end);
  }

  lemma MergeNextIsSplice(bs: seq<Block>, i: nat)
    requires i < |bs|
    ensures var free := bs[i].(used := false);
            MergeNext(SetUsed(bs, i, false), i) ==
            if i + 1 < |bs| && !bs[i + 1].used
            then Splice(bs, i, i + 2, [free.(size := free.size + HEADER + bs[i + 1].size)])
            else Splice(bs, i, i + 1, [free])
  {
  }

  lemma MergePrevIsSplice(bs: seq<Block>, i: nat, hi: nat, b: Block)
    requires i < hi <= |bs| && !b.used
    ensures MergePrev(Splice(bs, i, hi, [b]), i) ==
            if i > 0 && !bs[i - 1].used
            then Splice(bs, i - 1, hi, [bs[i - 1].(size := bs[i - 1].size + HEADER + b.size)])
            else Splice(bs, i, hi, [b])
  {
  }
}
