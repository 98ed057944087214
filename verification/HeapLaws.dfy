/** What kmalloc, kfree and krealloc guarantee about the block list, for every list the heap can hold. */
module HeapLaws {
  import opened Words
  import opened BlockList

  /** The heap's own bounds: start past 0, end below 2^32, start 8-aligned (by Tiled). */
  ghost predicate HeapInv(bs: seq<Block>, start: int, end: int) {
    Inv(bs, start, end) && 8 <= start && end <= WORD - 8
  }

  /** len bytes from a are inside the heap and meet no live block, header or payload. */
  ghost predicate FreeStretch(bs: seq<Block>, start: int, end: int, a: int, len: int) {
    && start <= a && a + len <= end
    && forall k :: 0 <= k < |bs| && bs[k].used ==> bs[k].End() <= a || a + len <= bs[k].addr
  }

  /** In a coalesced list a free stretch never crosses a block boundary. */
  lemma StretchInsideBlock(bs: seq<Block>, start: int, end: int, a: int, len: int) returns (i: nat)
    requires Inv(bs, start, end) && FreeStretch(bs, start, end, a, len) && len > 0
    ensures i < |bs| && !bs[i].used && bs[i].addr <= a && a + len <= bs[i].End()
  {
    i := BlockAt(bs, start, end, a, 0);
    assert Fits(bs, i, end);
    if i + 1 < |bs| && a + len > bs[i].End() {
      assert bs[i + 1 - 1].used || bs[i + 1].used;
      Geometry(bs, start, end);
    }
  }

  /** kmalloc's search misses nothing: it fails exactly when no contiguous free stretch can hold a
      header and the aligned request, and otherwise takes the lowest such stretch. */
  lemma MallocComplete(bs: seq<Block>, start: int, end: int, n: word)
    requires HeapInv(bs, start, end) && n != 0
    ensures var len := HEADER + AlignUp(n, 8);
            var r := Malloc(bs, n).1;
            && (r == 0 <==> !exists a :: FreeStretch(bs, start, end, a, len))
            && (r == 0 ==> Malloc(bs, n).0 == bs)
            && (r != 0 ==> FreeStretch(bs, start, end, r - HEADER, len)
                           && forall a :: FreeStretch(bs, start, end, a, len) ==> r - HEADER <= a)
  {
    var i := FirstFitFrom(bs, 0, AlignUp(n, 8));
    var len := HEADER + AlignUp(n, 8);
    Geometry(bs, start, end);
    forall a | FreeStretch(bs, start, end, a, len) ensures i < |bs| && bs[i].addr <= a {
      var k := StretchInsideBlock(bs, start, end, a, len);
      assert i <= k;
    }
    if i < |bs| {
      assert bs[i].Payload() - HEADER == bs[i].addr;
      assert FreeStretch(bs, start, end, bs[i].addr, len);
    }
  }

  /** A successful kmalloc adds exactly one live block, at a new 8-aligned address, and its payload
      has the aligned size, or up to 16 bytes more when the rest is too small to stand alone. */
  lemma MallocAddsOne(bs: seq<Block>, start: int, end: int, n: word)
    requires HeapInv(bs, start, end) && Malloc(bs, n).1 != 0
    ensures var (bs', r) := Malloc(bs, n);
            && HeapInv(bs', start, end) && Live(bs', r) && !Live(bs, r) && r % 8 == 0
            && UsedBlocks(bs') == UsedBlocks(bs) + {LiveBlock(bs', r)}
            && LiveBlock(bs', r) !in UsedBlocks(bs)
            && AlignUp(n, 8) <= LiveBlock(bs', r).size <= AlignUp(n, 8) + 16
  {
    var i, c := MallocKeepsInv(bs, start, end, n);
    var bs' := Malloc(bs, n).0;
    ReplaceUsed(bs, start, end, i, i, i + 1, c);
    LiveIndexUnique(bs', start, end, i);
    NotLive(bs, start, end, i);
    assert bs[i] !in UsedBlocks(bs);
  }

  lemma MallocKeepsInv(bs: seq<Block>, start: int, end: int, n: word) returns (i: nat, c: seq<Block>)
    requires HeapInv(bs, start, end) && Malloc(bs, n).1 != 0
    ensures i == FirstFitFrom(bs, 0, AlignUp(n, 8)) < |bs| && c == Carve(bs[i].(used := true), AlignUp(n, 8))
    ensures UsedBlocks(c) == {c[0]} && c[0].addr == bs[i].addr && c[0].used
    ensures AlignUp(n, 8) <= c[0].size <= AlignUp(n, 8) + 16
    ensures Malloc(bs, n) == (Splice(bs, i, i + 1, c), bs[i].Payload())
    ensures i < |Malloc(bs, n).0| && Malloc(bs, n).0[i] == c[0]
    ensures HeapInv(Malloc(bs, n).0, start, end) && bs[i].Payload() % 8 == 0
  {
    var size := AlignUp(n, 8);
    i := FirstFitFrom(bs, 0, size);
    c := Carve(bs[i].(used := true), size);
    hide AlignUp, Tiled, UsedBlocks, Carve, Coalesced;
    AlignTo8(n);
    MallocIsSplice(bs, n);
    Stretch(bs, start, end, i, i + 1);
    Sum8(bs[i].addr, HEADER);
    CarveTiled(bs[i].(used := true), size);
    CarveSize(bs[i].(used := true), size);
    SpliceTiled(bs, start, end, i, i + 1, c);
    assert Malloc(bs, n).0[i] == c[0];
    FreeIsFollowed(bs, i);
    SpliceCoalesced(bs, i, i + 1, c);
  }

  /** A free block is followed by a live one, if any. */
  lemma FreeIsFollowed(bs: seq<Block>, i: nat)
    requires Coalesced(bs) && i < |bs| && !bs[i].used
    ensures i + 1 < |bs| ==> bs[i + 1].used
  {
  }

  lemma CarveSize(b: Block, size: int)
    requires b.size >= size && b.size % 8 == 0 && size % 8 == 0
    ensures size <= Carve(b, size)[0].size <= size + 16
    ensures Carve(b, size)[0].addr == b.addr && Carve(b, size)[0].used == b.used
  {
  }

  /** The payload address of a free block is not live. */
  lemma NotLive(bs: seq<Block>, start: int, end: int, i: nat)
    requires Tiled(bs, start, end) && i < |bs| && !bs[i].used
    ensures !Live(bs, bs[i].Payload())
    ensures forall b :: b in UsedBlocks(bs) ==> b.addr != bs[i].addr
  {
    Geometry(bs, start, end);
  }

  /** The payload is at least as long as the request, except for the requests above 2^32 - 8, whose
      alignment wraps to zero: those get fewer than 24 bytes. */
  lemma PayloadLongEnough(bs: seq<Block>, start: int, end: int, n: word)
    requires HeapInv(bs, start, end) && Malloc(bs, n).1 != 0
    ensures var (bs', r) := Malloc(bs, n);
            Live(bs', r) && (n <= LiveBlock(bs', r).size <==> n <= WORD - 8)
  {
    MallocAddsOne(bs, start, end, n);
    hide AlignUp;
    AlignTo8(n);
  }

  /** kfree removes exactly the block it was given. */
  lemma FreeRemovesOne(bs: seq<Block>, start: int, end: int, p: int)
    requires HeapInv(bs, start, end) && Live(bs, p)
    ensures HeapInv(Free(bs, p), start, end)
    ensures UsedBlocks(Free(bs, p)) == UsedBlocks(bs) - {LiveBlock(bs, p)}
    ensures !Live(Free(bs, p), p)
  {
    var lo, hi := FreeKeepsInv(bs, start, end, p);
    ReplaceUsed(bs, start, end, lo, LiveIndex(bs, p), hi, [Whole(bs, lo, hi, end, false)]);
    GoneAfter(bs, Free(bs, p), start, end, p);
  }

  lemma FreeKeepsInv(bs: seq<Block>, start: int, end: int, p: int) returns (lo: nat, hi: nat)
    requires HeapInv(bs, start, end) && Live(bs, p)
    ensures var i := LiveIndex(bs, p);
            lo <= i < hi <= |bs| && forall k :: lo <= k < hi && k != i ==> !bs[k].used
    ensures Free(bs, p) == Splice(bs, lo, hi, [Whole(bs, lo, hi, end, false)])
    ensures HeapInv(Free(bs, p), start, end)
  {
    hide Free, Tiled, Coalesced, Splice, LiveIndex;
    lo, hi := FreeIsSplice(bs, start, end, p);
    JoinKeepsInv(bs, start, end, lo, LiveIndex(bs, p), hi);
  }

  /** Joining a live block with exactly its free neighbours into one free block. */
  lemma JoinKeepsInv(bs: seq<Block>, start: int, end: int, lo: nat, i: nat, hi: nat)
    requires Inv(bs, start, end) && lo <= i < hi <= |bs| && bs[i].used
    requires lo == (if i > 0 && !bs[i - 1].used then i - 1 else i)
    requires hi == (if i + 1 < |bs| && !bs[i + 1].used then i + 2 else i + 1)
    ensures Inv(Splice(bs, lo, hi, [Whole(bs, lo, hi, end, false)]), start, end)
  {
    var w := [Whole(bs, lo, hi, end, false)];
    WholeTiled(bs, start, end, lo, hi, false);
    SpliceTiled(bs, start, end, lo, hi, w);
    FreeNeighbours(bs, i);
    SpliceCoalesced(bs, lo, hi, w);
  }

  lemma GoneAfter(bs: seq<Block>, cs: seq<Block>, start: int, end: int, p: int)
    requires Tiled(bs, start, end) && Live(bs, p) && UsedBlocks(cs) == UsedBlocks(bs) - {LiveBlock(bs, p)}
    ensures !Live(cs, p)
  {
    LiveIffUsed(cs, p);
    forall b | b in UsedBlocks(bs) && b.Payload() == p ensures b == LiveBlock(bs, p) {
      LiveBlockIs(bs, start, end, b);
    }
  }

  /** Past a free neighbour of block i there is a live block or the heap's edge. */
  lemma FreeNeighbours(bs: seq<Block>, i: nat)
    requires Coalesced(bs) && i < |bs| && bs[i].used
    ensures i > 1 && !bs[i - 1].used ==> bs[i - 2].used
    ensures i + 2 < |bs| && !bs[i + 1].used ==> bs[i + 2].used
  {
  }

  /** A live block keeps its place in any tiled list that still has it. */
  lemma SameLiveBlock(bs: seq<Block>, cs: seq<Block>, start: int, end: int, p: int)
    requires Tiled(cs, start, end) && Live(bs, p) && LiveBlock(bs, p) in UsedBlocks(cs)
    ensures Live(cs, p) && LiveBlock(cs, p) == LiveBlock(bs, p)
  {
    var k := UsedAt(cs, start, end, LiveBlock(bs, p));
    LiveIndexUnique(cs, start, end, k);
  }

  /** Live blocks have different payload addresses. */
  lemma LiveBlockIs(bs: seq<Block>, start: int, end: int, b: Block)
    requires Tiled(bs, start, end) && b in UsedBlocks(bs)
    ensures Live(bs, b.Payload()) && LiveBlock(bs, b.Payload()) == b
  {
    var k := UsedAt(bs, start, end, b);
    LiveIndexUnique(bs, start, end, k);
  }

  /** krealloc in place: the block grows over the free block behind it. */
  lemma GrowReplacesOne(bs: seq<Block>, start: int, end: int, p: int, size: int)
    requires HeapInv(bs, start, end) && Live(bs, p) && CanGrow(bs, LiveIndex(bs, p), size) && size % 8 == 0
    ensures var i := LiveIndex(bs, p);
            var bs' := Split(Merge(bs, i), i, size);
            && HeapInv(bs', start, end) && Live(bs', p) && size <= LiveBlock(bs', p).size <= size + 16
            && UsedBlocks(bs') == UsedBlocks(bs) - {LiveBlock(bs, p)} + {LiveBlock(bs', p)}
  {
    var i := LiveIndex(bs, p);
    var c := Carve(Whole(bs, i, i + 2, end, true), size);
    var bs' := Split(Merge(bs, i), i, size);
    GrowIsSplice(bs, start, end, i, size);
    Stretch(bs, start, end, i, i + 2);
    WholeTiled(bs, start, end, i, i + 2, true);
    assert Fits([Whole(bs, i, i + 2, end, true)], 0, Limit(bs, i + 1, end));
    CarveTiled(Whole(bs, i, i + 2, end, true), size);
    SpliceTiled(bs, start, end, i, i + 2, c);
    FreeNeighbours(bs, i);
    SpliceCoalesced(bs, i, i + 2, c);
    ReplaceUsed(bs, start, end, i, i, i + 2, c);
    assert bs'[i] == c[0];
    LiveIndexUnique(bs', start, end, i);
    CarveSize(Whole(bs, i, i + 2, end, true), size);
  }

  lemma GrowIsSplice(bs: seq<Block>, start: int, end: int, i: nat, size: int)
    requires Tiled(bs, start, end) && i + 1 < |bs| && bs[i].used
    ensures Merge(bs, i) == Splice(bs, i, i + 2, [Whole(bs, i, i + 2, end, true)])
    ensures Whole(bs, i, i + 2, end, true).size == bs[i].size + HEADER + bs[i + 1].size
    ensures Split(Merge(bs, i), i, size) == Splice(bs, i, i + 2, Carve(Whole(bs, i, i + 2, end, true), size))
  {
    Stretch(bs, start, end, i, i + 2);
    Stretch(bs, start, end, i, i + 1);
    var m := Merge(bs, i);
    assert m[i] == Whole(bs, i, i + 2, end, true) && m[..i] == bs[..i] && m[i + 1..] == bs[i + 2..];
  }

  /** Realloc case by case. */
  lemma ReallocCases(bs: seq<Block>, p: int, n: word)
    requires Live(bs, p) && p != 0 && n != 0
    ensures var i := LiveIndex(bs, p);
            var size := AlignUp(n, 8);
            && (size <= bs[i].size ==> Realloc(bs, p, n) == (bs, p))
            && (CanGrow(bs, i, size) ==> Realloc(bs, p, n) == (Split(Merge(bs, i), i, size), p))
            && (size > bs[i].size && !CanGrow(bs, i, size) ==>
                  Realloc(bs, p, n) == if Malloc(bs, size).1 == 0 then (bs, 0)
                                       else (Free(Malloc(bs, size).0, p), Malloc(bs, size).1))
  {
    hide AlignUp, Malloc, Free, Split, Merge;
  }

  /** krealloc of a live payload to a non-zero size: it either fails and changes nothing, or
      replaces exactly the given block by one that is no smaller than before and than asked. */
  lemma ReallocReplacesOne(bs: seq<Block>, start: int, end: int, p: int, n: word)
    requires HeapInv(bs, start, end) && Live(bs, p) && p != 0 && n != 0
    ensures var (bs', r) := Realloc(bs, p, n);
            && HeapInv(bs', start, end)
            && (r == 0 ==> bs' == bs)
            && (r != 0 ==> ReplacedBy(bs, bs', p, r, AlignUp(n, 8)))
  {
    hide AlignUp;
    var size := AlignUp(n, 8);
    var i := LiveIndex(bs, p);
    if size <= bs[i].size {
      KeptInPlace(bs, start, end, p);
    } else if CanGrow(bs, i, size) {
      AlignTo8(n);
      GrowReplacesOne(bs, start, end, p, size);
      KeptInPlace(bs, start, end, p);
    } else if Malloc(bs, size).1 != 0 {
      AlignTo8(n);
      MovedReplacesOne(bs, start, end, p, size);
    }
  }

  /** The payload krealloc returns is at least as long as requested, except for the requests above
      2^32 - 8, whose alignment wraps to zero: those get the old payload back. */
  lemma ResizedLongEnough(bs: seq<Block>, start: int, end: int, p: int, n: word)
    requires HeapInv(bs, start, end) && Live(bs, p) && p != 0 && n != 0 && Realloc(bs, p, n).1 != 0
    ensures var (bs', r) := Realloc(bs, p, n);
            Live(bs', r) && (n <= LiveBlock(bs', r).size <==> n <= WORD - 8)
    ensures n > WORD - 8 ==> Realloc(bs, p, n) == (bs, p)
  {
    hide AlignUp, Realloc;
    AlignTo8(n);
    var (bs', r) := Realloc(bs, p, n);
    ReallocReplacesOne(bs, start, end, p, n);
    Geometry(bs', start, end);
    assert GoodBlock(LiveBlock(bs', r), start, end);
    if n > WORD - 8 {
      Geometry(bs, start, end);
      assert GoodBlock(LiveBlock(bs, p), start, end);
      ReallocCases(bs, p, n);
    }
  }

  /** In cs the live block at r stands where bs had the one at p; it holds at least `size` bytes and
      at least as many as before, and every other live block is the same. */
  ghost predicate ReplacedBy(bs: seq<Block>, cs: seq<Block>, p: int, r: int, size: int)
    requires Live(bs, p)
  {
    && Live(cs, r) && r % 8 == 0 && (r == p || !Live(bs, r))
    && LiveBlock(cs, r).size >= size && LiveBlock(cs, r).size >= LiveBlock(bs, p).size
    && UsedBlocks(cs) == UsedBlocks(bs) - {LiveBlock(bs, p)} + {LiveBlock(cs, r)}
  }

  lemma KeptInPlace(bs: seq<Block>, start: int, end: int, p: int)
    requires Tiled(bs, start, end) && Live(bs, p)
    ensures p % 8 == 0
    ensures UsedBlocks(bs) == UsedBlocks(bs) - {LiveBlock(bs, p)} + {LiveBlock(bs, p)}
  {
    Stretch(bs, start, end, LiveIndex(bs, p), LiveIndex(bs, p) + 1);
    assert LiveBlock(bs, p) in UsedBlocks(bs);
  }

  /** krealloc by moving: a new block, then the old one freed. */
  lemma MovedReplacesOne(bs: seq<Block>, start: int, end: int, p: int, size: word)
    requires HeapInv(bs, start, end) && Live(bs, p) && size % 8 == 0 && LiveBlock(bs, p).size < size <= WORD - 8
    requires Malloc(bs, size).1 != 0
    ensures var (bs1, r) := Malloc(bs, size);
            var bs' := Free(bs1, p);
            && HeapInv(bs', start, end) && ReplacedBy(bs, bs', p, r, size)
            && HeapInv(bs1, start, end) && Live(bs1, p) && LiveBlock(bs1, p) == LiveBlock(bs, p)
            && Live(bs1, r) && LiveBlock(bs', r) == LiveBlock(bs1, r)
  {
    var (bs1, r) := Malloc(bs, size);
    MallocKeepsLive(bs, bs1, start, end, size, p, r);
    FreedAfterMove(bs, bs1, start, end, p, r, size);
  }

  /** kmalloc leaves every live block where it was. */
  lemma MallocKeepsLive(bs: seq<Block>, bs1: seq<Block>, start: int, end: int, size: word, p: int, r: int)
    requires HeapInv(bs, start, end) && Live(bs, p) && size % 8 == 0 && size <= WORD - 8
    requires Malloc(bs, size) == (bs1, r) && r != 0
    ensures HeapInv(bs1, start, end) && Live(bs1, p) && LiveBlock(bs1, p) == LiveBlock(bs, p)
    ensures Live(bs1, r) && !Live(bs, r) && r % 8 == 0 && LiveBlock(bs1, r).size >= size
    ensures UsedBlocks(bs1) == UsedBlocks(bs) + {LiveBlock(bs1, r)}
  {
    hide AlignUp;
    AlignTo8(size);
    MallocAddsOne(bs, start, end, size);
    SameLiveBlock(bs, bs1, start, end, p);
  }

  lemma FreedAfterMove(bs: seq<Block>, bs1: seq<Block>, start: int, end: int, p: int, r: int, size: int)
    requires HeapInv(bs1, start, end) && Live(bs, p) && Live(bs1, p) && LiveBlock(bs1, p) == LiveBlock(bs, p)
    requires Live(bs1, r) && !Live(bs, r) && r % 8 == 0
    requires LiveBlock(bs1, r).size >= size >= LiveBlock(bs, p).size
    requires UsedBlocks(bs1) == UsedBlocks(bs) + {LiveBlock(bs1, r)}
    ensures HeapInv(Free(bs1, p), start, end) && ReplacedBy(bs, Free(bs1, p), p, r, size)
    ensures LiveBlock(Free(bs1, p), r) == LiveBlock(bs1, r)
  {
    FreeRemovesOne(bs1, start, end, p);
    MovedLive(bs, bs1, Free(bs1, p), start, end, p, r);
  }

  lemma MovedLive(bs: seq<Block>, bs1: seq<Block>, bs2: seq<Block>, start: int, end: int, p: int, r: int)
    requires Tiled(bs1, start, end) && Tiled(bs2, start, end)
    requires Live(bs, p) && Live(bs1, p) && LiveBlock(bs1, p) == LiveBlock(bs, p) && Live(bs1, r) && !Live(bs, r)
    requires UsedBlocks(bs1) == UsedBlocks(bs) + {LiveBlock(bs1, r)}
    requires UsedBlocks(bs2) == UsedBlocks(bs1) - {LiveBlock(bs1, p)}
    ensures Live(bs2, r) && LiveBlock(bs2, r) == LiveBlock(bs1, r)
    ensures UsedBlocks(bs2) == UsedBlocks(bs) - {LiveBlock(bs, p)} + {LiveBlock(bs2, r)}
  {
    assert LiveBlock(bs1, p).Payload() == p && LiveBlock(bs1, r).Payload() == r;
    SameLiveBlock(bs1, bs2, start, end, r);
  }

  /** The payload at p could be `size` bytes long where it is: up to there no other live block begins. */
  ghost predicate RoomAt(bs: seq<Block>, end: int, p: int, size: int) {
    && p + size <= end
    && forall k :: 0 <= k < |bs| && bs[k].used && bs[k].Payload() != p ==>
         bs[k].End() <= p - HEADER || p + size <= bs[k].addr
  }

  /** krealloc moves a payload only when it must: the address stays exactly when there is room where
      it is, and the call fails exactly when there is neither that nor a free stretch elsewhere. */
  lemma ReallocMovesOnlyIfItMust(bs: seq<Block>, start: int, end: int, p: int, n: word)
    requires HeapInv(bs, start, end) && Live(bs, p) && p != 0 && n != 0
    ensures var r := Realloc(bs, p, n).1;
            var size := AlignUp(n, 8);
            var len := HEADER + size;
            && (r == p <==> RoomAt(bs, end, p, size))
            && (r == 0 <==> !RoomAt(bs, end, p, size) && !exists a :: FreeStretch(bs, start, end, a, len))
  {
    hide AlignUp, Realloc, Malloc, Free, Split, Merge, LiveIndex;
    var size := AlignUp(n, 8);
    ReallocCases(bs, p, n);
    RoomExact(bs, start, end, p, size);
    if !RoomAt(bs, end, p, size) {
      AlignTwice(n);
      var r := Malloc(bs, size).1;
      MallocComplete(bs, start, end, size);
      if r != 0 {
        MallocAddsOne(bs, start, end, size);
        assert !Live(bs, r) && r != p;
      }
      assert Realloc(bs, p, n).1 == r;
    }
  }

  lemma AlignTwice(n: word)
    ensures AlignUp(AlignUp(n, 8), 8) == AlignUp(n, 8)
  {
    hide AlignUp;
    AlignTo8(n);
    AlignTo8(AlignUp(n, 8));
  }

  lemma RoomExact(bs: seq<Block>, start: int, end: int, p: int, size: int)
    requires HeapInv(bs, start, end) && Live(bs, p) && 0 <= size
    ensures RoomAt(bs, end, p, size) <==> size <= LiveBlock(bs, p).size || CanGrow(bs, LiveIndex(bs, p), size)
    ensures 0 <= LiveBlock(bs, p).size
  {
    var i := LiveIndex(bs, p);
    Geometry(bs, start, end);
    FreeNeighbours(bs, i);
    assert Fits(bs, i, end);
    if i + 1 < |bs| {
      assert Fits(bs, i + 1, end);
    }
  }

  // ---- Consequences ----

  /** kfree undoes kmalloc: the block list is exactly what it was before. */
  lemma FreeUndoesMalloc(bs: seq<Block>, start: int, end: int, n: word)
    requires HeapInv(bs, start, end) && Malloc(bs, n).1 != 0
    ensures var (bs', r) := Malloc(bs, n); Free(bs', r) == bs
  {
    var (bs', r) := Malloc(bs, n);
    MallocAddsOne(bs, start, end, n);
    FreeRemovesOne(bs', start, end, r);
    assert UsedBlocks(Free(bs', r)) == UsedBlocks(bs);
    Canonical(Free(bs', r), bs, start, end);
  }

  /** The order in which two payloads are freed does not matter. */
  lemma FreesCommute(bs: seq<Block>, start: int, end: int, p: int, q: int)
    requires HeapInv(bs, start, end) && Live(bs, p) && Live(bs, q) && p != q
    ensures Free(Free(bs, p), q) == Free(Free(bs, q), p)
  {
    hide Free, Live, Tiled, Coalesced, UsedBlocks;
    var pq := FreeBoth(bs, start, end, p, q);
    var qp := FreeBoth(bs, start, end, q, p);
    Canonical(pq, qp, start, end);
  }

  lemma FreeBoth(bs: seq<Block>, start: int, end: int, p: int, q: int) returns (cs: seq<Block>)
    requires HeapInv(bs, start, end) && Live(bs, p) && Live(bs, q) && p != q
    ensures cs == Free(Free(bs, p), q) && Inv(cs, start, end)
    ensures UsedBlocks(cs) == UsedBlocks(bs) - {LiveBlock(bs, p), LiveBlock(bs, q)}
  {
    hide Free, LiveIndex, Tiled, Coalesced;
    var b := Free(bs, p);
    FreeRemovesOne(bs, start, end, p);
    assert LiveBlock(bs, q) in UsedBlocks(bs) && LiveBlock(bs, q).Payload() == q;
    SameLiveBlock(bs, b, start, end, q);
    FreeRemovesOne(b, start, end, q);
    cs := Free(b, q);
  }

  /** Freeing the same pointer again changes nothing. */
  lemma DoubleFreeIsNoOp(bs: seq<Block>, start: int, end: int, p: int)
    requires HeapInv(bs, start, end)
    ensures Free(Free(bs, p), p) == Free(bs, p)
  {
    if Live(bs, p) {
      FreeRemovesOne(bs, start, end, p);
    }
  }

  /** A heap without live blocks is one free block: nothing stays fragmented. */
  lemma NothingLiveOneBlock(bs: seq<Block>, start: int, end: int)
    requires Inv(bs, start, end)
    ensures UsedBlocks(bs) == {} <==> bs == [Block(start, end - start - HEADER, false)]
  {
    assert Fits(bs, 0, end);
    if |bs| > 1 {
      assert bs[1 - 1].used || bs[1].used;
      assert (if bs[0].used then bs[0] else bs[1]) in UsedBlocks(bs);
    }
  }

  /** A live payload is 8-aligned, inside the heap, and shares no byte with any header, its own, a
      live block's or a free block's. */
  lemma PayloadInside(bs: seq<Block>, start: int, end: int, p: int)
    requires Tiled(bs, start, end) && Live(bs, p)
    ensures p % 8 == 0 && start + HEADER <= p && p + LiveBlock(bs, p).size <= end
    ensures forall k :: 0 <= k < |bs| ==> p + LiveBlock(bs, p).size <= bs[k].addr || bs[k].Payload() <= p
  {
    hide LiveIndex;
    var i := LiveIndex(bs, p);
    Geometry(bs, start, end);
    AlignedBlock(bs, start, end, i);
    Sum8(bs[i].addr, HEADER);
  }

  /** Two live payloads share no byte, nor does one meet the other's header. */
  lemma PayloadsIsolated(bs: seq<Block>, start: int, end: int, p: int, q: int)
    requires Tiled(bs, start, end) && Live(bs, p) && Live(bs, q) && p != q
    ensures p + LiveBlock(bs, p).size <= q - HEADER || q + LiveBlock(bs, q).size <= p - HEADER
  {
    Geometry(bs, start, end);
  }

  // ---- Accounting ----

  function UsedSum(bs: seq<Block>): int {
    if |bs| == 0 then 0 else (if bs[0].used then bs[0].size else 0) + UsedSum(bs[1..])
  }

  lemma {:induction false} UsedSumConcat(a: seq<Block>, b: seq<Block>)
    ensures UsedSum(a + b) == UsedSum(a) + UsedSum(b)
  {
    if |a| == 0 {
      assert a + b == b;
    } else {
      assert (a + b)[1..] == a[1..] + b;
      UsedSumConcat(a[1..], b);
    }
  }

  lemma UsedSumSplice(bs: seq<Block>, i: nat, j: nat, mid: seq<Block>)
    requires i <= j <= |bs|
    ensures UsedSum(Splice(bs, i, j, mid)) == UsedSum(bs) - UsedSum(bs[i..j]) + UsedSum(mid)
  {
    assert bs == bs[..i] + bs[i..j] + bs[j..];
    UsedSumConcat(bs[..i] + mid, bs[j..]);
    UsedSumConcat(bs[..i], mid);
    UsedSumConcat(bs[..i] + bs[i..j], bs[j..]);
    UsedSumConcat(bs[..i], bs[i..j]);
  }

  /** The live payloads never add up to more than the heap holds besides their headers. */
  lemma {:induction false} UsedSumBound(bs: seq<Block>, start: int, end: int)
    requires Tiled(bs, start, end)
    ensures 0 <= UsedSum(bs) <= end - start - HEADER * |bs|
    decreases |bs|
  {
    assert Fits(bs, 0, end);
    if |bs| > 1 {
      TailTiled(bs, start, end);
      UsedSumBound(bs[1..], bs[0].End(), end);
    } else {
      assert bs[1..] == [];
    }
  }

  lemma UsedSumOfPair(a: Block, b: Block)
    ensures UsedSum([a]) == (if a.used then a.size else 0)
    ensures UsedSum([a, b]) == UsedSum([a]) + UsedSum([b])
  {
  }

  lemma UsedSumOfCarve(b: Block, size: int)
    requires b.used
    ensures UsedSum(Carve(b, size)) == Carve(b, size)[0].size
  {
    var c := Carve(b, size);
    if |c| == 2 {
      UsedSumOfPair(c[0], c[1]);
      assert c == [c[0], c[1]];
    }
  }

  /** How the sum of live sizes moves with each operation. */
  lemma MallocSum(bs: seq<Block>, start: int, end: int, n: word)
    requires HeapInv(bs, start, end) && Malloc(bs, n).1 != 0
    ensures var (bs', r) := Malloc(bs, n);
            Live(bs', r) && UsedSum(bs') == UsedSum(bs) + LiveBlock(bs', r).size
  {
    hide AlignUp, UsedSum, Malloc, LiveIndex, Carve;
    var i, c := MallocKeepsInv(bs, start, end, n);
    UsedSumSplice(bs, i, i + 1, c);
    UsedSumOfCarve(bs[i].(used := true), AlignUp(n, 8));
    UsedSumOfPair(bs[i], bs[i]);
    assert bs[i..i + 1] == [bs[i]];
    LiveIndexUnique(Malloc(bs, n).0, start, end, i);
  }

  lemma FreeSum(bs: seq<Block>, start: int, end: int, p: int)
    requires HeapInv(bs, start, end) && Live(bs, p)
    ensures UsedSum(Free(bs, p)) == UsedSum(bs) - LiveBlock(bs, p).size
  {
    hide Free, Tiled, Coalesced, Splice, LiveIndex, UsedSum;
    var lo, hi := FreeIsSplice(bs, start, end, p);
    UsedSumSplice(bs, lo, hi, [Whole(bs, lo, hi, end, false)]);
    UsedSumOfPair(Whole(bs, lo, hi, end, false), bs[lo]);
    UsedSumOfRun(bs, lo, LiveIndex(bs, p), hi);
  }

  lemma Cut(bs: seq<Block>, i: nat, j: nat, k: nat)
    requires i <= j <= k <= |bs|
    ensures bs[i..k] == bs[i..j] + bs[j..k]
  {
  }

  /** The live total of a block and its free neighbours. */
  lemma UsedSumOfRun(bs: seq<Block>, lo: nat, i: nat, hi: nat)
    requires lo <= i < hi <= |bs| && i - 1 <= lo && hi <= i + 2 && bs[i].used
    requires (lo < i ==> !bs[lo].used) && (i + 1 < hi ==> !bs[i + 1].used)
    ensures UsedSum(bs[lo..hi]) == bs[i].size
  {
    Cut(bs, lo, i, i + 1);
    Cut(bs, lo, i + 1, hi);
    UsedSumConcat(bs[lo..i], bs[i..i + 1]);
    UsedSumConcat(bs[lo..i + 1], bs[i + 1..hi]);
    assert bs[i..i + 1] == [bs[i]];
    assert lo < i ==> bs[lo..i] == [bs[lo]];
    assert i + 1 < hi ==> bs[i + 1..hi] == [bs[i + 1]];
  }

  lemma GrowSum(bs: seq<Block>, start: int, end: int, p: int, size: int)
    requires HeapInv(bs, start, end) && Live(bs, p) && CanGrow(bs, LiveIndex(bs, p), size) && size % 8 == 0
    ensures var bs' := Split(Merge(bs, LiveIndex(bs, p)), LiveIndex(bs, p), size);
            Live(bs', p) && UsedSum(bs') == UsedSum(bs) + LiveBlock(bs', p).size - LiveBlock(bs, p).size
  {
    var i := LiveIndex(bs, p);
    var w := Whole(bs, i, i + 2, end, true);
    var bs' := Split(Merge(bs, i), i, size);
    GrowIsSplice(bs, start, end, i, size);
    GrowReplacesOne(bs, start, end, p, size);
    UsedSumSplice(bs, i, i + 2, Carve(w, size));
    UsedSumOfCarve(w, size);
    UsedSumOfPair(bs[i], bs[i + 1]);
    assert bs[i..i + 2] == [bs[i], bs[i + 1]];
    assert bs'[i] == Carve(w, size)[0];
    LiveIndexUnique(bs', start, end, i);
  }
}
