/** How a block list lies in memory: each block begins with a 16-byte header holding its size
    (offset 0), its used byte (4), and the addresses of the next (8) and previous (12) header. */
module Headers {
  import opened Words
  import opened Memory
  import opened BlockList

  const USED := 4
  const NEXT := 8
  const PREV := 12

  predicate Header(m: seq<byte>, b: Block, next: int, prev: int) {
    && 0 <= b.addr && b.addr + HEADER <= |m|
    && Holds(m, b.addr, b.size)
    && m[b.addr + USED] == (if b.used then 1 else 0)
    && Holds(m, b.addr + NEXT, next)
    && Holds(m, b.addr + PREV, prev)
  }

  ghost predicate HeaderAt(m: seq<byte>, bs: seq<Block>, i: nat)
    requires i < |bs|
  {
    Header(m, bs[i], NextAddr(bs, i), PrevAddr(bs, i))
  }

  /** The memory m holds the doubly linked list bs over the heap start..end. */
  ghost predicate WellFormed(m: seq<byte>, start: int, end: int, bs: seq<Block>) {
    && Tiled(bs, start, end) && 8 <= start && end <= |m| && end <= WORD - 8
    && forall i :: 0 <= i < |bs| ==> HeaderAt(m, bs, i)
  }

  /** The layout, byte by byte: the size at offset 0, low byte first, the used byte at 4, next at 8 and
      prev at 12, in 16 bytes before the payload. */
  lemma HeaderLayout(m: seq<byte>, b: Block, next: int, prev: int)
    requires Header(m, b, next, prev)
    ensures b.Payload() == b.addr + 16 <= |m|
    ensures var a := b.addr;
            && LowFirst(m[a..a + 4], b.size) && m[a + 4] == (if b.used then 1 else 0)
            && LowFirst(m[a + 8..a + 12], next) && LowFirst(m[a + 12..a + 16], prev)
  {
  }

  /** v is the word whose bytes, the low one first, are these. */
  predicate LowFirst(bytes: seq<byte>, v: int)
    requires |bytes| == 4
  {
    var b0: int, b1: int, b2: int, b3: int := bytes[0], bytes[1], bytes[2], bytes[3];
    v == b0 + 0x100 * (b1 + 0x100 * (b2 + 0x100 * b3))
  }

  /** m' has the payloads of all the blocks of U as m has them. */
  ghost predicate Keeps(m: seq<byte>, m': seq<byte>, U: set<Block>) {
    |m| == |m'| && forall b :: b in U ==> Same(m, m', b.Payload(), b.End())
  }

  /** Headers away from lo..hi survive. */
  ghost predicate OtherHeaders(m: seq<byte>, m': seq<byte>, lo: int, hi: int) {
    forall b: Block, n: int, p: int {:trigger Header(m, b, n, p)} ::
      Header(m, b, n, p) && (b.addr + HEADER <= lo || hi <= b.addr) ==> Header(m', b, n, p)
  }

  /** The header at a has a new size, and no other header or byte has changed. */
  ghost predicate SizeSet(m: seq<byte>, m': seq<byte>, a: int, v: int) {
    && SameOutside(m, m', a, a + 4) && OtherHeaders(m, m', a, a + HEADER)
    && forall b: Block, n: int, p: int {:trigger Header(m, b, n, p)} ::
         Header(m, b, n, p) && b.addr == a ==> Header(m', b.(size := v), n, p)
  }

  ghost predicate NextSet(m: seq<byte>, m': seq<byte>, a: int, v: int) {
    && SameOutside(m, m', a + NEXT, a + PREV) && OtherHeaders(m, m', a, a + HEADER)
    && forall b: Block, n: int, p: int {:trigger Header(m, b, n, p)} ::
         Header(m, b, n, p) && b.addr == a ==> Header(m', b, v, p)
  }

  ghost predicate PrevSet(m: seq<byte>, m': seq<byte>, a: int, v: int) {
    && SameOutside(m, m', a + PREV, a + HEADER) && OtherHeaders(m, m', a, a + HEADER)
    && forall b: Block, n: int, p: int {:trigger Header(m, b, n, p)} ::
         Header(m, b, n, p) && b.addr == a ==> Header(m', b, n, v)
  }

  lemma HeaderSame(m: seq<byte>, m': seq<byte>, b: Block, next: int, prev: int)
    requires Header(m, b, next, prev) && Same(m, m', b.addr, b.addr + HEADER)
    ensures Header(m', b, next, prev)
  {
  }

  lemma HeaderApart(m: seq<byte>, m': seq<byte>, lo: int, hi: int, b: Block, next: int, prev: int)
    requires SameOutside(m, m', lo, hi) && Header(m, b, next, prev) && (b.addr + HEADER <= lo || hi <= b.addr)
    ensures Header(m', b, next, prev)
  {
    HeaderSame(m, m', b, next, prev);
  }

  /** A write between lo and hi leaves the other headers alone. */
  lemma OthersSurvive(m: seq<byte>, m': seq<byte>, lo: int, hi: int)
    requires SameOutside(m, m', lo, hi)
    ensures OtherHeaders(m, m', lo, hi)
  {
    forall b: Block, n: int, p: int | Header(m, b, n, p) && (b.addr + HEADER <= lo || hi <= b.addr)
      ensures Header(m', b, n, p)
    {
      HeaderApart(m, m', lo, hi, b, n, p);
    }
  }

  /** block->size = v */
  method SetSize(mem: array<byte>, a: int, v: word)
    requires 0 <= a && a + HEADER <= mem.Length
    modifies mem
    ensures SizeSet(old(mem[..]), mem[..], a, v)
  {
    Store32(mem, a, v);
  }

  /** block->next = v */
  method SetNext(mem: array<byte>, a: int, v: word)
    requires 0 <= a && a + HEADER <= mem.Length
    modifies mem
    ensures NextSet(old(mem[..]), mem[..], a, v)
  {
    Store32(mem, a + NEXT, v);
  }

  /** block->prev = v */
  method SetPrev(mem: array<byte>, a: int, v: word)
    requires 0 <= a && a + HEADER <= mem.Length
    modifies mem
    ensures PrevSet(old(mem[..]), mem[..], a, v)
  {
    Store32(mem, a + PREV, v);
  }

  /** The four stores that make the header of a free block, one memory after the other. */
  lemma FourStores(m: seq<byte>, m1: seq<byte>, m2: seq<byte>, m3: seq<byte>, m4: seq<byte>,
                   a: int, size: int, next: int, prev: int)
    requires 0 <= a && a + HEADER <= |m|
    requires SameOutside(m, m1, a, a + 4) && Holds(m1, a, size)
    requires SameOutside(m1, m2, a + USED, a + USED + 1) && ByteIs(m2, a + USED, 0)
    requires SameOutside(m2, m3, a + NEXT, a + PREV) && Holds(m3, a + NEXT, next)
    requires SameOutside(m3, m4, a + PREV, a + HEADER) && Holds(m4, a + PREV, prev)
    ensures Header(m4, Block(a, size, false), next, prev)
    ensures SameOutside(m, m4, a, a + HEADER) && OtherHeaders(m, m4, a, a + HEADER)
  {
    hide OtherHeaders;
    OthersSurvive(m, m4, a, a + HEADER);
  }

  /** The four assignments that make the header of a free block. */
  method WriteFreeHeader(mem: array<byte>, a: word, size: word, next: word, prev: word)
    requires a + HEADER <= mem.Length
    modifies mem
    ensures Header(mem[..], Block(a, size, false), next, prev)
    ensures SameOutside(old(mem[..]), mem[..], a, a + HEADER)
    ensures OtherHeaders(old(mem[..]), mem[..], a, a + HEADER)
  {
    hide Get32, OtherHeaders, SameWords, Header;
    ghost var m := mem[..];
    Store32(mem, a, size);
    ghost var m1 := mem[..];
    Store8(mem, a + USED, 0);
    ghost var m2 := mem[..];
    Store32(mem, a + NEXT, next);
    ghost var m3 := mem[..];
    Store32(mem, a + PREV, prev);
    FourStores(m, m1, m2, m3, mem[..], a, size, next, prev);
  }

  /** The header that krealloc builds at n behind a grown block b, over the free block c: its `next`
      is read through c only after its own size has been written. */
  method BuildRemainder(mem: array<byte>, block: word, n: word, rest: word,
                        ghost b: Block, ghost c: Block, ghost next: int, ghost prev: int)
    requires b.addr == block && Header(mem[..], b, c.addr, prev) && Header(mem[..], c, next, b.addr)
    requires b.addr + HEADER <= c.addr && n + HEADER <= mem.Length
    requires n == c.addr + 8 || n >= c.addr + HEADER
    modifies mem
    ensures SameOutside(old(mem[..]), mem[..], n, n + HEADER)
    ensures OtherHeaders(old(mem[..]), mem[..], n, n + HEADER)
    ensures Header(mem[..], Block(n, rest, false), if n == c.addr + 8 then rest else next, b.addr)
  {
    hide Get32, OtherHeaders;
    ghost var m := mem[..];
    Store32(mem, n, rest);
    ghost var m1 := mem[..];
    Store8(mem, n + USED, 0);
    ghost var m2 := mem[..];
    assert Load32(mem, block + NEXT) == c.addr;
    assert Load32(mem, c.addr + NEXT) == if n == c.addr + 8 then rest else next;
    Store32(mem, n + NEXT, Load32(mem, Load32(mem, block + NEXT) + NEXT));
    ghost var m3 := mem[..];
    Store32(mem, n + PREV, block);
    FourStores(m, m1, m2, m3, mem[..], n, rest, if n == c.addr + 8 then rest else next, block);
  }

  /** merge_blocks joins block i with block i + 1. */
  lemma MergeLinked(m: seq<byte>, m': seq<byte>, start: int, end: int, bs: seq<Block>, i: nat)
    requires WellFormed(m, start, end, bs) && i + 1 < |bs|
    requires Header(m', bs[i].(size := bs[i].size + HEADER + bs[i + 1].size), NextAddr(bs, i + 1), PrevAddr(bs, i))
    requires i + 2 < |bs| ==> Header(m', bs[i + 2], NextAddr(bs, i + 2), bs[i].addr)
    requires SameOutside(m, m', bs[i].addr, EditEnd(bs, i + 2, end))
    ensures WellFormed(m', start, end, Merge(bs, i))
  {
    assert Fits(bs, i, end) && Fits(bs, i + 1, end);
    JoinLinked(m, m', start, end, bs, i, i + 2);
  }

  /** The headers of the blocks that replace blocks i..j of bs. */
  ghost predicate MidHeader(m: seq<byte>, bs: seq<Block>, i: nat, j: nat, mid: seq<Block>, k: nat)
    requires i < j <= |bs| && k < |mid|
  {
    Header(m, mid[k], if k + 1 < |mid| then mid[k + 1].addr else NextAddr(bs, j - 1),
           if k > 0 then mid[k - 1].addr else PrevAddr(bs, i))
  }

  /** Where an edit of blocks i..j ends: after the header of block j, whose `prev` it may rewrite. */
  function EditEnd(bs: seq<Block>, j: nat, end: int): int
    requires j <= |bs|
  {
    if j < |bs| then bs[j].Payload() else end
  }

  /** Rewriting the headers of blocks i..j for blocks that tile the same stretch, and the `prev` of
      block j, gives the spliced list, when all other headers are left alone. */
  lemma SpliceLinked(m: seq<byte>, m': seq<byte>, start: int, end: int, bs: seq<Block>, i: nat, j: nat, mid: seq<Block>)
    requires WellFormed(m, start, end, bs) && i < j <= |bs|
    requires Tiled(mid, bs[i].addr, Limit(bs, j - 1, end))
    requires forall k :: 0 <= k < |mid| ==> MidHeader(m', bs, i, j, mid, k)
    requires j < |bs| ==> Header(m', bs[j], NextAddr(bs, j), mid[|mid| - 1].addr)
    requires SameOutside(m, m', bs[i].addr, EditEnd(bs, j, end))
    ensures WellFormed(m', start, end, Splice(bs, i, j, mid))
  {
    assert |m'| == |m|;
    hide Header, Same, Tiled;
    var bs' := Splice(bs, i, j, mid);
    assert |mid| > 0 && mid[0].addr == bs[i].addr by {
      TiledStart(mid, bs[i].addr, Limit(bs, j - 1, end));
    }
    SpliceTiled(bs, start, end, i, j, mid);
    forall k | 0 <= k < |bs'| ensures HeaderAt(m', bs', k) {
      if k < i {
        HeaderBefore(m, m', start, end, bs, i, j, k);
      } else if k < i + |mid| {
        assert MidHeader(m', bs, i, j, mid, k - i);
      } else if k - i - |mid| > 0 {
        HeaderBehind(m, m', start, end, bs, i, j, k - i - |mid| + j);
      }
    }
  }

  lemma TiledStart(bs: seq<Block>, start: int, end: int)
    requires Tiled(bs, start, end)
    ensures |bs| > 0 && bs[0].addr == start
  {
  }

  /** The headers before and behind an edit survive it. */
  lemma HeaderBefore(m: seq<byte>, m': seq<byte>, start: int, end: int, bs: seq<Block>, i: nat, j: nat, k: nat)
    requires WellFormed(m, start, end, bs) && k < i < j <= |bs|
    requires SameOutside(m, m', bs[i].addr, EditEnd(bs, j, end))
    ensures Header(m', bs[k], NextAddr(bs, k), PrevAddr(bs, k))
  {
    hide Header, Same;
    assert HeaderAt(m, bs, k);
    OrderedPair(bs, start, end, k, i);
    assert Fits(bs, k, end);
    HeaderApart(m, m', bs[i].addr, EditEnd(bs, j, end), bs[k], NextAddr(bs, k), PrevAddr(bs, k));
  }

  lemma HeaderBehind(m: seq<byte>, m': seq<byte>, start: int, end: int, bs: seq<Block>, i: nat, j: nat, o: nat)
    requires WellFormed(m, start, end, bs) && i < j < o < |bs|
    requires SameOutside(m, m', bs[i].addr, EditEnd(bs, j, end))
    ensures Header(m', bs[o], NextAddr(bs, o), PrevAddr(bs, o))
  {
    hide Header, Same;
    assert HeaderAt(m, bs, o);
    OrderedPair(bs, start, end, j, o);
    assert Fits(bs, j, end);
    HeaderApart(m, m', bs[i].addr, EditEnd(bs, j, end), bs[o], NextAddr(bs, o), PrevAddr(bs, o));
  }

  lemma FoundOutside(bs: seq<Block>, i: nat, j: nat, b: Block) returns (k: nat)
    requires i <= j <= |bs| && b in bs && b !in bs[i..j]
    ensures k < |bs| && bs[k] == b && (k < i || j <= k)
  {
    assert bs == bs[..i] + bs[i..j] + bs[j..];
    if b in bs[..i] {
      k :| k < i && bs[..i][k] == b;
    } else {
      var o: nat :| o < |bs[j..]| && bs[j..][o] == b;
      k := j + o;
    }
  }

  /** An edit that stays within blocks i..j and the header after them leaves every live payload
      alone, except those of blocks i..j. */
  lemma EditKeeps(m: seq<byte>, m': seq<byte>, start: int, end: int, bs: seq<Block>, i: nat, j: nat, U: set<Block>)
    requires Tiled(bs, start, end) && i < j <= |bs|
    requires SameOutside(m, m', bs[i].addr, EditEnd(bs, j, end))
    requires forall b :: b in U ==> b in bs && b !in bs[i..j]
    ensures Keeps(m, m', U)
    ensures SameOutside(m, m', start, end)
  {
    Geometry(bs, start, end);
    forall b | b in U ensures Same(m, m', b.Payload(), b.End()) {
      var k := FoundOutside(bs, i, j, b);
    }
  }

  /** Merging two free blocks rewrites no live payload, nor the one of either block. */
  lemma MergeKeeps(m: seq<byte>, m': seq<byte>, start: int, end: int, bs: seq<Block>, i: nat)
    requires Tiled(bs, start, end) && i + 1 < |bs| && !bs[i].used && !bs[i + 1].used
    requires SameOutside(m, m', bs[i].addr, EditEnd(bs, i + 2, end))
    requires Same(m, m', bs[i].Payload(), bs[i + 1].End())
    ensures Keeps(m, m', UsedBlocks(bs) + {bs[i], bs[i + 1]})
    ensures SameOutside(m, m', start, end)
  {
    Geometry(bs, start, end);
    EditKeeps(m, m', start, end, bs, i, i + 2, UsedBlocks(bs));
  }

  /** After a merge of free blocks the live blocks are the same, and the merged payload covers both. */
  lemma MergeUsed(bs: seq<Block>, start: int, end: int, i: nat)
    requires Tiled(bs, start, end) && i + 1 < |bs| && !bs[i].used && !bs[i + 1].used
    ensures UsedBlocks(Merge(bs, i)) == UsedBlocks(bs) && |Merge(bs, i)| == |bs| - 1
    ensures Merge(bs, i)[i] == bs[i].(size := bs[i].size + HEADER + bs[i + 1].size)
    ensures bs[i].End() == bs[i + 1].addr
    ensures i > 0 ==> Merge(bs, i)[i - 1] == bs[i - 1]
  {
    assert Fits(bs, i, end);
    ReplaceUsed(bs, start, end, i, i, i + 2, [bs[i].(size := bs[i].size + HEADER + bs[i + 1].size)]);
    assert bs[i] !in UsedBlocks(bs);
  }

  lemma MergeNextUsed(bs: seq<Block>, start: int, end: int, i: nat)
    requires Tiled(bs, start, end) && i < |bs| && !bs[i].used
    ensures UsedBlocks(MergeNext(bs, i)) == UsedBlocks(bs) && i < |MergeNext(bs, i)|
    ensures var w := MergeNext(bs, i)[i]; w.addr == bs[i].addr && !w.used && bs[i].End() <= w.End()
  {
    if i + 1 < |bs| && !bs[i + 1].used {
      MergeUsed(bs, start, end, i);
      assert Fits(bs, i + 1, end);
    }
  }

  lemma KeepsBoth(m: seq<byte>, m1: seq<byte>, m2: seq<byte>, U: set<Block>, V: set<Block>, b: Block, w: Block)
    requires Keeps(m, m1, U + {b}) && Keeps(m1, m2, V) && U <= V && w in V
    requires w.Payload() <= b.Payload() && b.End() <= w.End()
    ensures Keeps(m, m2, U + {b})
  {
  }

  /** The header of a block, as the code reads it. */
  lemma HeaderFacts(m: seq<byte>, start: int, end: int, bs: seq<Block>, i: nat)
    requires WellFormed(m, start, end, bs) && i < |bs|
    ensures Header(m, bs[i], NextAddr(bs, i), PrevAddr(bs, i))
    ensures 8 <= start <= bs[i].addr && 0 <= bs[i].size && bs[i].End() <= end <= WORD - 8 && end <= |m|
    ensures i + 1 < |bs| ==> bs[i].End() == bs[i + 1].addr && NextAddr(bs, i) != 0
    ensures i + 1 == |bs| ==> bs[i].End() == end
    ensures i > 0 ==> bs[i - 1].End() == bs[i].addr && PrevAddr(bs, i) != 0
  {
    assert HeaderAt(m, bs, i) && Fits(bs, i, end);
    AlignedBlock(bs, start, end, i);
    if i + 1 < |bs| {
      AlignedBlock(bs, start, end, i + 1);
    }
    if i > 0 {
      AlignedBlock(bs, start, end, i - 1);
      assert Fits(bs, i - 1, end);
    }
  }

  /** The memory determines the list: two lists that the same bytes hold over the same heap are equal. */
  lemma BlocksDetermined(m: seq<byte>, start: int, end: int, bs: seq<Block>, cs: seq<Block>)
    requires WellFormed(m, start, end, bs) && WellFormed(m, start, end, cs)
    ensures bs == cs
  {
    if |bs| <= |cs| {
      SamePrefix(m, start, end, bs, cs, |bs|);
      LastEnds(m, start, end, bs, cs);
    } else {
      SamePrefix(m, start, end, cs, bs, |cs|);
      LastEnds(m, start, end, cs, bs);
    }
  }

  lemma {:induction false} SamePrefix(m: seq<byte>, start: int, end: int, bs: seq<Block>, cs: seq<Block>, n: nat)
    requires WellFormed(m, start, end, bs) && WellFormed(m, start, end, cs)
    requires n <= |bs| && n <= |cs|
    ensures bs[..n] == cs[..n]
  {
    if n > 0 {
      SamePrefix(m, start, end, bs, cs, n - 1);
      HeaderFacts(m, start, end, bs, n - 1);
      HeaderFacts(m, start, end, cs, n - 1);
      if n > 1 {
        assert bs[n - 2] == bs[..n - 1][n - 2] == cs[n - 2];
      }
      assert bs[..n] == bs[..n - 1] + [bs[n - 1]] && cs[..n] == cs[..n - 1] + [cs[n - 1]];
    }
  }

  lemma LastEnds(m: seq<byte>, start: int, end: int, bs: seq<Block>, cs: seq<Block>)
    requires WellFormed(m, start, end, bs) && WellFormed(m, start, end, cs)
    requires |bs| <= |cs| && bs == cs[..|bs|]
    ensures bs == cs
  {
    var n := |bs|;
    HeaderFacts(m, start, end, bs, n - 1);
    assert cs[n - 1] == bs[n - 1];
    HeaderFacts(m, start, end, cs, n - 1);
    assert n == |cs|;
  }

  // ---- The three edits of heap.c ----

  /** Block i cut in two (split_block, or the remainder of an in-place growth when j == i + 2). */
  lemma CutLinked(m: seq<byte>, m': seq<byte>, start: int, end: int, bs: seq<Block>, i: nat, j: nat, size: int)
    requires WellFormed(m, start, end, bs) && i < j <= |bs|
    requires var w := Whole(bs, i, j, end, bs[i].used);
             var n := w.Payload() + size;
             && 0 <= size && size % 8 == 0 && size + MIN_BLOCK <= w.size
             && Header(m', w.(size := size), n, PrevAddr(bs, i))
             && Header(m', Block(n, w.size - size - HEADER, false), NextAddr(bs, j - 1), bs[i].addr)
             && (j < |bs| ==> Header(m', bs[j], NextAddr(bs, j), n))
    requires SameOutside(m, m', bs[i].addr, EditEnd(bs, j, end))
    ensures WellFormed(m', start, end, Splice(bs, i, j, Carve(Whole(bs, i, j, end, bs[i].used), size)))
  {
    var w := Whole(bs, i, j, end, bs[i].used);
    WholeGood(bs, start, end, i, j);
    CarveTiled(w, size);
    assert MidHeader(m', bs, i, j, Carve(w, size), 0) && MidHeader(m', bs, i, j, Carve(w, size), 1);
    SpliceLinked(m, m', start, end, bs, i, j, Carve(w, size));
  }

  lemma SplitLinked(m: seq<byte>, m': seq<byte>, start: int, end: int, bs: seq<Block>, i: nat, size: int)
    requires WellFormed(m, start, end, bs) && i < |bs|
    requires 0 <= size && size % 8 == 0 && size + MIN_BLOCK <= bs[i].size
    requires Header(m', bs[i].(size := size), bs[i].Payload() + size, PrevAddr(bs, i))
    requires Header(m', Block(bs[i].Payload() + size, bs[i].size - size - HEADER, false), NextAddr(bs, i), bs[i].addr)
    requires i + 1 < |bs| ==> Header(m', bs[i + 1], NextAddr(bs, i + 1), bs[i].Payload() + size)
    requires SameOutside(m, m', bs[i].addr, EditEnd(bs, i + 1, end))
    ensures WellFormed(m', start, end, Split(bs, i, size))
  {
    WholeGood(bs, start, end, i, i + 1);
    assert Fits(bs, i, end);
    assert Whole(bs, i, i + 1, end, bs[i].used) == bs[i];
    CutLinked(m, m', start, end, bs, i, i + 1, size);
  }

  lemma WholeGood(bs: seq<Block>, start: int, end: int, i: nat, j: nat)
    requires Tiled(bs, start, end) && i < j <= |bs|
    ensures var w := Whole(bs, i, j, end, bs[i].used);
            GoodBlock(w, start, end) && w.addr == bs[i].addr && w.End() == Limit(bs, j - 1, end) && 0 < start
  {
    Stretch(bs, start, end, i, j);
    AlignedBlock(bs, start, end, j - 1);
    Sum8(Limit(bs, j - 1, end), bs[i].addr);
    Sum8(Limit(bs, j - 1, end) - bs[i].addr, HEADER);
  }

  /** Blocks i..j made one block (merge_blocks, or an in-place growth without remainder). */
  lemma JoinLinked(m: seq<byte>, m': seq<byte>, start: int, end: int, bs: seq<Block>, i: nat, j: nat)
    requires WellFormed(m, start, end, bs) && i < j <= |bs|
    requires Header(m', Whole(bs, i, j, end, bs[i].used), NextAddr(bs, j - 1), PrevAddr(bs, i))
    requires j < |bs| ==> Header(m', bs[j], NextAddr(bs, j), bs[i].addr)
    requires SameOutside(m, m', bs[i].addr, EditEnd(bs, j, end))
    ensures WellFormed(m', start, end, Splice(bs, i, j, [Whole(bs, i, j, end, bs[i].used)]))
  {
    var w := [Whole(bs, i, j, end, bs[i].used)];
    WholeTiled(bs, start, end, i, j, bs[i].used);
    assert MidHeader(m', bs, i, j, w, 0);
    SpliceLinked(m, m', start, end, bs, i, j, w);
  }

  /** The used byte of block i rewritten, and possibly its payload. */
  lemma FlagLinked(m: seq<byte>, m': seq<byte>, start: int, end: int, bs: seq<Block>, i: nat, used: bool)
    requires WellFormed(m, start, end, bs) && i < |bs|
    requires |m'| == |m| && 0 <= bs[i].addr && bs[i].addr + HEADER <= |m|
    requires forall x :: 0 <= x < |m| && x != bs[i].addr + USED && !(bs[i].Payload() <= x < bs[i].End()) ==>
               m'[x] == m[x]
    requires m'[bs[i].addr + USED] == if used then 1 else 0
    ensures WellFormed(m', start, end, SetUsed(bs, i, used))
  {
    hide Get32, Holds, Tiled, Splice;
    var b := bs[i].(used := used);
    HeaderFacts(m, start, end, bs, i);
    FlagHeader(m, m', bs[i], NextAddr(bs, i), PrevAddr(bs, i), used);
    WholeOne(bs, start, end, i, used);
    WholeTiled(bs, start, end, i, i + 1, used);
    assert MidHeader(m', bs, i, i + 1, [b], 0);
    if i + 1 < |bs| {
      HeaderFacts(m, start, end, bs, i + 1);
      HeaderSame(m, m', bs[i + 1], NextAddr(bs, i + 1), bs[i].addr);
    }
    SpliceLinked(m, m', start, end, bs, i, i + 1, [b]);
  }

  lemma FlagHeader(m: seq<byte>, m': seq<byte>, b: Block, next: int, prev: int, used: bool)
    requires Header(m, b, next, prev) && |m'| == |m|
    requires forall x :: b.addr <= x < b.Payload() && x != b.addr + USED ==> m'[x] == m[x]
    requires m'[b.addr + USED] == if used then 1 else 0
    ensures Header(m', b.(used := used), next, prev)
  {
  }

  /** Why krealloc's eight-byte in-place split destroys the list: the header it builds at n has, in
      its `next` field, its own size. No list starting at start can run through it. */
  lemma SelfSizedNextBreaks(m: seq<byte>, m': seq<byte>, start: int, end: int,
                            bs: seq<Block>, i: nat, n: int, rest: int)
    requires WellFormed(m, start, end, bs) && i < |bs| && |m'| == |m|
    requires bs[i].Payload() < n && n + HEADER + rest <= end && 0 < rest
    requires forall k :: 0 <= k < i ==> Holds(m', bs[k].addr, bs[k].size)
    requires Holds(m', bs[i].addr, n - bs[i].Payload()) && Holds(m', n, rest) && Holds(m', n + NEXT, rest)
    ensures forall cs :: !WellFormed(m', start, end, cs)
  {
    forall cs | WellFormed(m', start, end, cs) ensures false {
      WalkReaches(m, m', start, end, bs, cs, i);
      HeaderFacts(m', start, end, cs, i);
      HeaderFacts(m', start, end, cs, i + 1);
    }
  }

  /** As long as the sizes agree, two lists from the same start visit the same headers. */
  lemma {:induction false} WalkReaches(m: seq<byte>, m': seq<byte>, start: int, end: int,
                                       bs: seq<Block>, cs: seq<Block>, k: nat)
    requires WellFormed(m, start, end, bs) && WellFormed(m', start, end, cs) && k < |bs|
    requires forall o :: 0 <= o < k ==> Holds(m', bs[o].addr, bs[o].size)
    ensures k < |cs| && cs[k].addr == bs[k].addr
  {
    if k > 0 {
      WalkReaches(m, m', start, end, bs, cs, k - 1);
      HeaderFacts(m, start, end, bs, k - 1);
      HeaderFacts(m', start, end, cs, k - 1);
      HeaderFacts(m, start, end, bs, k);
      assert Holds(m', bs[k - 1].addr, bs[k - 1].size);
    }
  }
}
