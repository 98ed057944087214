/** The kernel heap allocator of heap.c, working on headers inside a flat byte memory. */
module KernelHeap {
  import opened Words
  import opened Memory
  import opened BlockList
  import opened HeapLaws
  import opened HeapRuns
  import opened Headers
  import opened HeapSteps

  class Heap {
    const mem: array<byte>
    var startAddr: word
    var endAddr: word
    var totalSize: word
    var usedSize: word
    var firstBlock: word
    /** The list that the headers in memory represent; by BlocksDetermined there is only one. */
    ghost var blocks: seq<Block>
    /** By how much krealloc has grown payloads in place. */
    ghost var grown: int

    /** The headers hold the list; neighbouring free blocks are allowed. */
    ghost predicate Linked()
      reads this, mem
    {
      WellFormed(mem[..], startAddr, endAddr, blocks) && firstBlock == startAddr && mem.Length <= WORD
    }

    ghost predicate Valid()
      reads this, mem
    {
      && Linked() && Coalesced(blocks)
      && totalSize == endAddr - startAddr
      && usedSize == (UsedSum(blocks) - grown) % WORD && 0 <= grown
    }

    /** The globals before heap_init: all zero. */
    constructor (memory: array<byte>)
      ensures mem == memory && usedSize == 0 && blocks == [] && grown == 0
    {
      mem := memory;
      startAddr, endAddr, totalSize, usedSize, firstBlock := 0, 0, 0, 0, 0;
      blocks, grown := [], 0;
    }

    /** heap_init: one free block over the aligned area. */
    method HeapInit(start: word, size: word)
      requires mem.Length <= WORD && 0 < start <= WORD - 8 && size >= HEADER
      requires AlignUp(start, 8) + AlignDown(size, 8) <= mem.Length
      requires AlignUp(start, 8) + AlignDown(size, 8) <= WORD - 8
      modifies this, mem
      ensures Valid()
      ensures startAddr == AlignUp(start, 8) && totalSize == AlignDown(size, 8) && grown == 0
      ensures blocks == Init(startAddr, endAddr).blocks
      ensures SameOutside(old(mem[..]), mem[..], startAddr, startAddr + HEADER)
    {
      hide AlignUp, AlignDown, WellFormed, UsedSum, Coalesced;
      InitBounds(start, size);
      var s := AlignUp(start, 8);
      var t := AlignDown(size, 8);
      startAddr := s;
      endAddr := (s + t) % WORD;
      totalSize := t;
      usedSize := 0;
      WriteFreeHeader(mem, s, t - HEADER, 0, 0);
      firstBlock := s;
      blocks := [Block(s, t - HEADER, false)];
      grown := 0;
      OneBlock(mem[..], s, endAddr, blocks[0]);
    }

    /** find_free_block: the first free block that is large enough, or NULL. */
    method FindFreeBlock(size: word) returns (current: word)
      requires Linked()
      ensures var i := FirstFitFrom(blocks, 0, size);
              current == if i < |blocks| then blocks[i].addr else 0
    {
      current := firstBlock;
      ghost var k := 0;
      HeaderFacts(mem[..], startAddr, endAddr, blocks, 0);
      while current != 0
        invariant 0 <= k <= |blocks|
        invariant current == if k < |blocks| then blocks[k].addr else 0
        invariant k < |blocks| ==> current != 0
        invariant FirstFitFrom(blocks, 0, size) == FirstFitFrom(blocks, k, size)
        decreases |blocks| - k
      {
        HeaderFacts(mem[..], startAddr, endAddr, blocks, k);
        if mem[current + USED] == 0 && Load32(mem, current) >= size {
          return;
        }
        current := Load32(mem, current + NEXT);
        k := k + 1;
      }
    }

    /** split_block */
    method SplitBlock(block: word, size: word, ghost i: nat)
      requires Linked() && i < |blocks| && blocks[i].addr == block
      requires size % 8 == 0 && size <= blocks[i].size
      modifies this`blocks, mem
      ensures Linked() && blocks == Split(old(blocks), i, size)
      ensures SameOutside(old(mem[..]), mem[..], block, EditEnd(old(blocks), i + 1, endAddr))
    {
      hide Get32, Tiled, Splice, NextSet, SizeSet, Split;
      ghost var m, bs := mem[..], blocks;
      HeaderFacts(m, startAddr, endAddr, bs, i);
      if Load32(mem, block) < (size + MIN_BLOCK) % WORD {
        SplitTooSmall(bs, i, size);
        return;
      }
      var newBlock := block + HEADER + size;
      WriteFreeHeader(mem, newBlock, Load32(mem, block) - size - HEADER, Load32(mem, block + NEXT), block);
      ghost var m1 := mem[..];
      if Load32(mem, block + NEXT) != 0 {
        HeaderFacts(m, startAddr, endAddr, bs, i + 1);
        SetPrev(mem, Load32(mem, block + NEXT), newBlock);
      }
      ghost var m2 := mem[..];
      SetNext(mem, block, newBlock);
      ghost var m3 := mem[..];
      SetSize(mem, block, size);
      SplitDone(m, m1, m2, m3, mem[..], startAddr, endAddr, bs, i, size);
      blocks := Split(blocks, i, size);
    }

    /** The free block x takes in the free block y behind it: its header and payload become part
        of x's payload, and the list skips it. */
    method Absorb(x: word, y: word, ghost i: nat)
      requires Linked() && i + 1 < |blocks| && blocks[i].addr == x && blocks[i + 1].addr == y
      requires !blocks[i].used && !blocks[i + 1].used
      modifies this`blocks, mem
      ensures Linked() && blocks == Merge(old(blocks), i)
      ensures Keeps(old(mem[..]), mem[..], UsedBlocks(old(blocks)) + {old(blocks[i]), old(blocks[i + 1])})
      ensures ByteIs(mem[..], y + USED, 0) && SameOutside(old(mem[..]), mem[..], startAddr, endAddr)
    {
      hide Get32, Tiled, Splice, NextSet, PrevSet, Keeps;
      ghost var m, bs := mem[..], blocks;
      HeaderFacts(m, startAddr, endAddr, bs, i);
      HeaderFacts(m, startAddr, endAddr, bs, i + 1);
      SumIsWord(bs[i].size, bs[i + 1].size);
      assert Load32(mem, x) == bs[i].size && Load32(mem, y) == bs[i + 1].size;
      var size := (Load32(mem, x) + HEADER + Load32(mem, y)) % WORD;
      assert size == bs[i].size + HEADER + bs[i + 1].size;
      var next := Load32(mem, y + NEXT);
      SetSize(mem, x, size);
      ghost var m1 := mem[..];
      SetNext(mem, x, next);
      ghost var m2 := mem[..];
      if next != 0 {
        HeaderFacts(m, startAddr, endAddr, bs, i + 2);
        SetPrev(mem, next, x);
      }
      AbsorbDone(m, m1, m2, mem[..], startAddr, endAddr, bs, i);
      blocks := Merge(blocks, i);
    }

    /** The first half of merge_blocks: `if (block->next && !block->next->used)`. */
    method MergeWithNext(block: word, ghost i: nat)
      requires Linked() && i < |blocks| && blocks[i].addr == block && !blocks[i].used
      modifies this`blocks, mem
      ensures Linked() && blocks == MergeNext(old(blocks), i)
      ensures Keeps(old(mem[..]), mem[..], UsedBlocks(old(blocks)) + {old(blocks[i])})
      ensures SameOutside(old(mem[..]), mem[..], startAddr, endAddr)
    {
      hide Get32, Tiled, Splice;
      HeaderFacts(mem[..], startAddr, endAddr, blocks, i);
      var next := Load32(mem, block + NEXT);
      if next != 0 {
        HeaderFacts(mem[..], startAddr, endAddr, blocks, i + 1);
        if mem[next + USED] == 0 {
          Absorb(block, next, i);
        }
      }
    }

    /** The second half of merge_blocks: `if (block->prev && !block->prev->used)`. */
    method MergeWithPrev(block: word, ghost i: nat)
      requires Linked() && i < |blocks| && blocks[i].addr == block && !blocks[i].used
      modifies this`blocks, mem
      ensures Linked() && blocks == MergePrev(old(blocks), i)
      ensures Keeps(old(mem[..]), mem[..], UsedBlocks(old(blocks)) + {old(blocks[i])})
      ensures ByteIs(mem[..], block + USED, 0) && SameOutside(old(mem[..]), mem[..], startAddr, endAddr)
    {
      hide Get32, Tiled, Splice;
      HeaderFacts(mem[..], startAddr, endAddr, blocks, i);
      var prev := Load32(mem, block + PREV);
      if prev != 0 {
        HeaderFacts(mem[..], startAddr, endAddr, blocks, i - 1);
        if mem[prev + USED] == 0 {
          Absorb(prev, block, i - 1);
        }
      }
    }

    /** merge_blocks: the used byte in block's own header, stale or not, stays 0. */
    method MergeBlocks(block: word, ghost i: nat)
      requires Linked() && i < |blocks| && blocks[i].addr == block && !blocks[i].used
      modifies this`blocks, mem
      ensures Linked() && blocks == MergeAround(old(blocks), i)
      ensures Keeps(old(mem[..]), mem[..], UsedBlocks(old(blocks)) + {old(blocks[i])})
      ensures ByteIs(mem[..], block + USED, 0) && SameOutside(old(mem[..]), mem[..], startAddr, endAddr)
    {
      hide Get32, Tiled, Splice;
      ghost var m, bs := mem[..], blocks;
      MergeNextUsed(bs, startAddr, endAddr, i);
      MergeWithNext(block, i);
      ghost var m1, w := mem[..], blocks[i];
      MergeWithPrev(block, i);
      KeepsBoth(m, m1, mem[..], UsedBlocks(bs), UsedBlocks(bs) + {w}, bs[i], w);
    }

    /** kmalloc past its search: the block found is split, marked and counted. */
    method TakeBlock(block: word, size: word, ghost n: word, ghost i: nat)
      requires Valid() && n != 0 && size == AlignUp(n, 8) && size % 8 == 0
      requires i == FirstFitFrom(blocks, 0, size) < |blocks| && blocks[i].addr == block
      modifies this`blocks, this`usedSize, mem
      ensures Valid() && blocks == Malloc(old(blocks), n).0
      ensures Keeps(old(mem[..]), mem[..], UsedBlocks(old(blocks)))
      ensures SameOutside(old(mem[..]), mem[..], startAddr, endAddr)
    {
      hide Get32, AlignUp, Tiled, Splice, Coalesced, UsedSum, Malloc, Keeps, Split;
      ghost var m, bs := mem[..], blocks;
      MallocFacts(bs, startAddr, endAddr, i, n, grown);
      SplitFirst(bs, i, size);
      SplitBlock(block, size, i);
      ghost var m' := mem[..];
      HeaderFacts(m', startAddr, endAddr, blocks, i);
      Store8(mem, block + USED, 1);
      FlagSet(m', mem[..], startAddr, endAddr, blocks, i);
      MallocKeeps(m, m', mem[..], startAddr, endAddr, bs, i);
      blocks := SetUsed(blocks, i, true);
      HeaderFacts(mem[..], startAddr, endAddr, blocks, i);
      assert Load32(mem, block) == blocks[i].size;
      usedSize := (usedSize + Load32(mem, block)) % WORD;
    }

    /** kmalloc: the block list becomes what Malloc says, the address is the one Malloc says, and no
        live payload changes; a failure changes nothing at all. */
    method Kmalloc(n: word) returns (r: word)
      requires Valid()
      modifies this`blocks, this`usedSize, mem
      ensures Valid()
      ensures (blocks, r as int) == Malloc(old(blocks), n)
      ensures r == 0 ==> mem[..] == old(mem[..]) && usedSize == old(usedSize) && blocks == old(blocks)
      ensures Keeps(old(mem[..]), mem[..], UsedBlocks(old(blocks)))
      ensures SameOutside(old(mem[..]), mem[..], startAddr, endAddr)
    {
      hide Get32, AlignUp, Tiled, Splice, Coalesced, UsedSum, Malloc, Keeps, Split;
      KeepsSelf(mem[..], UsedBlocks(blocks));
      if n == 0 {
        MallocFails(blocks, n);
        return 0;
      }
      Aligned8(n);
      var size := AlignUp(n, 8);
      var block := FindFreeBlock(size);
      if block == 0 {
        NoneFound(mem[..], startAddr, endAddr, blocks, size);
        MallocFails(blocks, n);
        return 0;
      }
      ghost var i := FirstFitFrom(blocks, 0, size);
      AddressFits(mem[..], startAddr, endAddr, blocks, i, n);
      TakeBlock(block, size, n, i);
      return block + HEADER;
    }

    /** What kfree may be given: NULL, a live payload, an address whose header would lie outside the
        heap, or one whose would-be header has a zero used byte, like a pointer just freed. */
    ghost predicate Freeable(ptr: word)
      reads this, mem
    {
      var block := (ptr - HEADER) % WORD;
      ptr == 0 || Live(blocks, ptr) || block < startAddr || block >= endAddr || ByteIs(mem[..], block + USED, 0)
    }

    /** kfree past its tests: the block becomes free, its payload zero, and it is merged. */
    method FreeLive(ptr: word, block: word, ghost i: nat)
      requires Valid() && Live(blocks, ptr) && i == LiveIndex(blocks, ptr) && block == ptr - HEADER
      modifies this`blocks, this`usedSize, mem
      ensures Valid() && blocks == Free(old(blocks), ptr) && !Live(blocks, ptr)
      ensures Zeroed(mem[..], ptr, ptr + old(LiveBlock(blocks, ptr)).size) && ByteIs(mem[..], block + USED, 0)
      ensures Keeps(old(mem[..]), mem[..], UsedBlocks(blocks))
      ensures SameOutside(old(mem[..]), mem[..], startAddr, endAddr)
    {
      hide Get32, Tiled, Splice, Coalesced, UsedSum, Free, LiveIndex, Keeps, MergeAround, SetUsed;
      ghost var m, bs := mem[..], blocks;
      LiveHeader(m, startAddr, endAddr, bs, ptr);
      FreeFacts(bs, startAddr, endAddr, ptr, grown);
      Store8(mem, block + USED, 0);
      ghost var m1 := mem[..];
      assert Load32(mem, block) == bs[i].size;
      usedSize := (usedSize - Load32(mem, block)) % WORD;
      MemorySet(mem, ptr, 0, Load32(mem, block));
      ghost var m2 := mem[..];
      FreedLinked(m, m1, m2, startAddr, endAddr, bs, i);
      blocks := SetUsed(bs, i, false);
      MergeBlocks(block, i);
      KeepsTrans(m, m2, mem[..], UsedBlocks(blocks), UsedBlocks(bs) - {bs[i]} + {bs[i].(used := false)});
      ZeroKept(m2, mem[..], UsedBlocks(bs) - {bs[i]} + {bs[i].(used := false)}, bs[i].(used := false));
    }

    /** kfree: a live payload is zeroed and its block merged with its free neighbours; for anything
        else the whole heap stays as it is. */
    method Kfree(ptr: word)
      requires Valid() && Freeable(ptr)
      modifies this`blocks, this`usedSize, mem
      ensures Valid()
      ensures blocks == Free(old(blocks), ptr)
      ensures !old(Live(blocks, ptr)) ==> mem[..] == old(mem[..]) && usedSize == old(usedSize)
      ensures old(Live(blocks, ptr)) ==> Zeroed(mem[..], ptr, ptr + old(LiveBlock(blocks, ptr)).size)
      ensures Freeable(ptr) && !Live(blocks, ptr)
      ensures Keeps(old(mem[..]), mem[..], UsedBlocks(blocks))
      ensures SameOutside(old(mem[..]), mem[..], startAddr, endAddr)
    {
      hide Get32, Tiled, Splice, Coalesced, UsedSum, Free, LiveIndex, Keeps, MergeAround, SetUsed;
      KeepsSelf(mem[..], UsedBlocks(blocks));
      ghost var m, bs, i := mem[..], blocks, LiveIndex(blocks, ptr);
      if Live(bs, ptr) {
        LiveHeader(m, startAddr, endAddr, bs, ptr);
      } else {
        NothingToFree(bs, ptr);
      }
      if ptr == 0 {
        return;
      }
      var block := (ptr - HEADER) % WORD;
      if block < startAddr || block >= endAddr {
        return;
      }
      if mem[block + USED] == 0 {
        return;
      }
      FreeLive(ptr, block, i);
    }

    /** The in-place growth of krealloc with a remainder. The list survives it exactly when the
        growth is not eight bytes. */
    method GrowAndSplit(block: word, newSize: word, total: word, ghost m: seq<byte>, ghost i: nat)
      requires mem.Length <= WORD && WellFormed(m, startAddr, endAddr, blocks)
      requires i + 1 < |blocks| && blocks[i].addr == block && blocks[i].used && !blocks[i + 1].used
      requires total == blocks[i].size + HEADER + blocks[i + 1].size && newSize % 8 == 0
      requires blocks[i].size + 8 <= newSize && newSize + MIN_BLOCK <= total
      requires SizeSet(m, mem[..], block, newSize)
      modifies mem
      ensures newSize != blocks[i].size + 8 ==>
                WellFormed(mem[..], startAddr, endAddr, Split(Merge(blocks, i), i, newSize))
                && Keeps(m, mem[..], UsedBlocks(blocks)) && SameOutside(m, mem[..], startAddr, endAddr)
      ensures newSize == blocks[i].size + 8 ==> forall cs :: !WellFormed(mem[..], startAddr, endAddr, cs)
    {
      hide Get32, Tiled, SizeSet, PrevSet, NextSet, Keeps, SameOutside, Split, Merge;
      ghost var m0, bs, next, nn := mem[..], blocks, blocks[i + 1], NextAddr(blocks, i + 1);
      SizedHeaders(m, m0, startAddr, endAddr, bs, i, newSize);
      GrowthIsAligned(bs, startAddr, endAddr, i, newSize);
      var newNext := block + HEADER + newSize;
      var rest := total - newSize - HEADER;
      BuildRemainder(mem, block, newNext, rest, bs[i].(size := newSize), next, nn, PrevAddr(bs, i));
      ghost var m1 := mem[..];
      assert Header(m1, bs[i].(size := newSize), next.addr, PrevAddr(bs, i));
      assert Load32(mem, next.addr + NEXT) == if newSize == bs[i].size + 8 then rest else nn;
      if Load32(mem, Load32(mem, block + NEXT) + NEXT) != 0 {
        SetPrev(mem, Load32(mem, Load32(mem, block + NEXT) + NEXT), newNext);
      }
      ghost var m2 := mem[..];
      SetNext(mem, block, newNext);
      if newSize == bs[i].size + 8 {
        EightByteBreaks(m, m0, m1, m2, mem[..], startAddr, endAddr, bs, i, newNext, rest);
      } else {
        GrowSplitDone(m, m0, m1, m2, mem[..], startAddr, endAddr, bs, i, newSize, rest);
      }
    }

    /** The in-place growth of krealloc without a remainder: the next block is absorbed whole. */
    method GrowWhole(block: word, ghost newSize: word, total: word, ghost m: seq<byte>, ghost i: nat)
      requires mem.Length <= WORD && WellFormed(m, startAddr, endAddr, blocks)
      requires i + 1 < |blocks| && blocks[i].addr == block && blocks[i].used && !blocks[i + 1].used
      requires total == blocks[i].size + HEADER + blocks[i + 1].size
      requires blocks[i].size < newSize && total < newSize + MIN_BLOCK
      requires SizeSet(m, mem[..], block, newSize)
      modifies mem
      ensures WellFormed(mem[..], startAddr, endAddr, Split(Merge(blocks, i), i, newSize))
      ensures Keeps(m, mem[..], UsedBlocks(blocks)) && SameOutside(m, mem[..], startAddr, endAddr)
    {
      hide Get32, Tiled, Splice, UsedBlocks, Keeps, SizeSet, PrevSet;
      ghost var m0, bs := mem[..], blocks;
      HeaderFacts(m, startAddr, endAddr, bs, i);
      HeaderFacts(m, startAddr, endAddr, bs, i + 1);
      SizedHeaders(m, m0, startAddr, endAddr, bs, i, newSize);
      SetSize(mem, block, total);
      ghost var m1 := mem[..];
      SizedTwice(m, m0, m1, startAddr, endAddr, bs, i, newSize, total);
      assert Load32(mem, block + NEXT) == bs[i + 1].addr && Load32(mem, bs[i + 1].addr + NEXT) == NextAddr(bs, i + 1);
      SetNext(mem, block, Load32(mem, Load32(mem, block + NEXT) + NEXT));
      ghost var m2 := mem[..];
      assert Header(m2, bs[i].(size := total), NextAddr(bs, i + 1), PrevAddr(bs, i));
      assert Load32(mem, block + NEXT) == NextAddr(bs, i + 1);
      if Load32(mem, block + NEXT) != 0 {
        HeaderFacts(m, startAddr, endAddr, bs, i + 2);
        SetPrev(mem, Load32(mem, block + NEXT), block);
      }
      GrowWholeDone(m, m0, m1, m2, mem[..], startAddr, endAddr, bs, i, newSize, total);
    }

    /** The in-place growth of krealloc. `used_size += new_size - block->size` comes after
        block->size has been set to new_size, so it adds nothing. */
    method GrowInPlace(ptr: word, block: word, newSize: word, total: word, ghost i: nat)
      requires Valid() && Live(blocks, ptr) && i == LiveIndex(blocks, ptr) && block == ptr - HEADER
      requires CanGrow(blocks, i, newSize) && newSize % 8 == 0
      requires total == blocks[i].size + HEADER + blocks[i + 1].size
      modifies this`blocks, this`usedSize, this`grown, mem
      ensures var eight := newSize == old(blocks)[i].size + 8 && newSize + MIN_BLOCK <= total;
              && (eight ==> forall cs :: !WellFormed(mem[..], startAddr, endAddr, cs))
              && (!eight ==> Valid() && Keeps(old(mem[..]), mem[..], UsedBlocks(old(blocks)))
                             && SameOutside(old(mem[..]), mem[..], startAddr, endAddr))
      ensures blocks == Split(Merge(old(blocks), i), i, newSize)
      ensures grown == old(grown) + SizeAt(blocks, ptr) - SizeAt(old(blocks), ptr)
    {
      hide Get32, Tiled, Splice, Coalesced, UsedSum, UsedBlocks, Split, Merge, LiveIndex, Keeps, SizeSet, SizeAt, Same;
      ghost var m, bs := mem[..], blocks;
      LiveHeader(m, startAddr, endAddr, bs, ptr);
      HeaderFacts(m, startAddr, endAddr, bs, i);
      HeaderFacts(m, startAddr, endAddr, bs, i + 1);
      GrowFacts(bs, startAddr, endAddr, ptr, newSize, grown);
      SetSize(mem, block, newSize);
      SizedHeaders(m, mem[..], startAddr, endAddr, bs, i, newSize);
      assert Load32(mem, block) == newSize;
      usedSize := (usedSize + (newSize - Load32(mem, block)) % WORD) % WORD;
      assert usedSize == old(usedSize);
      if total - newSize >= MIN_BLOCK {
        GrowthIsAligned(bs, startAddr, endAddr, i, newSize);
        GrowAndSplit(block, newSize, total, m, i);
      } else {
        GrowWhole(block, newSize, total, m, i);
      }
      blocks := Split(Merge(bs, i), i, newSize);
      grown := grown + SizeAt(blocks, ptr) - SizeAt(bs, ptr);
      assert UsedSum(blocks) - grown == UsedSum(bs) - old(grown);
    }

    /** The test before the growth: is the next block free, and are the two together enough? */
    method TryGrow(ptr: word, block: word, size: word, ghost i: nat) returns (grew: bool)
      requires Valid() && Live(blocks, ptr) && i == LiveIndex(blocks, ptr) && block == ptr - HEADER
      requires size % 8 == 0 && blocks[i].size < size
      modifies this`blocks, this`usedSize, this`grown, mem
      ensures grew == CanGrow(old(blocks), i, size)
      ensures !grew ==> mem[..] == old(mem[..]) && usedSize == old(usedSize)
                        && blocks == old(blocks) && grown == old(grown)
      ensures grew ==>
                var eight := size == old(blocks)[i].size + 8 && old(blocks)[i + 1].size >= 16;
                && (eight ==> forall cs :: !WellFormed(mem[..], startAddr, endAddr, cs))
                && (!eight ==> Valid() && Keeps(old(mem[..]), mem[..], UsedBlocks(old(blocks)))
                               && SameOutside(old(mem[..]), mem[..], startAddr, endAddr))
                && blocks == Split(Merge(old(blocks), i), i, size)
                && grown == old(grown) + SizeAt(blocks, ptr) - SizeAt(old(blocks), ptr)
    {
      hide Get32, Tiled, Splice, Coalesced, UsedSum, Split, Merge, LiveIndex, UsedBlocks, Keeps;
      LiveHeader(mem[..], startAddr, endAddr, blocks, ptr);
      HeaderFacts(mem[..], startAddr, endAddr, blocks, i);
      var next := Load32(mem, block + NEXT);
      if next != 0 {
        HeaderFacts(mem[..], startAddr, endAddr, blocks, i + 1);
        if mem[next + USED] == 0 {
          SumIsWord(blocks[i].size, blocks[i + 1].size);
          assert Load32(mem, block) == blocks[i].size && Load32(mem, next) == blocks[i + 1].size;
          var total := (Load32(mem, block) + HEADER + Load32(mem, next)) % WORD;
          assert total == blocks[i].size + HEADER + blocks[i + 1].size;
          if total >= size {
            GrowInPlace(ptr, block, size, total, i);
            return true;
          }
        }
      }
      return false;
    }

    /** The copy of a live payload over another one, at least as long. */
    method CopyPayload(ptr: word, r: word)
      requires Valid() && Live(blocks, ptr) && Live(blocks, r)
      requires LiveBlock(blocks, ptr).size <= LiveBlock(blocks, r).size
      modifies mem
      ensures Valid()
      ensures Copied(old(mem[..]), mem[..], ptr, r, LiveBlock(blocks, ptr).size)
      ensures Keeps(old(mem[..]), mem[..], UsedBlocks(blocks) - {LiveBlock(blocks, r)})
      ensures SameOutside(old(mem[..]), mem[..], startAddr, endAddr)
    {
      hide Get32, Tiled, Splice, Coalesced, UsedSum, LiveIndex, UsedBlocks, Keeps, Copied;
      ghost var m := mem[..];
      LiveHeader(m, startAddr, endAddr, blocks, ptr);
      LiveHeader(m, startAddr, endAddr, blocks, r);
      assert Load32(mem, ptr - HEADER) == LiveBlock(blocks, ptr).size;
      MemoryCopy(mem, r, ptr, Load32(mem, ptr - HEADER));
      ShorterWrite(m, mem[..], r, LiveBlock(blocks, ptr).size, LiveBlock(blocks, r).size);
      PayloadWritten(m, mem[..], startAddr, endAddr, blocks, r);
    }

    /** krealloc by moving: allocate, copy the old payload, free it. */
    method Move(ptr: word, size: word) returns (r: word)
      requires Valid() && Live(blocks, ptr) && size % 8 == 0 && LiveBlock(blocks, ptr).size < size <= WORD - 8
      modifies this`blocks, this`usedSize, mem
      ensures Valid()
      ensures r as int == Malloc(old(blocks), size).1 && r != ptr
      ensures blocks == if r == 0 then old(blocks) else Free(Malloc(old(blocks), size).0, ptr)
      ensures r == 0 ==> mem[..] == old(mem[..]) && usedSize == old(usedSize)
      ensures r != 0 ==> Copied(old(mem[..]), mem[..], ptr, r, old(LiveBlock(blocks, ptr)).size)
      ensures Keeps(old(mem[..]), mem[..], UsedBlocks(old(blocks)) - {old(LiveBlock(blocks, ptr))})
      ensures SameOutside(old(mem[..]), mem[..], startAddr, endAddr)
    {
      hide Get32, Tiled, Splice, Coalesced, UsedSum, Malloc, Free, LiveIndex, UsedBlocks, Keeps, Header, SameOutside;
      ghost var m, bs := mem[..], blocks;
      LiveHeader(m, startAddr, endAddr, bs, ptr);
      r := Kmalloc(size);
      if r != 0 {
        ghost var m1, bs1 := mem[..], blocks;
        MallocKeepsLive(bs, bs1, startAddr, endAddr, size, ptr, r);
        CopyPayload(ptr, r);
        ghost var m2 := mem[..];
        Kfree(ptr);
        FreeRemovesOne(bs1, startAddr, endAddr, ptr);
        MoveDone(m, m1, m2, mem[..], startAddr, endAddr, bs, bs1, blocks, ptr, r);
      } else {
        KeepsSome(m, mem[..], UsedBlocks(bs) - {LiveBlock(bs, ptr)}, UsedBlocks(bs));
      }
    }

    /** krealloc of a live payload to a non-zero size. */
    method Resize(ptr: word, newSize: word) returns (r: word)
      requires Valid() && Live(blocks, ptr) && newSize != 0
      modifies this`blocks, this`usedSize, this`grown, mem
      ensures old(EightByteSplit(blocks, ptr, newSize)) ==>
                r == ptr && forall cs :: !WellFormed(mem[..], startAddr, endAddr, cs)
      ensures !old(EightByteSplit(blocks, ptr, newSize)) ==>
                && Valid() && (blocks, r as int) == Realloc(old(blocks), ptr, newSize)
                && Keeps(old(mem[..]), mem[..], UsedBlocks(old(blocks)) - {old(LiveBlock(blocks, ptr))})
                && SameOutside(old(mem[..]), mem[..], startAddr, endAddr)
                && (r != 0 ==> Copied(old(mem[..]), mem[..], ptr, r, old(LiveBlock(blocks, ptr)).size))
      ensures r == 0 ==> mem[..] == old(mem[..]) && usedSize == old(usedSize) && blocks == old(blocks)
      ensures grown == old(grown) + if r == ptr then SizeAt(blocks, ptr) - SizeAt(old(blocks), ptr) else 0
    {
      hide Get32, Tiled, Splice, Coalesced, UsedSum, UsedBlocks, Keeps;
      hide Malloc, Free, Realloc, Split, Merge, LiveIndex, AlignUp;
      ghost var m, bs, i := mem[..], blocks, LiveIndex(blocks, ptr);
      var block := ptr - HEADER;
      LiveHeader(m, startAddr, endAddr, bs, ptr);
      ReallocCases(bs, ptr, newSize);
      Aligned8(newSize);
      var size := AlignUp(newSize, 8);
      if size <= Load32(mem, block) {
        KeepsSelf(m, UsedBlocks(bs) - {bs[i]});
        return ptr;
      }
      var grew := TryGrow(ptr, block, size, i);
      if grew {
        if !EightByteSplit(bs, ptr, newSize) {
          KeptPayload(m, mem[..], bs, ptr);
        }
        return ptr;
      }
      r := Move(ptr, size);
    }

    /** krealloc. Its heap is a heap again exactly when the call is not an eight-byte in-place split;
        then the block list and the result are what Realloc says, the old payload is found at the
        start of the new one, no other live payload changes, and used_size misses only the growth in
        place. A failed call (NULL for a non-zero size) changes nothing. */
    method Krealloc(ptr: word, newSize: word) returns (r: word)
      requires Valid()
      requires ptr == 0 || Live(blocks, ptr) || (newSize == 0 && Freeable(ptr))
      modifies this`blocks, this`usedSize, this`grown, mem
      ensures (exists cs :: WellFormed(mem[..], startAddr, endAddr, cs)) <==> !old(EightByteSplit(blocks, ptr, newSize))
      ensures !old(EightByteSplit(blocks, ptr, newSize)) ==>
                && Valid() && (blocks, r as int) == Realloc(old(blocks), ptr, newSize)
                && Keeps(old(mem[..]), mem[..], Others(old(blocks), ptr))
                && SameOutside(old(mem[..]), mem[..], startAddr, endAddr)
                && (old(Live(blocks, ptr)) && r != 0 ==>
                      Copied(old(mem[..]), mem[..], ptr, r, old(LiveBlock(blocks, ptr)).size))
      ensures r == 0 && newSize != 0 ==> mem[..] == old(mem[..]) && usedSize == old(usedSize) && blocks == old(blocks)
      ensures grown == old(grown) + if r == ptr && ptr != 0 then SizeAt(blocks, ptr) - SizeAt(old(blocks), ptr) else 0
    {
      hide Get32, Tiled, Splice, Coalesced, UsedSum, Malloc, Free, LiveIndex, UsedBlocks, Keeps, Others;
      ghost var m, bs := mem[..], blocks;
      NullNotLive(bs, startAddr, endAddr);
      OthersAre(bs, startAddr, endAddr, ptr);
      if ptr == 0 {
        r := Kmalloc(newSize);
      } else if newSize == 0 {
        Kfree(ptr);
        r := 0;
        FreeKeeps(m, mem[..], bs, startAddr, endAddr, ptr);
      } else {
        r := Resize(ptr, newSize);
      }
    }
  }

  /** The concrete history behind ConcreteEightByteSplit, call by call: the last one returns, and the
      memory holds no block list any more. */
  method EightByteGrowthLosesList() returns (h: Heap)
    ensures fresh(h) && forall cs :: !WellFormed(h.mem[..], h.startAddr, h.endAddr, cs)
  {
    hide AlignUp, AlignDown, Malloc, EightByteSplit, Realloc;
    AlignTo8(1024);
    var memory := new byte[4096];
    h := new Heap(memory);
    h.HeapInit(1024, 1024);
    ConcreteEightByteSplit();
    var p := h.Kmalloc(8);
    var q := h.Krealloc(p, 16);
  }
}
