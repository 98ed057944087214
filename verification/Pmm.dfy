/** The physical page allocator of pmm.c: a bitmap of 32-bit words, one bit a page, and a cached
    count of free pages. The number of words is a parameter (32768 in the kernel). */
module PageAllocator {
  import opened Words
  import opened Memory

  const PAGE_SIZE := 4096
  const RESERVED_PAGES := 256

  /** The bit of page p. */
  predicate PageBit(b: seq<word>, p: nat)
    requires p < 32 * |b|
  {
    Bit(b[p / 32], p % 32)
  }

  /** What the bitmap denotes: the used pages, and the others. */
  ghost function Used(b: seq<word>): set<nat> {
    set p: nat | p < 32 * |b| && PageBit(b, p)
  }

  ghost function Clear(b: seq<word>): set<nat> {
    set p: nat | p < 32 * |b| && !PageBit(b, p)
  }

  /** A linear scan: the least page from k on that is not used, n if there is none. */
  ghost function FirstUnused(used: set<nat>, k: nat, n: nat): (r: nat)
    requires k <= n
    ensures k <= r <= n
    ensures r < n ==> r !in used
    ensures forall j :: k <= j < r ==> j in used
    decreases n - k
  {
    if k == n || k !in used then k else FirstUnused(used, k + 1, n)
  }

  /** (kernel_end + PAGE_SIZE - 1) >> PAGE_SHIFT on 32-bit words */
  function KernelPages(kernelEnd: word): (n: nat)
    ensures n <= 0x10_0000
  {
    (kernelEnd + PAGE_SIZE - 1) % WORD / PAGE_SIZE
  }

  /** The kernel's pages are counted rightly exactly up to 2^32 - 4096; past that the sum wraps and
      no page at all is counted. */
  lemma KernelPagesExact(kernelEnd: word)
    ensures kernelEnd <= KernelPages(kernelEnd) * PAGE_SIZE < kernelEnd + PAGE_SIZE <==> kernelEnd <= WORD - PAGE_SIZE
    ensures kernelEnd > WORD - PAGE_SIZE ==> KernelPages(kernelEnd) == 0
  {
  }

  /** The reserved pages by their addresses: those that begin in the first megabyte or below the
      kernel's end, if that does not wrap. */
  lemma ReservedByAddress(kernelEnd: word, n: nat)
    ensures forall p: nat :: p in ReservedPages(kernelEnd, n) <==>
              p < n && (p * 4096 < 0x10_0000 || (kernelEnd <= WORD - 4096 && p * 4096 < kernelEnd))
  {
    KernelPagesExact(kernelEnd);
    forall p: nat ensures p < KernelPages(kernelEnd) <==> kernelEnd <= WORD - 4096 && p * 4096 < kernelEnd {
      if kernelEnd <= WORD - 4096 {
        assert p < KernelPages(kernelEnd) <==> p * 4096 < KernelPages(kernelEnd) * 4096;
        assert p * 4096 % 4096 == 0;
      }
    }
  }

  /** i << PAGE_SHIFT does not lose bits of a page number. */
  lemma AddressOfPage(i: nat)
    requires i < 0x10_0000
    ensures i * PAGE_SIZE % WORD == i * PAGE_SIZE && i * PAGE_SIZE / PAGE_SIZE == i
  {
  }

  /** The pages pmm_init reserves: the kernel's, and the first megabyte. */
  ghost function ReservedPages(kernelEnd: word, n: nat): set<nat> {
    set p: nat | p in Upto(n) && (p < KernelPages(kernelEnd) || p < RESERVED_PAGES)
  }

  // ---- Single bits ----

  /** Writing word p / 32 changes the pages of that word only. */
  lemma SetPage(b: seq<word>, p: nat)
    requires p < 32 * |b|
    ensures Or(b[p / 32], Pow2(p % 32)) < WORD
    ensures var b' := b[p / 32 := Or(b[p / 32], Pow2(p % 32))];
            Used(b') == Used(b) + {p} && Clear(b') == Clear(b) - {p}
  {
    SetBit(b[p / 32], p % 32);
    var b' := b[p / 32 := Or(b[p / 32], Pow2(p % 32))];
    forall q: nat | q < 32 * |b| ensures PageBit(b', q) <==> q == p || PageBit(b, q) {
      assert q / 32 == p / 32 && q % 32 == p % 32 ==> q == p;
    }
  }

  lemma ClearPage(b: seq<word>, p: nat)
    requires p < 32 * |b|
    ensures Pow2(p % 32) < WORD && And(b[p / 32], Not(Pow2(p % 32))) < WORD
    ensures var b' := b[p / 32 := And(b[p / 32], Not(Pow2(p % 32)))];
            Used(b') == Used(b) - {p} && Clear(b') == Clear(b) + {p}
  {
    ClearBit(b[p / 32], p % 32);
    var b' := b[p / 32 := And(b[p / 32], Not(Pow2(p % 32)))];
    forall q: nat | q < 32 * |b| ensures PageBit(b', q) <==> q != p && PageBit(b, q) {
      assert q / 32 == p / 32 && q % 32 == p % 32 ==> q == p;
    }
  }

  /** A full word has no clear page, any other word has one. */
  lemma WordOfPages(b: seq<word>, i: nat)
    requires i < |b|
    ensures b[i] == 0xFFFF_FFFF <==> forall p: nat :: 32 * i <= p < 32 * i + 32 ==> p !in Clear(b)
  {
    FullWord(b[i]);
    if b[i] == 0xFFFF_FFFF {
      forall p: nat | 32 * i <= p < 32 * i + 32 ensures p !in Clear(b) {
        assert p / 32 == i && Bit(b[i], p % 32);
      }
    } else {
      var k :| 0 <= k < 32 && !Bit(b[i], k);
      var p: nat := 32 * i + k;
      assert p / 32 == i && p % 32 == k;
      assert p in Clear(b);
    }
  }

  ghost function Upto(n: nat): (s: set<nat>)
    ensures forall p: nat :: p in s <==> p < n
  {
    if n == 0 then {} else Upto(n - 1) + {n - 1}
  }

  lemma {:induction false} UptoSize(n: nat)
    ensures |Upto(n)| == n
  {
    if n > 0 {
      UptoSize(n - 1);
    }
  }

  lemma UsedAndClear(b: seq<word>)
    ensures Used(b) + Clear(b) == Upto(32 * |b|) && Used(b) * Clear(b) == {}
    ensures |Used(b)| + |Clear(b)| == 32 * |b|
  {
    UptoSize(32 * |b|);
    assert Used(b) + Clear(b) == Upto(32 * |b|);
    assert |Used(b) + Clear(b)| == |Used(b)| + |Clear(b)|;
  }

  /** The least clear bit is the linear scan's result. */
  lemma LeastClear(b: seq<word>, p: nat)
    requires p in Clear(b) && forall q: nat :: q < p ==> q !in Clear(b)
    ensures FirstUnused(Used(b), 0, 32 * |b|) == p
  {
    var r := FirstUnused(Used(b), 0, 32 * |b|);
    assert p < 32 * |b| && p !in Used(b);
    assert r <= p && r in Clear(b);
  }

  lemma NoneClear(b: seq<word>)
    ensures FirstUnused(Used(b), 0, 32 * |b|) == 32 * |b| <==> Clear(b) == {}
  {
    var r := FirstUnused(Used(b), 0, 32 * |b|);
    assert r < 32 * |b| ==> r in Clear(b);
    assert forall p :: p in Clear(b) ==> p !in Used(b) && p < 32 * |b|;
  }

  class Pmm {
    const bitmap: array<word>
    /** Physical memory, page p at p * 4096. The allocator's own structure lies elsewhere. */
    const ram: array<byte>
    var totalPages: int
    var freePages: int
    var kernelEnd: word

    /** The cached count is the number of clear bits. */
    ghost predicate Valid()
      reads this, bitmap
    {
      && 0 < bitmap.Length <= 32768 && ram.Length == 32 * bitmap.Length * PAGE_SIZE
      && totalPages == 32 * bitmap.Length
      && freePages == |Clear(bitmap[..])|
    }

    constructor (words: array<word>, memory: array<byte>)
      ensures bitmap == words && ram == memory
    {
      bitmap, ram := words, memory;
      totalPages, freePages, kernelEnd := 0, 0, 0;
    }

    /** pmm_mark_page_used */
    method MarkPageUsed(pageAddr: word)
      requires Valid()
      modifies bitmap, this`freePages
      ensures Valid()
      ensures Used(bitmap[..]) == Used(old(bitmap[..])) +
                if pageAddr / PAGE_SIZE < totalPages then {pageAddr / PAGE_SIZE} else {}
    {
      ghost var b := bitmap[..];
      var pageIndex := pageAddr / PAGE_SIZE;
      var bitmapIndex := pageIndex / 32;
      var bitIndex := pageIndex % 32;
      if bitmapIndex >= bitmap.Length {
        return;
      }
      TestBit(bitmap[bitmapIndex], bitIndex);
      SetPage(b, pageIndex);
      if And(bitmap[bitmapIndex], Pow2(bitIndex)) == 0 {
        bitmap[bitmapIndex] := Or(bitmap[bitmapIndex], Pow2(bitIndex));
        assert pageIndex in Clear(b);
        assert bitmap[..] == b[bitmapIndex := Or(b[bitmapIndex], Pow2(bitIndex))];
        freePages := freePages - 1;
      }
    }

    /** pmm_mark_page_free */
    method MarkPageFree(pageAddr: word)
      requires Valid()
      modifies bitmap, this`freePages
      ensures Valid()
      ensures Used(bitmap[..]) == Used(old(bitmap[..])) - {pageAddr / PAGE_SIZE}
    {
      ghost var b := bitmap[..];
      var pageIndex := pageAddr / PAGE_SIZE;
      var bitmapIndex := pageIndex / 32;
      var bitIndex := pageIndex % 32;
      if bitmapIndex >= bitmap.Length {
        return;
      }
      TestBit(bitmap[bitmapIndex], bitIndex);
      ClearPage(b, pageIndex);
      if And(bitmap[bitmapIndex], Pow2(bitIndex)) != 0 {
        bitmap[bitmapIndex] := And(bitmap[bitmapIndex], Not(Pow2(bitIndex)));
        assert pageIndex !in Clear(b);
        assert bitmap[..] == b[bitmapIndex := And(b[bitmapIndex], Not(Pow2(bitIndex)))];
        freePages := freePages + 1;
      }
    }

    /** find_free_page: skipping full words, it still returns what a linear scan returns; -1 exactly
        when no page is free. */
    method FindFreePage() returns (page: int)
      requires Valid()
      ensures page == -1 <==> freePages == 0
      ensures page != -1 ==> page == FirstUnused(Used(bitmap[..]), 0, totalPages) && page in Clear(bitmap[..])
    {
      ghost var b := bitmap[..];
      var i := 0;
      while i < bitmap.Length
        invariant 0 <= i <= bitmap.Length
        invariant forall p: nat :: p < 32 * i ==> p !in Clear(b)
      {
        WordOfPages(b, i);
        if bitmap[i] != 0xFFFF_FFFF {
          var entry := bitmap[i];
          var j := 0;
          while j < 32
            invariant 0 <= j <= 32
            invariant forall p: nat :: p < 32 * i + j ==> p !in Clear(b)
          {
            TestBit(entry, j);
            assert (32 * i + j) / 32 == i && (32 * i + j) % 32 == j;
            if And(entry, Pow2(j)) == 0 {
              LeastClear(b, 32 * i + j);
              return i * 32 + j;
            }
            j := j + 1;
          }
        }
        i := i + 1;
      }
      assert Clear(b) == {};
      return -1;
    }

    /** pmm_alloc_page: the lowest free page; 0 when there is none, or when that page is page 0. */
    method AllocPage() returns (pageAddr: word)
      requires Valid()
      modifies bitmap, this`freePages
      ensures Valid()
      ensures var p := FirstUnused(Used(old(bitmap[..])), 0, totalPages);
              if p == totalPages then pageAddr == 0 && bitmap[..] == old(bitmap[..]) && old(freePages) == 0
              else pageAddr == p * PAGE_SIZE && Used(bitmap[..]) == Used(old(bitmap[..])) + {p}
    {
      NoneClear(bitmap[..]);
      pageAddr := 0;
      if freePages == 0 {
        return;
      }
      var pageIndex := FindFreePage();
      if pageIndex == -1 {
        assert false; // the search cannot fail while free_pages is not 0
        return;
      }
      pageAddr := pageIndex * PAGE_SIZE % WORD;
      MarkPageUsed(pageAddr);
    }

    /** pmm_free_page: a used page becomes free and 4096 bytes from the address as given are zeroed;
        for a free page, or an address past the bitmap, nothing happens. */
    method FreePage(pageAddr: word)
      requires Valid()
      requires pageAddr / PAGE_SIZE in Used(bitmap[..]) ==> pageAddr + PAGE_SIZE <= ram.Length
      modifies bitmap, this`freePages, ram
      ensures Valid()
      ensures Used(bitmap[..]) == Used(old(bitmap[..])) - {pageAddr / PAGE_SIZE}
      ensures if pageAddr / PAGE_SIZE in Used(old(bitmap[..]))
              then Zeroed(ram[..], pageAddr, pageAddr + PAGE_SIZE)
                   && SameOutside(old(ram[..]), ram[..], pageAddr, pageAddr + PAGE_SIZE)
              else ram[..] == old(ram[..])
    {
      ghost var b := bitmap[..];
      var pageIndex := pageAddr / PAGE_SIZE;
      var bitmapIndex := pageIndex / 32;
      var bitIndex := pageIndex % 32;
      if bitmapIndex >= bitmap.Length {
        return;
      }
      TestBit(bitmap[bitmapIndex], bitIndex);
      ClearPage(b, pageIndex);
      if And(bitmap[bitmapIndex], Pow2(bitIndex)) == 0 {
        return;
      }
      bitmap[bitmapIndex] := And(bitmap[bitmapIndex], Not(Pow2(bitIndex)));
      assert pageIndex !in Clear(b) && pageIndex in Used(b);
      assert bitmap[..] == b[bitmapIndex := And(b[bitmapIndex], Not(Pow2(bitIndex)))];
      freePages := freePages + 1;
      MemorySet(ram, pageAddr, 0, PAGE_SIZE);
    }

    /** The marking loops of pmm_init. */
    method MarkBelow(count: nat)
      requires Valid() && count <= 0x10_0000
      modifies bitmap, this`freePages
      ensures Valid()
      ensures forall p: nat :: p in Used(bitmap[..]) <==> p in Used(old(bitmap[..])) || (p < count && p < totalPages)
    {
      var i := 0;
      while i < count
        invariant 0 <= i <= count && Valid()
        invariant forall p: nat :: p in Used(bitmap[..]) <==> p in Used(old(bitmap[..])) || (p < i && p < totalPages)
      {
        AddressOfPage(i);
        MarkPageUsed(i * PAGE_SIZE % WORD);
        i := i + 1;
      }
    }

    /** pmm_init: exactly the kernel's pages and the first megabyte are used. */
    method Init(end: word)
      requires 0 < bitmap.Length <= 32768 && ram.Length == 32 * bitmap.Length * PAGE_SIZE
      modifies this, bitmap
      ensures Valid() && kernelEnd == end && Used(bitmap[..]) == ReservedPages(end, totalPages)
      ensures totalPages == 32 * bitmap.Length
      ensures forall p: nat :: p in Used(bitmap[..]) <==>
                p < totalPages && (p * 4096 < 0x10_0000 || (end <= WORD - 4096 && p * 4096 < end))
    {
      kernelEnd := end;
      totalPages := 32 * bitmap.Length;
      freePages := 32 * bitmap.Length;
      var w := 0;
      while w < bitmap.Length
        invariant 0 <= w <= bitmap.Length
        invariant kernelEnd == end && totalPages == freePages == 32 * bitmap.Length
        invariant forall k :: 0 <= k < w ==> bitmap[k] == 0
      {
        bitmap[w] := 0;
        w := w + 1;
      }
      ZeroBitmap(bitmap[..]);
      MarkBelow(KernelPages(end));
      MarkBelow(RESERVED_PAGES);
      ReservedByAddress(end, totalPages);
    }
  }

  /** A zero bitmap has every page clear. */
  lemma ZeroBitmap(b: seq<word>)
    requires forall k :: 0 <= k < |b| ==> b[k] == 0
    ensures Used(b) == {} && |Clear(b)| == 32 * |b|
  {
    forall p: nat | p < 32 * |b| ensures !PageBit(b, p) {
      ZeroHasNoBits(p % 32);
    }
    UsedAndClear(b);
  }

  // ---- Runs ----

  /** What a client of the allocator does: take a page, or give back one it holds. */
  datatype PageOp = Take | Give(p: nat)

  /** The used pages and those of them the client holds. */
  datatype Pages = Pages(used: set<nat>, held: set<nat>)

  ghost predicate LegalOp(s: Pages, op: PageOp) {
    op.Give? ==> op.p in s.held
  }

  ghost function StepPages(s: Pages, op: PageOp, n: nat): Pages {
    match op
    case Take =>
      var p := FirstUnused(s.used, 0, n);
      if p == n then s else Pages(s.used + {p}, s.held + {p})
    case Give(p) => Pages(s.used - {p}, s.held - {p})
  }

  ghost predicate LegalOps(s: Pages, ops: seq<PageOp>, n: nat)
    decreases |ops|
  {
    |ops| > 0 ==> LegalOp(s, ops[0]) && LegalOps(StepPages(s, ops[0], n), ops[1..], n)
  }

  ghost function RunPages(s: Pages, ops: seq<PageOp>, n: nat): Pages
    requires LegalOps(s, ops, n)
    decreases |ops|
  {
    if |ops| == 0 then s else RunPages(StepPages(s, ops[0], n), ops[1..], n)
  }

  /** On every run that gives back only pages it holds, the reserved pages stay reserved and the
      client's pages are never among them: nothing else is ever used. */
  lemma {:induction false} ReservedNeverHeld(s: Pages, ops: seq<PageOp>, n: nat, reserved: set<nat>)
    requires LegalOps(s, ops, n) && s.used == reserved + s.held && reserved !! s.held
    ensures var t := RunPages(s, ops, n); t.used == reserved + t.held && reserved !! t.held
    decreases |ops|
  {
    if |ops| > 0 {
      ReservedNeverHeld(StepPages(s, ops[0], n), ops[1..], n, reserved);
    }
  }

  /** One call of pmm_alloc_page or pmm_free_page is one step of the run: the page taken is the one
      whose address is returned, 0 when there is none, and the page given back is zeroed. */
  method PerformPage(m: Pmm, op: PageOp, ghost held: set<nat>) returns (pageAddr: word, ghost held': set<nat>)
    requires m.Valid() && held <= Used(m.bitmap[..]) && LegalOp(Pages(Used(m.bitmap[..]), held), op)
    modifies m.bitmap, m`freePages, m.ram
    ensures m.Valid() && held' <= Used(m.bitmap[..])
    ensures Pages(Used(m.bitmap[..]), held') == StepPages(old(Pages(Used(m.bitmap[..]), held)), op, m.totalPages)
    ensures op.Take? ==> m.ram[..] == old(m.ram[..])
    ensures op.Take? ==>
              var p := FirstUnused(Used(old(m.bitmap[..])), 0, m.totalPages);
              pageAddr == if p == m.totalPages then 0 else p * PAGE_SIZE
    ensures op.Give? ==>
              && Zeroed(m.ram[..], op.p * PAGE_SIZE, op.p * PAGE_SIZE + PAGE_SIZE)
              && SameOutside(old(m.ram[..]), m.ram[..], op.p * PAGE_SIZE, op.p * PAGE_SIZE + PAGE_SIZE)
  {
    held' := StepPages(Pages(Used(m.bitmap[..]), held), op, m.totalPages).held;
    pageAddr := 0;
    match op
    case Take =>
      pageAddr := m.AllocPage();
    case Give(p) =>
      AddressOfPage(p);
      m.FreePage(p * PAGE_SIZE);
  }

  /** After any such run from a state in which page 0 is reserved, the next allocation either fails,
      with every page used, or yields a page the client does not hold, that is not reserved, and whose
      address is not 0: the result 0 means failure and nothing else. */
  lemma NextPageIsNew(s: Pages, ops: seq<PageOp>, n: nat, reserved: set<nat>)
    requires LegalOps(s, ops, n) && s.used == reserved + s.held && reserved !! s.held
    requires 0 in reserved && n > 0
    ensures var t := RunPages(s, ops, n);
            var p := FirstUnused(t.used, 0, n);
            if p == n then Upto(n) <= reserved + t.held
            else p !in t.held && p !in reserved && p * PAGE_SIZE != 0
  {
    ReservedNeverHeld(s, ops, n, reserved);
  }

  /** From pmm_init on: whatever is taken and given back, the used pages are the reserved ones and the
      client's, disjointly, and the page taken next is neither, nor is its address 0. */
  lemma FromStartUp(kernelEnd: word, ops: seq<PageOp>, n: nat)
    requires 0 < n && LegalOps(Pages(ReservedPages(kernelEnd, n), {}), ops, n)
    ensures var reserved := ReservedPages(kernelEnd, n);
            var t := RunPages(Pages(reserved, {}), ops, n);
            var p := FirstUnused(t.used, 0, n);
            && t.used == reserved + t.held && reserved !! t.held
            && if p == n then Upto(n) <= reserved + t.held
               else p !in t.held && p !in reserved && p * PAGE_SIZE != 0
  {
    ReservedNeverHeld(Pages(ReservedPages(kernelEnd, n), {}), ops, n, ReservedPages(kernelEnd, n));
    NextPageIsNew(Pages(ReservedPages(kernelEnd, n), {}), ops, n, ReservedPages(kernelEnd, n));
  }
}
