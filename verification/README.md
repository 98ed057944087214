# The codename-speedster kernel: heap, pages, keyboard, console and timer

This project models the stateful parts of the codename-speedster kernel (a 32-bit x86 kernel in C) and proves
what they guarantee. To verify: `dafny verify dfyconfig.toml`.

* **The kernel heap** (`heap.c`) is a class over a flat array of bytes. Block headers lie inside that memory, in the
  layout of `memory.h` (size at offset 0, used byte at 4, next at 8, prev at 12), and the code reads and writes them
  there. A ghost list of blocks is the abstraction; the memory determines it (`Headers.BlocksDetermined`). The
  operations are shown to do to that list what plain functions on it say (`BlockList.dfy`), and what the heap promises
  is proved of those functions (`HeapLaws.dfy`), of whole runs (`HeapRuns.dfy`, `HeapExact.dfy`), and carried back to
  the code, one call one step (`HeapRefinement.dfy`), with what a client has written into its payloads, from `heap_init`
  on (`HeapClient.dfy`).
* **The page allocator** (`pmm.c`) is a class over an array of 32-bit words; the number of words is a parameter. Its
  calls are steps of a run on sets of pages.
* **The keyboard** (`keyboard.c`) is a class run without interruption (`Keyboard.dfy`), and a step system in which the
  interrupt handler may run between any two memory accesses of `keyboard_read` (`KeyboardRace.dfy`).
* **read_line** edits in a buffer of the modelled heap and echoes to the modelled console (`LineEditor.dfy`); its keys
  are what `keyboard_read` answers while interrupts fill the queue (`LineRace.dfy`).
* **The console and the number printers** (`video.c`) and **the interval timer** (`pit.c`) are smaller classes.

Words are unbounded integers with the 32-bit wrap written out; `&`, `|`, `~` work on binary digits (`Words.dfy`).

## What turned out not to hold

* `krealloc` in place (`heap.c:221-230`): when the aligned size grows by exactly 8 bytes into a free block that can be
  split again, the new header overlaps the old neighbour's `next` field, and `new_next->next` becomes the remainder's
  own size. The memory then holds no block list at all. `KernelHeap.Heap.Krealloc` states that the heap is a heap after
  the call if and only if the call is not of this kind (`BlockList.EightByteSplit`, which a caller can evaluate
  beforehand); `HeapSteps.ConcreteEightByteSplit` and `KernelHeap.EightByteGrowthLosesList` give a concrete history.
* In-place growth adds nothing to `used_size`, because `block->size` is overwritten first (`heap.c:216-217`). A right
  counter stays right if and only if the call does not pass krealloc's own growth test (`HeapExact.CounterExact`, and
  over runs `HeapExact.CounterOverRuns`); `HeapExact.ConcreteWrongCounter` is a run of two calls that makes it wrong, and
  how far it is off is in `HeapRuns.TallyExact`.
* Requests above 2^32 - 8 wrap to 0 in `align_up`. `kmalloc` then hands out fewer than 24 bytes
  (`HeapLaws.PayloadLongEnough`), and `krealloc` returns the old pointer (`HeapLaws.ResizedLongEnough`), both
  if-and-only-ifs. A block of size 0 comes into the list exactly when such a `kmalloc` meets a first free block of 24
  bytes or more (`HeapExact.MallocPositiveExact`, `HeapExact.ConcreteWrappedCut`); all sizes stay positive over a run
  exactly when no call of it is of this kind (`HeapExact.RunPositiveExact`). No precondition excludes these requests.
* `read_line` passes its length to `kmalloc` unchecked: its writes stay inside the payload on every input if and only if
  the length is at most 2^32 - 8 (`LineEditor.StaysInsideExact`). Beyond, one typed character can destroy the block list
  (`LineEditor.WrappedLineLosesList`).
* The echo of `read_line` agrees with its buffer only as long as the line stays before the last cell: there the cursor
  stops while the buffer goes on, and later backspaces erase the wrong cells. `LineEditor.EchoShowsLine` says exactly
  when the screen shows the line, `LineEditor.LastRowEcho` is the session at the kernel's prompt once the screen is full.
* `keyboard_read` (`keyboard.c:158-161`) does not mask interrupts between its failing loop test and its decrement. A key
  accepted between the test and the load of the position is lost and the character that was last in the queue stands
  twice, unless the key repeats that character; a key accepted between the load and the store is lost whatever it is
  (`KeyboardRace.DecStoreExact`, `KeyboardRace.FifoExact`, with a concrete schedule in `KeyboardRace.OpenWindowLosesKey`).
  With that window quiet every schedule is safe (`KeyboardRace.QuietWindowIsSafe`).
* `print_hex(0)` passes a three-byte array without terminator (`video.c:265`): `Numbers.HexBuffer` says the buffer is
  terminated if and only if the number is not 0, and `Numbers.PrintHex` excludes 0.
* The PIT divisor is cut to 16 bits below 19 Hz, although the comment at `pit.c:124` allows 1 Hz
  (`Pit.DivisorExact`); the millisecond clock and the sleep wrap (`Pit.TimeExact`, `Pit.SleepTicksExact`).
* `pmm_init` counts no kernel page at all for a kernel end above 2^32 - 4096 (`PageAllocator.KernelPagesExact`).

Where comments and code disagree the code is modelled: `video.h:45` says clearing does not move the cursor (it
does), `video.h:57-58` that newlines are not handled (they are), `video.c:130` that the cursor returns to the start at
the end of the screen (it stays in the last cell).

## Assumptions

* The heap area starts at a non-null address, has room for one header, ends at or below 2^32 - 8, and `kernel_heap`
  itself lies outside it.
* `kfree` is given NULL, a live payload, an address whose header would be outside the heap, or one whose would-be
  header has used byte 0, such as a pointer just freed (`KernelHeap.Heap.Freeable`); `krealloc` NULL or a live payload,
  or, with size 0, what `kfree` may be given. Other wild pointers are undefined in C as well.
* `pmm_free_page` is given an address whose 4096 bytes exist; it need not be aligned. The bitmap is not itself inside
  the pages being freed.
* Interrupt handlers are atomic (`idt.h:20`, interrupt gates), and the compiled reader makes one memory access at a
  time, `buffer_position--` being a load and a store (`Makefile:7`, no optimisation).
* `print_dec(-2^31)` is excluded: C leaves its negation undefined.
* The schedules of `read_line` are those on which `keyboard_read` answers with a newline at some point; when its length
  wraps, the bytes it reaches behind its buffer exist.

## Model

| member | source | states |
|---|---|---|
| Words.AlignUpLeast | src/kernel/memory/utils.c:17-19 | the mask formula gives the least multiple of a power of two not below the address, if and only if the address is at most 2^32 - align; above, it wraps to 0 |
| Words.AlignDownGreatest | src/kernel/memory/utils.c:27-29 | the mask formula gives the greatest multiple of a power of two not above the address |
| Words.IsAlignedIffMultiple | src/kernel/memory/utils.c:114-116 | the mask test holds exactly for the multiples of the power of two |
| Words.SetBit | src/kernel/memory/pmm.c:138 | or-ing 1 << k sets bit k of a word and no other |
| Words.ClearBit | src/kernel/memory/pmm.c:108 | and-ing with the complement clears bit k and no other |
| Words.FullWord | src/kernel/memory/pmm.c:56 | 0xFFFFFFFF is the only word with all 32 bits set |
| Memory.MemorySet | src/kernel/memory/utils.c:37-42 | the region holds the value, nothing else changes |
| Memory.MemoryCopy | src/kernel/memory/utils.c:50-66 | for every overlap the destination ends as the source was, and no byte outside it changes |
| Memory.CopyForward | src/kernel/memory/utils.c:56-59 | the ascending loop is right whenever the destination does not start inside the source |
| Memory.CopyBackward | src/kernel/memory/utils.c:60-65 | the descending loop is right whenever the destination does not start before the source |
| BlockList.Geometry | src/kernel/memory/heap.c:76-118 | blocks that tile the heap are 8-aligned, inside it, and in address order |
| BlockList.BlockAt | src/kernel/memory/heap.c:76-118 | every address of the heap belongs to a block |
| BlockList.Canonical | src/kernel/memory/heap.c:100-118 | two fully coalesced lists over the same heap with the same live blocks are equal: the history leaves no trace |
| BlockList.MallocIsSplice | src/kernel/memory/heap.c:125-148 | kmalloc replaces one free block by the allocated one and, if large enough, a free remainder |
| BlockList.FreeIsSplice | src/kernel/memory/heap.c:154-182 | kfree joins the block with exactly its free neighbours into one free block |
| HeapLaws.StretchInsideBlock | src/kernel/memory/heap.c:100-118 | no free stretch of memory crosses a block boundary |
| HeapLaws.MallocComplete | src/kernel/memory/heap.c:125-148 | kmalloc fails exactly when no contiguous free stretch can hold a header and the aligned request, and otherwise takes the lowest one |
| HeapLaws.MallocAddsOne | src/kernel/memory/heap.c:125-148 | a successful kmalloc adds exactly one live block, new, 8-aligned, at most 16 bytes longer than asked, and keeps the heap tiled and coalesced |
| HeapLaws.PayloadLongEnough | src/kernel/memory/heap.c:131 | the payload is as long as requested if and only if the request is at most 2^32 - 8 |
| HeapLaws.ResizedLongEnough | src/kernel/memory/heap.c:203-209 | so it is for krealloc; a request above 2^32 - 8 returns the old pointer and changes nothing |
| HeapLaws.FreeRemovesOne | src/kernel/memory/heap.c:154-182 | kfree removes exactly its block from the live set and keeps the heap tiled and coalesced |
| HeapLaws.GrowReplacesOne | src/kernel/memory/heap.c:212-240 | growing in place replaces only that block, by one at most 16 bytes longer than asked |
| HeapLaws.MovedReplacesOne | src/kernel/memory/heap.c:243-250 | moving replaces only that block, by a new one that is long enough |
| HeapLaws.ReallocReplacesOne | src/kernel/memory/heap.c:190-251 | krealloc changes nothing or replaces exactly its block by one no smaller than before and than asked |
| HeapLaws.ReallocMovesOnlyIfItMust | src/kernel/memory/heap.c:190-251 | the address stays exactly when there is room behind it, and the call fails exactly when there is neither that nor a free stretch elsewhere |
| HeapLaws.FreeUndoesMalloc | src/kernel/memory/heap.c:125-182 | kmalloc followed by kfree of its result gives back exactly the previous list |
| HeapLaws.FreesCommute | src/kernel/memory/heap.c:154-182 | two payloads freed in either order leave the same list |
| HeapLaws.DoubleFreeIsNoOp | src/kernel/memory/heap.c:168-171 | freeing a pointer again leaves the list as it is |
| HeapLaws.NothingLiveOneBlock | src/kernel/memory/heap.c:100-118 | nothing is live exactly when the heap is one free block of total_size - 16 |
| HeapLaws.PayloadInside | src/kernel/memory/heap.c:71-182 | a live payload is 8-aligned, inside the heap and disjoint from every header, those of free blocks included |
| HeapLaws.PayloadsIsolated | src/kernel/memory/heap.c:71-182 | two live payloads are disjoint, and neither meets the other's header |
| HeapLaws.UsedSumBound | src/kernel/memory/heap.c:144 | live sizes add up to at most the heap without its headers |
| HeapLaws.MallocSum | src/kernel/memory/heap.c:144 | kmalloc raises the live total by the size of the block it made |
| HeapLaws.FreeSum | src/kernel/memory/heap.c:175 | kfree lowers the live total by the size of the block it freed |
| HeapLaws.GrowSum | src/kernel/memory/heap.c:211-239 | in-place growth raises the live total by the growth |
| HeapRuns.StepGood | src/kernel/memory/heap.c:125-251 | every call keeps tiling, coalescing, the client's ledger equal to the live set, and the accounts |
| HeapRuns.RunGood | src/kernel/memory/heap.c:23-251 | so does every run of calls |
| HeapRuns.EverythingFreed | src/kernel/memory/heap.c:100-182 | after any run, the client holds nothing if and only if the list is the single block heap_init made |
| HeapRuns.LedgerInside | src/kernel/memory/heap.c:71-251 | after any run, each payload the client holds is live, 8-aligned, inside the heap, away from every header, and as long as asked unless the request wrapped |
| HeapRuns.LedgerIsolated | src/kernel/memory/heap.c:71-251 | after any run, no two payloads the client holds meet, whatever was asked for them |
| HeapRuns.TallyExact | src/kernel/memory/heap.c:216-217 | in any reachable state used_size is the live total if and only if the in-place growth missed so far is a multiple of 2^32; then no kfree underflows it |
| HeapRuns.HistoryForgotten | src/kernel/memory/heap.c:100-182 | two runs that leave the same live blocks leave the same heap |
| HeapExact.MallocPositiveExact | src/kernel/memory/heap.c:125-148 | with positive sizes before, kmalloc leaves a block of size 0 exactly when the request wraps and the first free block has 24 bytes or more |
| HeapExact.FreePositive | src/kernel/memory/heap.c:154-182 | kfree keeps all sizes positive |
| HeapExact.ReallocPositive | src/kernel/memory/heap.c:190-251 | krealloc of a live payload keeps all sizes positive, whatever the new size |
| HeapExact.StepPositiveExact | src/kernel/memory/heap.c:125-251 | so one call keeps them positive if and only if it is not such a kmalloc |
| HeapExact.RunPositiveExact | src/kernel/memory/heap.c:23-251 | in every state of a run all sizes are positive if and only if no call of the run is such a kmalloc |
| HeapExact.SizesPositive | src/kernel/memory/heap.c:23-251 | from heap_init over at least 24 bytes, without requests above 2^32 - 8, every block size is a positive multiple of 8 after every run |
| HeapExact.ConcreteWrappedCut | src/kernel/memory/heap.c:131-140 | kmalloc(2^32 - 1) in a fresh heap makes a block of size 0 |
| HeapExact.GrownMoves | src/kernel/memory/heap.c:212-239 | the growth used_size misses rises, by less than 2^32, on exactly the calls that pass the growth test |
| HeapExact.CounterExact | src/kernel/memory/heap.c:216-217 | a used_size equal to the live total stays so if and only if the call does not grow a payload in place |
| HeapExact.CounterOverRuns | src/kernel/memory/heap.c:142-239 | from heap_init, used_size is the live total in every state of a run if and only if no call of it grows in place |
| HeapExact.ConcreteWrongCounter | src/kernel/memory/heap.c:211-239 | kmalloc(8), then krealloc to 24 in a fresh heap: both legal, used_size 8, 24 bytes live |
| Headers.HeaderLayout | src/kernel/memory/memory.h:37-42 | the header byte by byte: size at 0, used at 4, next at 8, prev at 12, low bytes first, 16 bytes before the payload |
| Headers.BlocksDetermined | src/kernel/memory/memory.h:37-42 | the header bytes determine the block list |
| Headers.SpliceLinked | src/kernel/memory/heap.c:88-93 | rewriting the headers of a run of blocks, and the prev of the one behind it, gives the spliced doubly linked list |
| Headers.EditKeeps | src/kernel/memory/heap.c:76-118 | such an edit touches no live payload outside the run |
| Headers.WriteFreeHeader | src/kernel/memory/heap.c:82-86 | the four assignments make the header of a free block and touch nothing else |
| Headers.BuildRemainder | src/kernel/memory/heap.c:221-225 | the header built behind a grown block gets the old next, or its own size when it overlaps the field it is read from |
| Headers.SelfSizedNextBreaks | src/kernel/memory/heap.c:221-230 | a header whose next is its own size is part of no block list |
| HeapSteps.EightByteBreaks | src/kernel/memory/heap.c:215-230 | the writes of the eight-byte split, the stray one included wherever it hits, leave a memory without any block list |
| HeapSteps.ConcreteEightByteSplit | src/kernel/memory/heap.c:215-230 | kmalloc(8) in a fresh heap, then krealloc to 16, is such a call |
| HeapSteps.PayloadWritten | src/kernel/memory/heap.c:146-147 | a client writing inside its own payload disturbs neither the list nor another payload |
| KernelHeap.Heap.HeapInit | src/kernel/memory/heap.c:23-51 | the heap is valid, with one free block over the aligned area |
| KernelHeap.Heap.FindFreeBlock | src/kernel/memory/heap.c:58-69 | walking the next fields finds the first free block that is large enough, or NULL |
| KernelHeap.Heap.SplitBlock | src/kernel/memory/heap.c:76-94 | the memory holds the split list; only that block and the header behind it change |
| KernelHeap.Heap.Absorb | src/kernel/memory/heap.c:103-107 | a free block takes in the free block behind it; no payload changes |
| KernelHeap.Heap.MergeWithNext | src/kernel/memory/heap.c:101-108 | the first half of merge_blocks on the list |
| KernelHeap.Heap.MergeWithPrev | src/kernel/memory/heap.c:110-117 | the second half; the used byte of the absorbed, stale header stays 0 |
| KernelHeap.Heap.MergeBlocks | src/kernel/memory/heap.c:100-118 | both halves; no live payload changes |
| KernelHeap.Heap.TakeBlock | src/kernel/memory/heap.c:139-144 | splitting, marking and counting the block found gives the list of BlockList.Malloc; no live payload changes |
| KernelHeap.Heap.Kmalloc | src/kernel/memory/heap.c:125-148 | the list and address are those of BlockList.Malloc, no live payload changes, a failure changes nothing |
| KernelHeap.Heap.FreeLive | src/kernel/memory/heap.c:173-181 | for a live payload: the list of BlockList.Free, the payload zero, its used byte 0, no other live payload changed |
| KernelHeap.Heap.Kfree | src/kernel/memory/heap.c:154-182 | the list is that of BlockList.Free, the payload is zeroed, no other live payload changes; for a pointer that is not live (one just freed too) the memory does not change at all |
| KernelHeap.Heap.GrowAndSplit | src/kernel/memory/heap.c:220-230 | the in-place split keeps a list, with all payloads, when the growth is not 8 bytes, and leaves none when it is |
| KernelHeap.Heap.GrowWhole | src/kernel/memory/heap.c:231-238 | absorbing the whole next block always keeps the list and all payloads |
| KernelHeap.Heap.GrowInPlace | src/kernel/memory/heap.c:215-239 | both branches, with used_size unchanged and the growth recorded |
| KernelHeap.Heap.TryGrow | src/kernel/memory/heap.c:212-241 | growth in place happens exactly when the next block is free and large enough |
| KernelHeap.Heap.CopyPayload | src/kernel/memory/heap.c:246 | the old payload is copied to the new block; the heap stays valid and no other payload changes |
| KernelHeap.Heap.Move | src/kernel/memory/heap.c:243-250 | the moved payload starts with the old one; a failure changes nothing |
| KernelHeap.Heap.Resize | src/kernel/memory/heap.c:200-250 | krealloc of a live payload, all paths |
| KernelHeap.Heap.Krealloc | src/kernel/memory/heap.c:190-251 | the memory holds a block list afterwards if and only if the call is not an eight-byte in-place split; then list and result are those of BlockList.Realloc, the old content is kept, and no other live payload changes; a failed call changes nothing |
| KernelHeap.EightByteGrowthLosesList | src/kernel/memory/heap.c:215-230 | a concrete sequence of calls after which the memory holds no block list |
| HeapRefinement.Perform | src/kernel/memory/heap.c:125-251 | every call of the code is one step of the run model, counters and ledger included, and every payload it does not free is byte for byte at its new place |
| HeapClient.NewPlaceLive | src/kernel/memory/heap.c:125-251 | a payload that a call does not free is live at its new place, no shorter than before |
| HeapClient.CallRemembered | src/kernel/memory/heap.c:125-251 | after a call, every byte the client noted is where its payload now is |
| HeapClient.WriteRemembered | src/kernel/memory/heap.c:146-147 | a client storing a byte in its payload disturbs no other noted byte |
| HeapClient.PerformCall | src/kernel/memory/heap.c:125-251 | one call or store of the code is one step of the client with its notes; every byte it does not touch is at its offset where its payload now is |
| HeapClient.PerformRun | src/kernel/memory/heap.c:125-251 | after any run of calls and stores, every byte that is not stored over, in a payload that is not freed, stored during the run or there before, is at its offset wherever krealloc has moved the payload, and the client's notes hold every such store |
| HeapClient.NoteCarried | src/kernel/memory/heap.c:190-251 | the note of a byte goes where krealloc moves its payload |
| HeapClient.GivenIsKept | src/kernel/memory/heap.c:125-251 | what a call has given stays live, as long as asked unless the request wrapped, and in the ledger with the size last asked for, wherever later calls move it, until it is freed |
| HeapClient.RunOfAsked | src/kernel/memory/heap.c:125-251 | the heap calls of a client's run are a legal run of the heap, which its stores leave alone |
| HeapClient.RunFromInit | src/kernel/memory/heap.c:23-251 | heap_init and then any run of calls and stores: the heap is in the state of the run from the initial one, every store that stands is in memory and noted, nothing is held exactly when the list is the initial block, the counter is right without in-place growth, and sizes are positive without wrapped requests |
| PageAllocator.KernelPagesExact | src/kernel/memory/pmm.c:31 | the kernel's pages are counted right if and only if its end is at most 2^32 - 4096 |
| PageAllocator.SetPage | src/kernel/memory/pmm.c:138 | one word write adds exactly one page to the used set |
| PageAllocator.ClearPage | src/kernel/memory/pmm.c:158 | one word write removes exactly one page from it |
| PageAllocator.WordOfPages | src/kernel/memory/pmm.c:56 | a word is full exactly when none of its 32 pages is clear |
| PageAllocator.UsedAndClear | src/kernel/memory/pmm.c:19-48 | used and clear pages together are all pages, and their numbers add up |
| PageAllocator.LeastClear | src/kernel/memory/pmm.c:54-67 | the least clear bit is what a linear scan of the used set finds |
| PageAllocator.NoneClear | src/kernel/memory/pmm.c:66 | the linear scan fails exactly when no bit is clear |
| PageAllocator.Pmm.MarkPageUsed | src/kernel/memory/pmm.c:127-141 | the used set gains the page, the count stays the number of clear bits, repeats included |
| PageAllocator.Pmm.MarkPageFree | src/kernel/memory/pmm.c:147-161 | the used set loses the page, the count stays exact |
| PageAllocator.Pmm.FindFreePage | src/kernel/memory/pmm.c:54-67 | the word-skipping search equals the linear scan, and fails exactly when free_pages is 0 |
| PageAllocator.Pmm.AllocPage | src/kernel/memory/pmm.c:73-87 | the lowest free page becomes used; the second failure test is unreachable |
| PageAllocator.Pmm.FreePage | src/kernel/memory/pmm.c:93-113 | a used page becomes free and 4096 bytes from the given address are zeroed, no others; otherwise nothing changes |
| PageAllocator.Pmm.MarkBelow | src/kernel/memory/pmm.c:32-34 | the marking loop adds exactly the pages below its bound |
| PageAllocator.Pmm.Init | src/kernel/memory/pmm.c:19-48 | the used pages are exactly those that begin in the first megabyte or below the kernel's end, unless that end wraps; the count is exact |
| PageAllocator.ReservedNeverHeld | src/kernel/memory/pmm.c:73-113 | on every run that frees only what it holds, the used pages are the reserved and the held ones, disjointly |
| PageAllocator.NextPageIsNew | src/kernel/memory/pmm.c:73-87 | after any such run the next page is neither held nor reserved and its address is not 0, unless every page is used |
| PageAllocator.PerformPage | src/kernel/memory/pmm.c:73-113 | one pmm_alloc_page or pmm_free_page is one step of the run on the used and held pages; the address returned is the page taken, 0 when there is none; a page given back is zeroed |
| PageAllocator.FromStartUp | src/kernel/memory/pmm.c:19-113 | from the pages pmm_init reserves, after any run the used pages are those and the held ones, disjointly, and the next page is new and its address not 0 |
| Keyboard.KeyboardDriver.Put | src/kernel/drivers/keyboard.c:121-123 | a character is queued if fewer than 255 are |
| Keyboard.KeyboardDriver.HandlerMain | src/kernel/drivers/keyboard.c:102-147 | Shift follows the press and release codes of its two keys, Caps Lock turns round at 0x3A, and the queue gains the text printed on the key, capital or shifted exactly when either is on, up to 255 characters in all |
| Keyboard.KeyboardDriver.Read | src/kernel/drivers/keyboard.c:153-165 | the oldest character leaves the queue; 0 exactly when it is empty |
| Keyboard.TypedAsPrinted | src/kernel/drivers/keyboard.c:34-63 | the two maps, row by row as text: what each scan code types, plain and shifted; plain ASCII, and nothing for every other code |
| Keyboard.HandlerRun | src/kernel/drivers/keyboard.c:102-147 | over any run of scan codes: Shift is on exactly when the last shift code was a press, Caps Lock is the parity of its presses, and the queue holds the first 255 characters of what the keys say under the modifiers before each |
| Keyboard.Typed | src/kernel/drivers/keyboard.c:108-143 | no scan code types a 0 or more than four characters |
| Keyboard.Taken | src/kernel/drivers/keyboard.c:121 | what is accepted is a prefix, never more than 255 in all, and everything when it fits |
| KeyboardRace.HandlerKeeps | src/kernel/drivers/keyboard.c:102-147 | the handler keeps the queue invariant at every point of keyboard_read, the middle of the shift included |
| KeyboardRace.ReaderKeeps | src/kernel/drivers/keyboard.c:153-161 | so does every memory access of keyboard_read but the last |
| KeyboardRace.StepBounds | src/kernel/drivers/keyboard.c:102-165 | no access leaves the buffer and at most 255 characters are queued, on any schedule |
| KeyboardRace.DecStoreExact | src/kernel/drivers/keyboard.c:158-161 | the final store keeps the queue a queue if and only if it is harmless: nothing accepted during the decrement, and only repeats of the last character since the failing loop test |
| KeyboardRace.FifoExact | src/kernel/drivers/keyboard.c:102-165 | for every schedule: returned plus queued is what was accepted, in order, at every return, if and only if every final store in it is harmless |
| KeyboardRace.QuietWindowIsSafe | src/kernel/drivers/keyboard.c:153-165 | with no key accepted in the window, every schedule is first-in first-out |
| KeyboardRace.AloneTakesOldest | src/kernel/drivers/keyboard.c:153-163 | a reader left alone from any point finishes, returns the oldest character and leaves the others, as the uninterrupted code does |
| KeyboardRace.ZeroMeansEmpty | src/kernel/drivers/keyboard.c:164 | keyboard_read answers 0 exactly for an empty queue |
| KeyboardRace.HandlerAgrees | src/kernel/drivers/keyboard.c:102-147 | the handler step of the schedules is what the driver's handler does to queue and modifiers |
| KeyboardRace.ReadAgrees | src/kernel/drivers/keyboard.c:153-165 | a reader left alone gives the answer and leaves the queue of the driver's keyboard_read |
| KeyboardRace.FromStart | src/kernel/drivers/keyboard.c:23-165 | from the statics at start-up, every return is first-in first-out if and only if every final store is harmless, as it is whenever the window is quiet |
| KeyboardRace.OpenWindowLosesKey | src/kernel/drivers/keyboard.c:158-161 | a concrete schedule: 'a' and 'b' are accepted, two calls return 'a' and 'a', the queue is empty |
| LineEditor.ReadLine | src/kernel/drivers/keyboard.c:173-226 | NULL exactly when kmalloc fails; otherwise a new live buffer with the edited line, terminated, and the screen as the echo fold says; it writes only the bytes the session reaches, and if these are in the payload, as for every length up to 2^32 - 8, the heap is valid and all other payloads are unchanged |
| LineEditor.StaysInsideExact | src/kernel/drivers/keyboard.c:173-212 | no session leaves its payload if and only if the length is at most 2^32 - 8 |
| LineEditor.ReachBound | src/kernel/drivers/keyboard.c:189-212 | a session reaches at most max_length bytes, the terminator included |
| LineEditor.WrappedLineLosesList | src/kernel/drivers/keyboard.c:175-212 | read_line(2^32 - 1), one character and a newline: the memory holds no block list any more |
| LineEditor.EditInto | src/kernel/drivers/keyboard.c:185-225 | the loop computes the bounded editor's fold and its echo, writing only the bytes the session reaches |
| LineEditor.EditKey | src/kernel/drivers/keyboard.c:198-219 | one key is one step of the editor and of the echo |
| LineEditor.EraseLast | src/kernel/drivers/keyboard.c:201-207 | a backspace erases the last cell as print_string's does |
| LineEditor.LineFits | src/kernel/drivers/keyboard.c:211-212 | the line always leaves room for its terminator and contains no 0 |
| LineEditor.TypedVerbatim | src/kernel/drivers/keyboard.c:211-212 | keys without backspace give their first max_length - 1 characters |
| LineEditor.BackspaceCancels | src/kernel/drivers/keyboard.c:198-210 | a character and a backspace cancel if and only if there was room for it or nothing to take back |
| LineEditor.EchoShowsLine | src/kernel/drivers/keyboard.c:198-219 | after any keys the screen shows exactly the line in the buffer if and only if the longest line so far fits before the last cell (counted since the line was last empty when it starts at the first cell) |
| LineEditor.LastRowEcho | src/kernel/drivers/keyboard.c:198-219 | prompt at cell 1922, 78 characters into read_line(128): the screen no longer shows the line, and the next backspace takes the 78th from the buffer and the 77th from the screen |
| LineEditor.EchoTyped | src/kernel/drivers/keyboard.c:211-214 | typed text that fits the buffer is echoed as print_string prints it |
| LineEditor.EchoIsPrint | src/kernel/drivers/keyboard.c:198-219 | on the whole screen, the echo is the keys that change the line, printed, and nothing else |
| LineEditor.IdleKeys | src/kernel/drivers/keyboard.c:187-210 | a backspace on an empty line, and an answer 0, do nothing |
| LineEditor.ReachIs | src/kernel/drivers/keyboard.c:189-212 | the bytes a session reaches are those of its longest line or of the last one with its terminator |
| LineRace.AnswersAreReturned | src/kernel/drivers/keyboard.c:153-187 | on a schedule without harmful store, the non-zero answers of keyboard_read are the characters it returned, in order |
| LineRace.LineOfAccepted | src/kernel/drivers/keyboard.c:153-226 | on such a schedule, the bytes of the line are the codes of the edited text of the characters queued before and accepted by the handler during read_line, up to the first Enter; so is its echo |
| LineRace.QuietLine | src/kernel/drivers/keyboard.c:153-226 | so it is on every schedule with a quiet window |
| LineRace.EditOfBytes | src/kernel/drivers/keyboard.c:198-212 | editing characters and editing their bytes is the same |
| LineRace.ReadLineUnderInterrupts | src/kernel/drivers/keyboard.c:173-226 | byte by byte, the string read_line leaves in memory on such a schedule, and the screen |
| Console.TextConsole.ClearScreen | src/kernel/video/video.c:111-119 | every cell is a plain space and the cursor is at 0 |
| Console.TextConsole.PrintString | src/kernel/video/video.c:132-163 | the whole string is consumed; for every text, newlines and backspaces included, the cursor, and each cell: the last character that writes it, a blank for a backspace, as it was if none does |
| Console.TextConsole.PrintStringColor | src/kernel/video/video.c:177-200 | the same with the attribute of the colours, a backspace being a glyph |
| Console.AttributeBits | src/kernel/video/video.c:179 | the attribute byte is background times 16 plus foreground |
| Console.PrintIsPrinted | src/kernel/video/video.c:132-163 | the fold over characters in closed form, cell by cell |
| Console.PlainTextLands | src/kernel/video/video.c:152-161 | plain text in closed form: cursor, every cell it fills, every cell it leaves, overflow piling up in the last cell |
| Console.ColorTextLands | src/kernel/video/video.c:191-197 | coloured text without newlines likewise, a backspace shown as a glyph |
| Console.NewLineKeepsCells | src/kernel/video/video.c:134-141 | a newline leaves every cell as it was, in either printer |
| Console.BackspaceUndoes | src/kernel/video/video.c:142-150 | a backspace takes back the character before it if and only if that was not in the last cell |
| Console.NewLineRow | src/kernel/video/video.c:134-141 | a newline goes to the start of the next row, in the last row of the same row, and writes no cell |
| Numbers.DigitsReadBack | src/kernel/video/video.c:239-242 | digits read back as the number, without leading zero |
| Numbers.DigitsUnique | src/kernel/video/video.c:239-242 | and are the only such numeral |
| Numbers.DigitsAsWritten | src/kernel/video/video.c:240-283 | the digits are 0 to 9 and a to f, and read as their values |
| Numbers.DecRoundTrip | src/kernel/video/video.c:220-257 | the decimal text reads back as the number, in at most 11 characters; 0 is the one digit |
| Numbers.PutDigits | src/kernel/video/video.c:239-242 | the division loop leaves the digits in reverse |
| Numbers.ReverseInPlace | src/kernel/video/video.c:249-253 | the swap loop reverses the used part of the buffer and nothing else |
| Numbers.DecBuffer | src/kernel/video/video.c:227-254 | the buffer is the terminated decimal text |
| Numbers.HexRoundTrip | src/kernel/video/video.c:263-294 | 0x, then hexadecimal digits that read back as the number, at most 8, lower-case, none leading 0 |
| Numbers.HexStep | src/kernel/video/video.c:279-285 | one turn of the loop appends the next digit, or skips a leading zero |
| Numbers.PutHexDigits | src/kernel/video/video.c:277-285 | the shift loop appends the minimal digits, within the 12 bytes |
| Numbers.HexBuffer | src/kernel/video/video.c:263-292 | the buffer is the terminated text for a non-zero number, and lacks a terminator only for 0 |
| Numbers.PrintDec | src/kernel/video/video.c:220-257 | if the text fits before the last cell, reading the cells from the old cursor to the new one gives the number back; cell by cell the screen is the text printed in the current colours |
| Numbers.PrintHex | src/kernel/video/video.c:263-294 | likewise, 0x and the number |
| Pit.Timer.SetFrequency | src/kernel/drivers/pit.c:126-139 | a frequency outside 1 to 1193180 is ignored, another is set with its divisor |
| Pit.Timer.SleepMs | src/kernel/drivers/pit.c:90-98 | it returns on the first tick reaching its target; without wrap the clock then differs by at most ms and more than ms - 1000/f - 1 |
| Pit.SleepBounds | src/kernel/drivers/pit.c:90-120 | the two roundings together stay in those bounds |
| Pit.TimeExact | src/kernel/drivers/pit.c:118-120 | the clock reads ticks * 1000 / f if and only if ticks * 1000 fits 32 bits |
| Pit.SleepTicksExact | src/kernel/drivers/pit.c:91 | the tick count of a sleep is right if and only if ms * f fits 32 bits |
| Pit.LowBitsRead | src/kernel/drivers/pit.c:91-132 | wrapped or not: clock and sleep are rounded down from the low 32 bits of their products, the divisor is the low 16 bits of the rounded-down quotient of 1193180 |
| Pit.DivisorExact | src/kernel/drivers/pit.c:131-132 | f * d <= 1193180 < f * (d + 1) if and only if f is at least 19 |

## Left out

* Port input and output, the PIC and IDT set-up, keyboard LEDs, the hardware cursor and boot code: no effect on modelled state.
* `memory_compare`, `memory_find` and the page helpers of `utils.c`: simple read-only loops and one-line expressions.
* `heap_dump_info`, `pmm_dump_info`, `pit_dump_info`, the status lines the init functions print, `kmain`, the exception handlers, and the example programs `test.c` and `timer_test.c`: output and usage.
* `set_color`: two assignments; the colours are fields the printers read.
* `pit_sleep_ticks`: the loop of `pit_sleep_ms` with a given tick count.
* Pages against the heap: `kernel.c:29-34` never reserves the heap's range, so no disjointness is claimed.
* KernelHeap.Heap.Kfree: pointers into the heap that are not live and whose would-be header does not have used byte 0 are not covered; C gives such calls no meaning.
* KernelHeap.Heap.Krealloc: after an eight-byte in-place split nothing is said of payload contents; the stray write can hit any of them.
* LineEditor.ReadLine: a session that never sees a newline does not return and is not modelled. When a session of wrapped length runs out of its payload, nothing is said of the heap: it depends on what the line overwrites.
* Pit.Timer.SleepMs: interrupts other than the timer's are not modelled, and 32-bit wrap of the tick target is covered only by the value it leaves.
