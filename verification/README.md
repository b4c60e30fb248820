# Verification of the kernel's core algorithms

This project models the algorithmic core of a small x86-64 kernel and proves what its
parts promise. `dafny verify dfyconfig.toml` checks everything.

| file | models |
|---|---|
| `BitMath.dfy` | the bit arithmetic of src/misc/bit_math.c, on words with explicit wrap-around |
| `Buddy.dfy`, `BuddySteps.dfy` | tilings of arenas by naturally aligned blocks, and the steps split, merge, take, release and new arena on them |
| `FreeLists.dfy`, `ListOrder.dfy` | block headers in a store indexed by address, the singly linked free lists in it, and what requests and frees do to their order |
| `Heap.dfy`, `HeapLaws.dfy`, `HeapRuns.dfy` | the class `Allocator` with `kalloc_init`, `kmalloc` and `kfree` of src/mem/mem.c, the laws that span several calls, and some runs |
| `HeapOnFrames.dfy` | the growth loop on the frames of `paging_alloc_pages` |
| `Memory.dfy` | `memmove`, `memset` and `memcpy` |
| `Crc.dfy`, `Polynomials.dfy` | the CRC-32 of src/misc/bit_math.c, its algebra, and the division of polynomials that it is |
| `Gpt.dfy`, `GptFormat.dfy` | `gpt_init` of src/fs/gpt.c, and the header format of the UEFI Specification |
| `Regions.dfy`, `Frames.dfy` | the choice of a boot region and the frame bitmap of src/mem/paging.c |
| `Text.dfy`, `Raster.dfy`, `Cursor.dfy`, `Screen.dfy` | text on a terminal, its dots and pixels, the cursor on screens of any size, and the framebuffer code of src/drivers/screen.c |
| `Scancodes.dfy`, `KeyLayout.dfy`, `Keyboard.dfy` | the Scan Code Set 2 decoder, the keys of the board with their codes, the ring of events and the delivery to a callback of src/drivers/keyboard.c |
| `Shell.dfy` | the growing line buffer of src/shell/shell.c, on the heap |

**The heap.** The invariant `Heap.Allocator.Valid` is kept by every operation, so it holds over
every run: the blocks tile the arenas without gap or overlap, each at a multiple of its size; list L
is acyclic and holds exactly the free blocks of level L; no two free blocks are buddies; and the
largest block size is that of the highest level, above which all lists are empty. From it follow the
canonical form (the free set is a function of the live set), the completeness of `kmalloc`, and the
round trips. The contracts of `kmalloc` and `kfree` also give the order of every list, and with the live
blocks that determines the whole state (`StateIsDetermined`), so also which block every later request
gets. Header reads at addresses where the heap keeps no header are answered by a function
`outside`, arbitrary up to the condition `OutsideOk` on the arenas below the highest level; on one arena
at the highest level it holds for every `outside`, and `MergeLeavesArenaIff` says that it is exactly what
the merge test needs.

**Growth.** The page requests of the growth loop are answered by an arbitrary function `grant`. The
invariant of growth itself, `Heap.Allocator.Sized`, holds for every `grant` and is kept by every
`kmalloc` on a heap of any state; the heap stays in order exactly when each answer is null or a new
arena, one that is aligned to its size and apart from the others. `HeapOnFrames` asks which answers the
kernel's own page allocator gives. As written, boot leaves frame 0 in use and every used frame in an
arena, and every page request keeps it so: each answer that is not null is a page of an arena. So growth
keeps the heap in order if and only if its first page request fails, which is when the bitmap without
its all-used words has no run of that many free frames; and a first growth to 4 MiB returns the boot page
again, one beyond that the page after it. As intended, an answer is a new arena if and only if its address is aligned to the arena's size.
From boot on that is so for k rounds exactly when the address of frame 0 is one page more than a multiple
of the k-th arena's size.

**The frame allocator.** Three lines differ from their evident intent, so each operation appears twice,
as written and as intended, and lemmas say exactly when the code as written is right: a grant was free
if and only if the first `count` frames were free, it starts at the last frame in use that the scan has
looked at, and a range is given back if and only if it starts
at frame 0. Two requests for one page in a row get the same page. A fourth line builds the initial bits
with an `int` shift, which is defined for at most 31 frames. The interval that is kept free for the
kernel is rounded inwards, so the kernel's first and last partial page are protected if and only if the
kernel is page-aligned.

**The checksum and the partition table.** Three references stand behind `calculate_ccitt32_ansi_crc32`:
the table-driven register of RFC 1952, the algebra of the register (it is affine, and a bijection for fixed
data), and the remainder of a division of polynomials modulo 2, stated from the exponents of the generator
alone. A partition table header is a datatype of fields with its encoding; for all field values the status
of `gpt_init` is that of the first wrong field, and every sector is the encoding of some header.

**The terminal.** The reference is the text written on an endless paper of fixed width; the screen is
a window on its last rows. The lines of the paper are the pieces of the printed string between newlines,
cut at the width. Between that and the framebuffer stand a cursor-and-grid terminal and a
raster of dots, and each step of `screen_putch` is related to a step on the next more abstract level.
The framebuffer is modelled for screens of whole glyphs; `DrawsInsideIffWholeGlyphs` says that these
are exactly the screens on which nothing is drawn past an edge.

**The keyboard.** The decoder is a step function over bytes, proved equal to the imperative code
with its static variables. Its round trip holds for any two key tables, and the tables of the source
are shown to satisfy its condition on every recognised key. `KeyLayout` lists the codes of Scan Code Set 2
row by row as the keys lie on the board, and shows that every key but Print Screen has exactly one
stroke.

## Model

| member | source | states |
|---|---|---|
| `Heap.Allocator.constructor` | src/mem/mem.c:20-22 | the static initial state: no block, empty lists, and highest_block_size the size of highest_level |
| `Heap.Allocator.KallocInit` | src/mem/mem.c:24-35 | after a successful page request the heap is one free top-level block, first on its list, and nothing is live; after a failed one it is still empty and valid, and -1 is returned |
| `Heap.Allocator.Kmalloc` | src/mem/mem.c:37-109 | on a heap of any state and whatever the page requests return: size and level of the largest block stay in step; a call that grows the heap returns the last answer plus 16, or null when that answer was null or the request still does not fit; otherwise, for totals up to 2^31, null exactly when the lists from the target level up are all empty, else the first block of the target list or the last piece of the first block on the highest list that is not empty; null without growth changes nothing. On a heap in order, with answers that are new arenas or null: null if and only if no naturally aligned free span of the rounded-up size exists in any arena; otherwise the payload lies in such a span and is the one new live block; and all lists are given with their order: the block taken from is gone, on every level between it and the target one free piece is the new first block, and all else is as it was |
| `Heap.Allocator.Serve` | src/mem/mem.c:45-108 | the same for the request with its header |
| `Heap.Allocator.AllocateTotal` | src/mem/mem.c:64-108 | the part after growth, with the tightest level for the request; a request that needs the largest level gets the first block of that list |
| `Heap.Allocator.Allocate` | src/mem/mem.c:66-108 | fast path or split loop; null exactly when the lists from the level up are empty, which on a heap in order says that no free span exists |
| `Heap.Allocator.SplitDown` | src/mem/mem.c:76-108 | the split loop, on a heap of any state: null exactly when all lists from the target level up are empty, and then nothing has changed; otherwise the last piece of the first block on the highest list that is not empty; on a heap in order one new live block of exactly the target level, and the lists of all levels in their order |
| `Heap.Allocator.Deliver` | src/mem/mem.c:85-90 | the payload of the first block of a list; that list loses its head and no other list changes |
| `Heap.Allocator.TakeHead` | src/mem/mem.c:66-73 | exactly one header and one list head change; on a heap in order the block was a free span and becomes live |
| `Heap.Allocator.SplitHead` | src/mem/mem.c:79-105 | exactly two list heads change, and the upper half, which ends where the block ended, heads the next lower list; on a heap in order tiling, lists and live blocks are kept |
| `Heap.Allocator.EmptyListsMeanNoSpan` | src/mem/mem.c:76-108 | when all lists from the target level up are empty, no free span of that level exists anywhere: full coalescing makes the search complete |
| `Heap.Allocator.LevelFor` | src/mem/mem.c:64-64 | the level computed by `logb` and `round_pow2_boundary` is the tightest one, for totals up to 2^31 |
| `Heap.TargetLevelIsTight` | src/mem/mem.c:42-64 | a level's blocks hold the request and the header if and only if the level is at least the target level; the target block is smaller than twice the total |
| `Heap.Allocator.Grow` | src/mem/mem.c:45-62 | for every answer to the page requests: the loop ends; size and level of the largest block agree, the level is at most 33 and the list heads above it are empty; exactly the heads of the new levels change, each to its answer; the request fits on success, and on failure the level is 33 or the last answer was null; with new arenas or null as answers the heap stays in order, with the same live blocks, and on failure no arena can hold the request |
| `Heap.Allocator.GrowOnce` | src/mem/mem.c:50-61 | one round, for every answer: one head and at most one header change; a heap in order stays in order if and only if the answer is null or a new arena (aligned to its size and apart from all arenas) |
| `Heap.JoinsIffNew` | src/mem/mem.c:53-61 | the same for the headers, lists and arenas as values |
| `Heap.Allocator.NoListAbove` | src/mem/mem.c:53-53 | on a heap in order the list head that growth overwrites is empty, so no free block is lost |
| `Heap.Allocator.Kfree` | src/mem/mem.c:111-151 | the block, and no other, stops being live; the invariant, full coalescing included, holds again; the maximal free span around the block is the first block on the list of its level, the blocks inside it are on no list, and all others are where they were; a null pointer changes no header and no list |
| `Heap.Allocator.BuddyRead` | src/mem/mem.c:121-127 | below the top of its arena a block's XOR partner is the start of a current block, so the header read is never stale; the merge test passes if and only if the two are a free pair |
| `Heap.Allocator.FindPredecessor` | src/mem/mem.c:133-137 | the walk ends, and always finds the predecessor of a block that is on the list but not its head |
| `Heap.Allocator.RemoveFromFreeList` | src/mem/mem.c:129-140 | unlinking takes exactly the buddy out of exactly its list, keeps the order of the others and changes no block |
| `Heap.Allocator.MergeWithBuddy` | src/mem/mem.c:128-145 | a merge keeps tiling, lists and live blocks and raises the level by one; only the buddy leaves the lists |
| `Heap.Allocator.MergeUpwards` | src/mem/mem.c:121-146 | the merge loop ends with a block that contains the freed one and has no free buddy, at most at the highest level; the lists are those of before without the blocks inside it |
| `Heap.Allocator.InsertFreed` | src/mem/mem.c:149-150 | the merged block goes to the front of its list, and every list is complete again |
| `ListOrder.BeyondHalves` | src/mem/mem.c:121-146 | taking the blocks of one half of a span off a list and then those of the other takes those of the whole span off |
| `ListOrder.CutClears` | src/mem/mem.c:128-140 | unlinking one free block leaves every list without exactly the blocks in its span |
| `ListOrder.CarveOn` | src/mem/mem.c:92-105 | one split on the way down: the piece in front goes on the next lower list in front of the old members, and the last piece before it |
| `HeapLaws.HeapIsCanonical` | src/mem/mem.c:37-151 | in every valid state the free blocks are exactly the maximal naturally aligned free spans of the bytes outside live blocks |
| `HeapLaws.ListsHoldFreeBlocks` | src/mem/mem.c:75-106 | every list is acyclic, list L holds exactly the free blocks of level L, and no block is on two lists |
| `HeapLaws.StateIsDetermined` | src/mem/mem.c:14-22 | live blocks and list order determine all list heads and all headers, but for the links in the headers of live blocks: so the contracts of `Kmalloc` and `Kfree` leave nothing open |
| `HeapLaws.PayloadIsExclusive` | src/mem/mem.c:72-72 | a payload is 16-aligned and shares no byte with any other block or any header |
| `HeapLaws.MergeLeavesArenaIff` | src/mem/mem.c:121-127 | after growth the guard `level < highest_level` no longer means that the buddy is in the arena: the merge test passes at the top of a smaller arena if and only if the memory outside looks like a free header of that level |
| `HeapLaws.MallocThenFree` | src/mem/mem.c:37-151 | kfree undoes kmalloc: every block is as before, with one free block more for every arena that was granted; of memory outside the heap only the levels that the call can reach matter |
| `HeapLaws.OutsideOkWithoutGrowth` | src/mem/mem.c:121-127 | without growth these are the levels of the heap as it is |
| `HeapLaws.ArenasKeepTiling` | src/mem/mem.c:45-62 | the blocks of before with one free block for every granted arena are a coalesced tiling with the same live blocks |
| `HeapLaws.FreeAll` | src/mem/mem.c:111-151 | freeing all live blocks in any order leaves one free block for each arena, and nothing else |
| `HeapLaws.MaximalSpanIsUnique` | src/mem/mem.c:111-151 | a byte lies in one maximal free span at most |
| `HeapLaws.FreeThenMalloc` | src/mem/mem.c:37-151 | the maximal free span that a free makes up is what the next request of its level gets, and the lists are then those of before without the blocks in that span |
| `HeapLaws.TakeFrom` | src/mem/mem.c:66-106 | the list that serves a request, the address of the last piece of its first block, and the lists afterwards |
| `HeapRuns.LastFreedIsFirst` | src/mem/mem.c:37-151 | last in, first out: two blocks freed without merging come back in reverse order, and then live blocks and lists are as before |
| `HeapRuns.FreedAlone` | src/mem/mem.c:121-127 | a freed block whose buddy is in use is a maximal free span by itself |
| `HeapRuns.FourSmallRequests` | src/mem/mem.c:24-109 | from the boot page at B four requests of at most 16 bytes get the blocks B + 2 MiB - 32, B + 2 MiB - 64, B + 1 MiB - 32 and B + 1 MiB - 64 |
| `HeapLaws.FreeLatest` | src/mem/mem.c:111-151 | freeing a block restores any earlier coalesced tiling with the same other live blocks |
| `HeapLaws.Obtain` | src/mem/mem.c:37-109 | the pointer returned owns a new block that holds the bytes; for totals up to 2^31 no pointer means no room |
| `HeapLaws.ReleaseOlder` | src/mem/mem.c:111-151 | of two blocks obtained in turn, freeing the older one leaves the newer one and all others |
| `Buddy.CanonicalForm` | src/mem/mem.c:111-151 | in a coalesced tiling, being a free block and being a maximal free span are the same |
| `Buddy.LiveBlocksDetermineTiling` | src/mem/mem.c:111-151 | two coalesced tilings with the same live blocks are equal: the free set is a function of the live set |
| `Buddy.FreeSpanIsOneBlock` | src/mem/mem.c:121-146 | a maximal free span is one free block, because its halves would have been merged |
| `Buddy.FreeSpanNeedsFreeBlock` | src/mem/mem.c:76-108 | any free span lies inside one free block at least as large |
| `Buddy.BuddyIsBlock` | src/mem/mem.c:122-123 | the buddy address of a block below the top level is the start of a current block of at most the same level |
| `Buddy.BuddyOfArena` | src/mem/mem.c:121-125 | a block at the buddy address of a whole arena belongs to a smaller arena |
| `Buddy.XorFindsBuddy` | src/mem/mem.c:123-123 | XOR with the block size is the other half of the aligned parent |
| `Buddy.HalvesAreBuddiesIffAligned` | src/mem/mem.c:94-123 | the halves made by a split find each other by XOR if and only if the block is aligned to its size |
| `Buddy.NothingLive` | src/mem/mem.c:30-34 | with nothing live an arena is one free block |
| `BuddySteps.SplitKeepsTiling` | src/mem/mem.c:92-105 | a split leaves no gap and no overlap |
| `BuddySteps.SplitKeepsCoalesced` | src/mem/mem.c:92-105 | after a split the two halves are the only free pair |
| `BuddySteps.MergeKeepsTiling` | src/mem/mem.c:142-145 | a merge leaves no gap and no overlap |
| `BuddySteps.MergeKeepsCoalesced` | src/mem/mem.c:142-145 | after a merge only the merged block can be in a free pair |
| `BuddySteps.ArenaKeepsTiling` | src/mem/mem.c:53-61 | a new arena that is apart from the others joins the tiling |
| `FreeLists.UnlinkLater` | src/mem/mem.c:133-139 | redirecting one `next` removes exactly one element of a linked list |
| `FreeLists.PushHead` | src/mem/mem.c:99-105 | a block in no list becomes the head of its list, and all others stay |
| `HeapOnFrames.GrowAsWritten` | src/mem/mem.c:45-62 | the growth loop on the frames as written: a heap in order stays in order if and only if the request fits already, or the level is 33, or the first page request finds no run in the bitmap without its all-used words, and then nothing is added; what boot established about used frames holds again |
| `HeapOnFrames.GrowRoundAsWritten` | src/mem/mem.c:50-61 | one round on a heap of any state: used frames lie in arenas again; the answer is null exactly when the bitmap without its all-used words has no run, and otherwise a page of an arena; a heap in order stays in order if and only if it is null, and overlapping arenas stay so |
| `HeapOnFrames.RequestAsWritten` | src/mem/paging.c:165-198 | as written, once frame 0 is in use: null exactly when the bitmap without its all-used words has no run; otherwise the page returned lies in an arena, so the answer is no new arena |
| `HeapOnFrames.GrantedFramesAreArenas` | src/mem/paging.c:184-189 | the frames marked for an arena lie in it, so used frames still lie in arenas |
| `HeapOnFrames.PageTwice` | src/mem/mem.c:53-61 | a span that starts inside an arena does not go with it |
| `HeapOnFrames.UsedFrameIsNoArena` | src/mem/mem.c:53-61 | a span that starts at a present frame in use is no new arena |
| `HeapOnFrames.Boot` | src/mem/mem.c:24-35 | after initialisation `kalloc_init` takes frame 0, and every frame in use lies in an arena |
| `HeapOnFrames.BootThenGrow` | src/mem/mem.c:24-73 | the reachable run: the first kmalloc after boot that grows the heap to 4 MiB returns the boot page plus 16, although the boot page is still the first free block of its level; the heap is then not in order |
| `HeapOnFrames.BootThenGrowTwice` | src/mem/mem.c:24-73 | the run with two rounds: a first kmalloc of more than 4 MiB after boot is given frame 0 in the first round and frame 1 in the second, and returns the address of frame 1 plus 16 |
| `HeapOnFrames.NewArenaIffAligned` | src/mem/mem.c:53-61 | a free run of the right number of pages is a new arena if and only if its address is aligned to its size |
| `HeapOnFrames.FreeRunIsApart` | src/mem/paging.c:165-198 | a run of free frames that are each apart from an arena is apart from it as a whole |
| `HeapOnFrames.RequestArena` | src/mem/paging.c:165-198 | as intended: null exactly when no run is long enough; otherwise the first fit, and a new arena if and only if its address is aligned |
| `HeapOnFrames.GrowRound` | src/mem/mem.c:50-61 | as intended: one round keeps free frames apart from arenas, and the heap in order exactly when all arenas are aligned |
| `HeapOnFrames.Grow` | src/mem/mem.c:45-62 | the growth loop on the frames as intended: it ends, and afterwards the heap is in order if and only if every arena is aligned to its size; it fails only at level 33 or when no run is long enough |
| `HeapOnFrames.BootAsIntended` | src/mem/mem.c:24-35 | the state from which growth as intended starts is reached after boot, with all frames but the first free |
| `HeapOnFrames.BootThenGrowAsIntended` | src/mem/mem.c:24-62 | as intended, after k > 0 successful rounds from boot the heap is in order if and only if the address of frame 0 is one page more than a multiple of the largest arena; the rounds go on exactly until the request fits, the frames run out or the level is 33 |
| `HeapOnFrames.GrowFromBoot` | src/mem/mem.c:50-61 | as intended, round k + 1 takes the next 2^(k + 1) frames, or fails exactly when there are fewer |
| `HeapOnFrames.ZeroAlignedStep` | src/mem/mem.c:53-61 | one more arena is aligned together with the earlier ones if and only if frame 0 is one page behind a multiple of its size |
| `HeapOnFrames.FitAtFront` | src/mem/paging.c:165-198 | of frames that are free from one on, the first fit starts there |
| `Memory.Memmove` | src/mem/mem.c:170-184 | the destination gets the old bytes of the source for overlapping ranges in both directions, and nothing else changes |
| `Memory.Memset` | src/mem/mem.c:162-168 | exactly n cells are set |
| `Memory.Memcpy` | src/mem/mem.c:153-160 | exactly n cells are copied, between two memories or within one, unless the destination starts inside the source |
| `BitMath.RoundPow2Boundary` | src/misc/bit_math.c:9-19 | for 1..2^32 the result is the least power of two not below the argument |
| `BitMath.CascadeRoundsUp` | src/misc/bit_math.c:10-16 | the five shift-or steps turn x - 1 into one less than that power |
| `BitMath.SmearStep` | src/misc/bit_math.c:11-15 | or-ing x with x >> m doubles the run of leading ones |
| `BitMath.CeilLogIsLeast` | src/misc/bit_math.c:9-19 | the reference: its power is not below x, and no smaller power of two is |
| `BitMath.Logb` | src/misc/bit_math.c:7-7 | floor of log2 of the low 32 bits of the argument |
| `BitMath.LogbOfPow2` | src/misc/bit_math.c:7-7 | exact on the powers of two below 2^32 |
| `BitMath.LeadingZerosPlaceTopDigit` | src/misc/bit_math.c:7-7 | 31 minus the leading zeros is where the highest digit stands |
| `Crc.Calculate` | src/misc/bit_math.c:21-35 | the loop computes the mathematical CRC of the first `length` bytes |
| `Crc.TableUpdateAgrees` | src/misc/bit_math.c:25-33 | the bit-by-bit register equals the table-driven one of section 8 of RFC 1952 on every byte string |
| `Crc.CrcResumes` | src/misc/bit_math.c:21-35 | a CRC can be resumed over concatenation |
| `Crc.CrcOfXor` | src/misc/bit_math.c:21-35 | crc(a) xor crc(b) xor crc(c) is the crc of a xor b xor c, for equal lengths |
| `Crc.UpdateIsBijective` | src/misc/bit_math.c:25-33 | for fixed data the register update is a bijection on 32-bit states, with its inverse |
| `Crc.UpdateByWord` | src/misc/bit_math.c:25-33 | a byte string is shifted in as one little-endian number |
| `Crc.WindowInjective` | src/misc/bit_math.c:25-33 | up to four bytes are determined by the register before and after them |
| `Crc.BitBurstDetected` | src/misc/bit_math.c:21-35 | strings of equal length that differ only inside 32 consecutive bits, at any bit offset, have different CRCs |
| `Crc.BurstChangesRegister` | src/misc/bit_math.c:25-33 | such strings take any register to different ones |
| `Crc.BurstDetected` | src/misc/bit_math.c:21-35 | strings of equal length that differ only inside four consecutive bytes have different CRCs |
| `Polynomials.CrcIsRemainder` | src/misc/bit_math.c:21-35 | over the polynomials modulo 2: the CRC with its bits in the opposite order is the complement of the remainder of the message times x^32, its first 32 coefficients complemented, on division by the generator with the exponents 32, 26, 23, 22, 16, 12, 11, 10, 8, 7, 5, 4, 2, 1, 0 of section 8.1.1.6.2 of ITU-T V.42 |
| `Polynomials.CrcIsDetermined` | src/misc/bit_math.c:21-35 | a number is that remainder if and only if it is the complement of the reversed CRC |
| `Polynomials.RemainderIsUnique` | src/misc/bit_math.c:25-33 | a polynomial has one remainder below the degree of the divisor |
| `Polynomials.RegisterIsRemainder` | src/misc/bit_math.c:21-33 | the register after a byte string, in the opposite order, is the remainder of the dividend |
| `Polynomials.StepsDivide` | src/misc/bit_math.c:26-33 | n shifts of the register are n steps of the division, with the quotient |
| `Polynomials.PolyReversed` | src/misc/bit_math.c:22-30 | the constant of the source is the generator without its leading term, in the opposite order |
| `Polynomials.DegreeOfProduct` | src/misc/bit_math.c:25-33 | the degree of a product is the sum of the degrees |
| `Gpt.Partition.Init` | src/fs/gpt.c:17-78 | status -1 exactly when the heap has no room, -2 exactly on a read error, otherwise the verdict on the sector; the fields describe the sector, and the heap is left as it was on every path |
| `Gpt.Partition.ReadHeader` | src/fs/gpt.c:29-77 | the checks on the buffer whose CRC field has been zeroed give the verdict on the sector as it was read |
| `Gpt.Partition.ReadFields` | src/fs/gpt.c:41-48 | zeroing the CRC field first does not disturb the fields behind it |
| `Gpt.VerdictReadsHeaderOnly` | src/fs/gpt.c:50-77 | only the first 92 bytes of the sector count |
| `Gpt.BurstIsRejected` | src/fs/gpt.c:35-74 | an accepted header is rejected after any change inside 32 consecutive bits of its first 92 bytes that start at or before the CRC field, or behind it |
| `GptFormat.VerdictIsStatus` | src/fs/gpt.c:35-77 | for all field values of a header laid out as section 5.3.2 of the UEFI Specification lists them, the status is that of the first field that is not as it must be: signature "EFI PART", revision 1.0, the size of the header, its CRC with that field zero, MyLBA 1 |
| `GptFormat.StandardIsAccepted` | src/fs/gpt.c:50-77 | every header with these fields and its own CRC is accepted; with any other signature, revision, size, CRC or MyLBA it gets -3, -4, -5, -6 or -7 |
| `GptFormat.StoredFields` | src/fs/gpt.c:35-48 | every field of an encoded header is read back from its offset |
| `GptFormat.DecodeThenEncode` | src/fs/gpt.c:35-48 | every sector starts with the encoding of a header, so all sectors are covered |
| `GptFormat.EncodeThenDecode` | src/fs/gpt.c:35-48 | the bytes of a header determine its fields |
| `GptFormat.InitOn` | src/fs/gpt.c:17-78 | `gpt_init` on a disk with any header: its status, and the eight fields that it keeps are AlternateLBA, FirstUsableLBA, LastUsableLBA, the disk GUID, PartitionEntryLBA, the number and the size of the entries, and the CRC of the entry array |
| `GptFormat.ZeroedIsStored` | src/fs/gpt.c:39-39 | zeroing four bytes of the sector zeroes the CRC field of the header and nothing else |
| `Regions.ChooseRegion` | src/mem/paging.c:102-151 | the region is page-aligned, inside one usable entry, on one side of the excluded interval, longer than a page, and no admissible piece of any entry is longer; among those of equal length it is from the first entry, and the lowest of that entry; none is chosen only if no piece is longer than a page |
| `Regions.BestIsLongest` | src/mem/paging.c:108-138 | for one entry the better side is the lowest of the longest admissible pieces |
| `Regions.LongestPieceIsUnique` | src/mem/paging.c:106-147 | so the choice is determined by the memory map |
| `Regions.ChoiceIsExact` | src/mem/paging.c:149-151 | -1 exactly when no entry leaves more than one page |
| `Regions.KernelIsAvoidedIff` | src/mem/paging.c:116-117 | the excluded interval is the kernel rounded inwards: every choice avoids the kernel if and only if the kernel starts and ends at page boundaries |
| `Frames.FrameAllocator.Init` | src/mem/paging.c:97-163 | the base and the number of frames come from the first longest piece; afterwards exactly the present frames are free |
| `Frames.FrameAllocator.InitBitmap` | src/mem/paging.c:153-161 | with the bit shifted as a 64-bit word: exactly the frames below min(length / 2 MiB, 2560) are free |
| `Frames.FrameAllocator.InitBitmapAsWritten` | src/mem/paging.c:153-161 | with the `int` shift as written: every shift is defined if and only if at most 31 frames are present, and then exactly those are free |
| `Frames.FrameAllocator.AllocPagesAsWritten` | src/mem/paging.c:165-198 | as written: nothing is returned if and only if the words that are not 0, put side by side, have no run of `count` free frames, so something is returned whenever the bitmap has one, also across words; what is returned starts at the last frame in use, in a word that is not 0, before the frame where the first fit in those words ends, or at frame 0 if there is none; it lies in the bitmap, all its bits end cleared and no other bit changes; it was free before if and only if the first `count` frames were, and then it is those; a request for 0 frames gets the first frame in use in a word that is not 0 |
| `Frames.FrameAllocator.ScanAsWritten` | src/mem/paging.c:166-195 | the scan over words, skipping used words without ending the run, finds exactly what a first-fit scan of the remaining words finds, and its candidate is the last frame in use that it has looked at |
| `Frames.CountFree` | src/mem/paging.c:173-181 | on the words that are not 0 the counter is the length of the run that ends there |
| `Frames.GrantStartIsUnique` | src/mem/paging.c:165-198 | as written: the bitmap and the number of pages determine the frame that a grant starts at |
| `Frames.GrantStartsTooLow` | src/mem/paging.c:173-190 | as written: if the first word that is not 0 has enough free frames in a row from frame m on, and none before it, the grant starts at frame m - 1, which is in use |
| `Frames.FrameAllocator.TwoSinglePages` | src/mem/paging.c:165-198 | as written: two requests for one page right after initialisation return the same page |
| `Frames.FrameAllocator.AllocPages` | src/mem/paging.c:165-198 | as intended: the lowest-address first fit of the naive search, nothing exactly when no run exists; outstanding ranges stay disjoint and inside the present frames |
| `Frames.FrameAllocator.Scan` | src/mem/paging.c:166-195 | as intended: the single pass over words is the naive first fit |
| `Frames.FrameAllocator.MarkUsed` | src/mem/paging.c:184-189 | the marking loop clears exactly the `count` bits from the candidate on |
| `Frames.FrameAllocator.FreePagesAsWritten` | src/mem/paging.c:200-217 | as written: frames from the start up to `count` (not start + count) become free; addresses that are unaligned or below the base change nothing |
| `Frames.FreeAsWrittenRestoresIff` | src/mem/paging.c:211-212 | as written, freeing restores the bitmap if and only if the range starts at frame 0 |
| `Frames.FrameAllocator.FreePages` | src/mem/paging.c:200-217 | as intended: exactly the outstanding range becomes free, and leaves the ledger |
| `Frames.FrameAllocator.AllocThenFree` | src/mem/paging.c:165-217 | as intended: freeing what was just allocated restores the bitmap and the ledger |
| `Frames.LedgerAfterAlloc` | src/mem/paging.c:165-198 | a grant of a free run keeps outstanding ranges disjoint |
| `Frames.LedgerAfterFree` | src/mem/paging.c:200-217 | taking a range back keeps the ledger |
| `Frames.ChangeBit` | src/mem/paging.c:187-187 | setting or clearing one bit of a word changes exactly one frame |
| `Screen.Display.constructor` | src/drivers/screen.c:154-159 | on a zeroed framebuffer of whole glyphs the screen shows the empty text |
| `Screen.Display.Putch` | src/drivers/screen.c:170-202 | the pixels stay the rendering of everything printed so far, now with the new character, through wrap and scroll; the cursor advances as on a screen of any size |
| `Screen.Display.MoveOn` | src/drivers/screen.c:189-201 | the end of the call: one glyph further, or a line break |
| `Cursor.DrawsInsideIffWholeGlyphs` | src/drivers/screen.c:170-202 | for all texts every pixel written is on the screen if and only if width and height are whole glyphs |
| `Cursor.CursorOnGrid` | src/drivers/screen.c:189-201 | on a screen of any size the cursor stays on it, at multiples of the glyph size |
| `Screen.Display.Print` | src/drivers/screen.c:204-208 | printing adds the characters up to the first zero, and the pixels render them |
| `Screen.Display.SetColor` | src/drivers/screen.c:166-166 | what has been printed keeps its colours |
| `Screen.Display.PixelsShowText` | src/drivers/screen.c:170-237 | every pixel of the screen is the dot of the text laid out on paper of fixed width, seen through a window on its last rows |
| `Screen.Display.DrawPixel` | src/drivers/screen.c:149-152 | one pixel inside the screen changes, and no other |
| `Screen.Display.DrawGlyph` | src/drivers/screen.c:175-187 | the glyph loops draw one cell of the grid |
| `Screen.Display.FillSquare` | src/drivers/screen.c:179-184 | one dot of the font becomes a square of pixels |
| `Screen.Display.Scroll` | src/drivers/screen.c:232-237 | the overlapping memmove and the memset move the picture up and leave blank rows below |
| `Screen.Display.LineBreak` | src/drivers/screen.c:190-198 | the cursor goes to a new line, scrolling at the bottom |
| `Text.PaperOfString` | src/drivers/screen.c:170-202 | the lines of the paper are the pieces of the string between the characters '\n', each cut after every `cols` characters |
| `Raster.GlyphRowSpellsByte` | src/drivers/screen.c:175-187 | the dots of one row of a glyph, from left to right, are the binary digits of the font's byte, from the lowest on |
| `Text.PutShowsLongerText` | src/drivers/screen.c:170-202 | one step of the terminal with its cursor and scrolling shows the longer text |
| `Text.CursorCellIsBlank` | src/drivers/screen.c:170-187 | the cell under the cursor is blank, so a glyph is never drawn over another |
| `Raster.ScrollShows` | src/drivers/screen.c:232-237 | scrolling pixels by whole glyph rows scrolls the dots they show |
| `Scancodes.RoundTrip` | src/drivers/keyboard.c:97-553 | any sequence of ordinary makes and breaks, encoded as bytes and decoded from idle, gives exactly its events and leaves the decoder idle |
| `Scancodes.RunAppend` | src/drivers/keyboard.c:97-553 | decoding a concatenation is decoding its parts in turn |
| `Scancodes.RecognisedStrokesAreOrdinary` | src/drivers/keyboard.c:109-171 | in Scan Code Set 2 every recognised stroke is ordinary |
| `Scancodes.EventsDetermineStrokes` | src/drivers/keyboard.c:156-547 | over both tables together no recognised event has two strokes |
| `Scancodes.PauseIndexInBounds` | src/drivers/keyboard.c:113-154 | over any byte stream the index into the pause sequence never exceeds 4, so it stays in bounds |
| `Scancodes.PauseIsMisread` | src/drivers/keyboard.c:113-154 | the Pause sequence is never recognised: it is read as the release of two other keys |
| `Scancodes.PrintScreenKeepsPrefix` | src/drivers/keyboard.c:118-129 | after the press of Print Screen the E0 prefix stays in force for the next key |
| `Scancodes.PrintScreenRelease` | src/drivers/keyboard.c:109-129 | the release of Print Screen, E0 F0 7C E0 F0 12, gives one release event, from idle and after its press, and leaves both prefixes in force |
| `Scancodes.NextPressIsARelease` | src/drivers/keyboard.c:109-129 | so the next key that is pressed is reported as the release of an extended key |
| `KeyLayout.FunctionRowLeft` | src/drivers/keyboard.c:286-546 | the codes of Escape and F1 to F6, as Scan Code Set 2 assigns them |
| `KeyLayout.FunctionRowRight` | src/drivers/keyboard.c:286-546 | F7 to F12 |
| `KeyLayout.DigitRowLeft` | src/drivers/keyboard.c:286-546 | the digit row from the grave accent to 6 |
| `KeyLayout.DigitRowRight` | src/drivers/keyboard.c:286-546 | and from 7 to backspace |
| `KeyLayout.UpperRowLeft` | src/drivers/keyboard.c:286-546 | the letter row Tab, Q to Y |
| `KeyLayout.UpperRowRight` | src/drivers/keyboard.c:286-546 | U to the backslash |
| `KeyLayout.HomeRowLeft` | src/drivers/keyboard.c:286-546 | Caps Lock, A to H |
| `KeyLayout.HomeRowRight` | src/drivers/keyboard.c:286-546 | J to Enter |
| `KeyLayout.LowerRowLeft` | src/drivers/keyboard.c:286-546 | left Shift, Z to B |
| `KeyLayout.LowerRowRight` | src/drivers/keyboard.c:286-546 | N to right Shift |
| `KeyLayout.BottomRow` | src/drivers/keyboard.c:156-546 | the modifiers and the space bar, without and with E0 |
| `KeyLayout.KeysOfTheMainBlock` | src/drivers/keyboard.c:156-546 | one code, two keys: Enter, slash, Ctrl and Alt, and what they are behind E0 |
| `KeyLayout.UpperKeypad` | src/drivers/keyboard.c:156-546 | the same for the upper half of the keypad and the keys Home, Up, PageUp, Left, Right |
| `KeyLayout.LowerKeypad` | src/drivers/keyboard.c:156-546 | and for the lower half and End, Down, PageDown, Insert, Delete |
| `KeyLayout.KeypadSigns` | src/drivers/keyboard.c:286-546 | the signs of the keypad and the two lock keys |
| `KeyLayout.MediaKeys` | src/drivers/keyboard.c:156-285 | the media keys |
| `KeyLayout.SystemKeys` | src/drivers/keyboard.c:156-285 | the power and program keys |
| `KeyLayout.BrowserKeys` | src/drivers/keyboard.c:156-285 | the browser keys |
| `KeyLayout.EveryKeyHasAStroke` | src/drivers/keyboard.c:97-553 | no key is missing: for the press and for the release of every key but Print Screen there are bytes that decode to exactly that event from idle to idle |
| `Keyboard.Driver.TranslateScancode` | src/drivers/keyboard.c:97-553 | the static variables and the event after one byte are those of the decoder's step function |
| `Keyboard.Driver.HandleByte` | src/drivers/keyboard.c:557-572 | one interrupt: decoder step, history, delivery, and the run law |
| `Keyboard.Driver.Accept` | src/drivers/keyboard.c:565-571 | a recognised event enters the ring, the oldest one is delivered if a callback is installed, and the run law is kept |
| `Keyboard.Driver.HandleStream` | src/drivers/keyboard.c:557-572 | a stream of bytes adds exactly its decoded events to the history and keeps the run law |
| `Keyboard.Driver.TypeStrokes` | src/drivers/keyboard.c:97-618 | end to end: a callback installed on an empty ring gets exactly the events of the strokes sent |
| `Keyboard.Driver.Push` | src/drivers/keyboard.c:565-567 | the ring is a first-in first-out queue of 24 that drops its oldest event |
| `Keyboard.Driver.GetEvent` | src/drivers/keyboard.c:609-614 | the oldest event is taken out; on an empty ring an old slot is read and the count becomes negative |
| `Keyboard.Driver.InstallCallback` | src/drivers/keyboard.c:616-618 | installing a callback keeps the run law; taking it away with a null callback starts a new one |
| `Keyboard.RingPush` | src/drivers/keyboard.c:565-567 | writing a slot and advancing modulo 24 is the drop-oldest push |
| `Keyboard.RunLawAfter` | src/drivers/keyboard.c:565-571 | with m events before the callback was last installed and p of them in the ring, event i delivered since is number m + i - min(p, 23) of the history; without an earlier callback p is min(m, 24) |
| `Keyboard.RunLawBefore` | src/drivers/keyboard.c:565-567 | before the callback is installed the ring keeps the last 24 events |
| `Shell.Line.Accept` | src/shell/shell.c:120-134 | the buffer holds the characters accepted since the last reset, one more at the end; it fails only when growing and, for requests up to 2^31 in all, only if the heap has no room, and then the line is unchanged |
| `Shell.Line.GrowLine` | src/shell/shell.c:121-132 | capacity c becomes 2c + 1, the characters are kept, and the shell owns one heap block, the new one |
| `Shell.Line.CopiedAtMostTwiceTheSize` | src/shell/shell.c:117-135 | all growth steps since the reset copied at most twice the size in bytes |
| `Shell.Line.Reset` | src/shell/shell.c:140-147 | the buffer is empty and the heap's live blocks are those of the others |
| `Shell.Line.constructor` | src/shell/shell.c:11-13 | initially no character and no block |

## Left out

- The header of a block that was merged away is dropped from the store, although its bytes stay in memory until the payload overwrites them; the proofs read such an address as arbitrary memory.
- `grant`: in `Heap` what `paging_alloc_pages` answers to the growth loop is a parameter; `HeapOnFrames` replaces it by the frame allocator for the growth loop, not for `kfree`, which never returns pages.
- `outside`: memory in which the heap keeps no header is a parameter; at the top of an arena below the highest level it must not look like a free block of that level.
- Heap.Allocator.Kmalloc: requests where `bytes + 16` wraps around, or that fit but exceed 2^31 in all, give the outcome `OutOfRange`, because there the rounded size leaves the 32 bits that `logb` counts.
- Heap.Allocator.Kfree: the pointer must be null or the payload of a live block, and the heap in order; on a heap whose arenas overlap nothing bounds the walk at src/mem/mem.c:134-136.
- Frames.FrameAllocator.InitBitmap: the bit is shifted as a 64-bit word; `InitBitmapAsWritten` stops at the first shift that C leaves undefined, and nothing is said about what follows it.
- Frames.FrameAllocator.AllocPagesAsWritten: the physical addresses do not wrap around, and `paging_map_page` is a no-op; page tables are not part of this model.
- Frames.FrameAllocator.AllocPages: is the intended variant: a used frame makes the next one the candidate, and a used word ends the run; a request for 0 frames is not recorded in the ledger.
- Frames.FrameAllocator.FreePages: is the intended variant, for a range that is outstanding.
- Regions.ChooseRegion: entries whose addresses wrap around are excluded, and the kernel addresses are above the direct-map offset.
- Regions.KernelIsAvoidedIff: is stated for kernels with a page below and three pages above them in the address space.
- Screen.Display.constructor: the framebuffer is zeroed, has 32 bits per pixel and a pitch of whole pixels, and its visible width and height are whole glyphs at a fixed font scale, the exact condition of `DrawsInsideIffWholeGlyphs`; changing the scale, `screen_clear`, `screen_print_addr` and colour packing are not modelled.
- Cursor.DrawsInsideIffWholeGlyphs: is stated for fonts with a glyph that has a dot in its last row and column, as the underscore of the source's font; width, height and scale are positive.
- Screen.Display.Putch: characters have 7 bits, because the font has 128 glyphs; the font is an arbitrary table.
- Memory.Memcpy: copies within one memory whose destination starts inside the source are excluded, as in the C library.
- Gpt.Partition.Init: the outcome of the disk read is a parameter, and the calls of `kfree` on the several return paths are one call at the end; the buffer is an array of its own, not a part of the modelled memory.
- Keyboard.Driver.InstallCallback: calls of `keyboard_get_event` from outside the handler are modelled, but the run law is not followed past them.
- Scancodes.RoundTrip: Pause and Print Screen are excluded; `PauseIsMisread`, `PrintScreenKeepsPrefix` and `PrintScreenRelease` show what the decoder does with them.
- Scancodes.NormalKey and Scancodes.ExtendedKey: the two switches of the source are cut into ranges of codes; the numbers that the C enumeration gives to the keys are not part of the model.
- Shell.Line.Accept: the letter switch, the shift state, the echo on the screen and the stop after running out of memory are not modelled; the buffer is an array of its own.
- Gpt.BurstIsRejected: nothing is said about changes that start inside the CRC field and end behind it.
- `strlen` and `memcmp` would only add easy members.
- Port I/O, ATA polling, the interrupt tables, the boot protocol and pre-emption by interrupts are hardware matters: handlers are atomic.
