# A verified model of the paging simulator, the blocked matrix product and ext2 directory blocks

The repository holds three pieces of systems programming whose correctness is far from plain in the code. This
project models each of them in Dafny and proves what they are for.

**The demand-paging simulator (`a2/starter`).** A trace of memory references is replayed against a two-level page
table, a coremap of frames, a swap file with a bitmap allocator, and one of five replacement policies. The model has
two layers.

* `Machine` describes the whole system as values, `Accesses` what one access comes to, and `Runs.Step` is one call of
  `access_mem`. `Runs.IsRun` says that a sequence of states comes from replaying a prefix of a trace, and the theorems
  about whole runs are stated over it: the invariant of every reachable state (`Runs`), the refinement of flat memory
  (`FlatMemory`), counters and swap slots (`Accounting`), what both come to in letters of the trace and bytes of the
  swap file (`WriteCounts`, `SwapLayout`), Belady's theorem (`Belady`, `BeladyTheorem`, `OptOptimal`), what each policy
  keeps in memory (`LruOrder`, `FifoOrder`, `ClockQueue`, `ClockRuns`), and that `rand` can do whatever demand paging
  can do (`RandRuns`).
* The classes follow the C code: page table words with flag bits (`PageTables`), the words of the bitmap (`Bitmaps`),
  the swap file (`Swaps`), the list threaded through the coremap (`LruLists`), the clock hand and the fifo front
  (`Policies`), the hash table of linked lists (`OptIndex`, `OptPolicy`), physical memory (`Memories`) and the
  functions that tie them together (`Simulators`). Every method is proved to do what the function of `Machine` of the
  same name says, so `Simulators.Simulator.ReplayTrace` makes a run in the sense of `Runs.IsRun`, and the theorems
  hold of it.

**Blocked matrix multiplication (`a2/starter/traceprogs`).** The conversions between row-major and blocked storage
walk with moving pointers, and six nested loops compute the product. `BlockLayout` describes both layouts;
`BlockedMatmul`, `BlockedProduct` and `Matmul` hold the loops. The two products are proved equal for any type of
entries and any addition and multiplication. Since nothing is assumed about the two operations, equality says that
every entry's terms are added in the same order, and it covers floating point with its rounding. In exact arithmetic
the simple product is the composition of linear maps (`MatrixMaps`).

**ext2 directory blocks (`a3`).** Records of variable length tile a block of 1024 bytes. `DirBlocks` has the bytes and
the loops that insert, delete and look up; `DirChains` the chain of records; `DirRecords` what those loops do to the
sequence of records and to the names that are found; `DirLayout` and `DirBytes` what that means in numbers and bytes;
`DirLinks` what deletion by inode does to a name; and `DirRuns` what any run of insertions and deletions keeps.

## Where the code and its comments differ

The model follows the code.

* `a2/starter/sim.c:45-47` says the content of a page is checked against the address accessed. What is stored is the
  address of the page's first reference, so a line of the trace draws the error message exactly when its address
  differs from that one, even if it lies on the same page (`FlatMemory.ComplaintIffNotFirstAddress`). A trace that
  reads one page at two of its addresses draws it (`FlatMemory.SecondAddressRefused`).
* `a2/starter/opt.c:112-114` and `162` speak of probing. `HSIZE` has no parentheses around it, so line 164 computes
  `(hash + i) % 4096 * 4096`, and line 165 tests one slot and reads another. This does no harm because the hash
  permutes page numbers, so every entry lies in its home slot (`OptIndex.SearchIsExact`). On other tables the loop
  would dereference an empty slot (`OptIndex.SearchNeedsHomeSlots`).
* `a2/starter/opt.c:92-95` promises few collisions; there are none (`OptIndex.HashInjective`).
* `a3/ext2_ln.c:188-193` rounds the size of the existing record to a multiple of four but not that of the new one.
  Alignment is kept all the same, because the new record gets all that is left (`DirRecords.InsertKeeps`).
* `a3/ext2_ln.c:218` stores the length of a name in one byte. A name of 256 characters or more is stored cut short and
  cannot be looked up; all others can (`DirRecords.CreatedIffShort`, `DirRecords.LongNameLost`). The callers test that
  the whole name is not found (`a3/ext2_mkdir.c:17`, `a3/ext2_ln.c:141-146`), which for such a name says nothing about
  the part that is stored. If that part is there already the block gets two records of one name, and if the new one
  lies in front of the old one the old name leads to the new inode (`DirRecords.LongNameShadows`). The exact conditions
  are `DirRecords.InsertSoundIff` for a block to stay sound, `DirRecords.KeptIffNotShadowed` for a name to keep its
  inode, and `DirRuns.RunSoundIff` for runs; for shorter names the callers' test is enough (`DirRuns.RunKeepsSound`,
  `DirRuns.ShortNamesShadowNothing`).
* `a3/ext2_rm.c:77-81` finds the record to delete by its inode alone, and does not remove the first record of a block.
  `remove_file` on a path whose parent is `parent_i` therefore leaves the name in place if its record is the first of
  the block or an earlier record has the same inode, and in the second case it may remove that other name instead
  (`DirLinks.RemovedByNameIff` for the exact condition; `DirLinks.WrongLinkRemoved` and `DirLinks.FirstRecordKept` for
  blocks where it fails). So `delete_entry` undoes what `create_entry` has just done only if the inode has no record up
  to the one that was split (`DirLinks.RemoveUndoesInsert`).
* `a3/ext2_util.c:66-70` promises -1 when a file is treated as a directory. The code looks behind the first place in
  the path where the token occurs as text, which may lie in another component. The promise is kept if and only if the
  record is a directory or a slash follows there exactly when one follows the component (`DirBlocks.PromiseKeptIff`).
  On `/a/a` a file `a` in the directory `a` is taken for a directory, and on `/ab/a/c` a file `a` in `ab` is used as
  one unnoticed (`DirBlocks.FileTakenForDirectory`, `DirBlocks.FileUsedAsDirectory`).

## Model

| member | source | states |
|---|---|---|
| Accesses.AroundIsRemainder | a2/starter/fifo.c:26-32 | Moving on in the ring of frames is the remainder modulo memsize that fifo and clock compute. |
| Machine.FirstFree | a2/starter/pagetable.c:29-34 | The scan stops at the first frame not in use, or at memsize if all are in use. |
| Machine.LeastFree | a2/starter/swap.c:64-87 | The slot allocated is the least one not in use, or the number of slots if there is none. |
| Machine.Skips | a2/starter/clock.c:26-29 | The hand passes over at most memsize frames, all with their reference bit set, and stops at a frame without it or after a full turn. |
| Machine.OptVictim | a2/starter/opt.c:185-208 | The chosen frame's page has the latest next use, and it is the first such frame. |
| Machine.Evict | a2/starter/pagetable.c:35-37 | Every policy picks a frame below memsize and changes nothing but its own state and reference bits; which frame it is, the rows of RandRuns, LruOrder, FifoOrder, ClockQueue and OptOptimal tell. |
| Machine.AllocateCold | a2/starter/pagetable.c:26-34 | While a frame is free the first free one is taken without any eviction, and for clock it is the frame under the hand. |
| Machine.AllocateFull | a2/starter/pagetable.c:35-69 | In a full memory the victim, never the page being loaded, goes to its own slot or the least free one with ONSWAP set and VALID cleared, is counted, and the process exits exactly when it has no slot and none is free. |
| Accesses.Hit | a2/starter/pagetable.c:194-214 | On a hit only the entry's dirty and reference bits, two counters and the policy's state change. |
| Accesses.Miss | a2/starter/pagetable.c:173-214 | On a miss the allocated frame is filled from swap or with the new address, and the entry ends valid, referenced and dirty only if written, though ref_fcn runs before VALID is set. |
| Accesses.SlotsApart | a2/starter/swap.c:228-235 | The slot a victim is written to is no other page's slot. |
| Runs.InitialInv | a2/starter/sim.c:119-148 | The state main() sets up satisfies the invariant. |
| Runs.HitKeepsInv | a2/starter/pagetable.c:194-214 | A hit keeps the invariant and never exits. |
| Runs.MissKeepsInv | a2/starter/pagetable.c:173-214 | A miss keeps the invariant, through eviction, swap and load. |
| Runs.Step | a2/starter/sim.c:49-63 | One access keeps the invariant and counts one reference. |
| Runs.ReachableInv | a2/starter/pagetable.c:26-215 | In every reachable state, under every policy: valid entries and used frames are in bijection, no entry is both valid and on swap, the address in a frame is on its page, slots are distinct and marked, and the policy's structure agrees with the coremap. |
| Runs.OnHit | a2/starter/sim.c:49-63 | The whole new state after a line that hits. |
| Runs.OnColdMiss | a2/starter/sim.c:49-63 | The whole new state after a miss with a free frame; under clock the page is loaded under the hand, so clock_ref marks the page just loaded. |
| Runs.OnEviction | a2/starter/sim.c:49-63 | The whole new state after a miss with an eviction. |
| Runs.Classify | a2/starter/pagetable.c:152-215 | Every step is one of these three kinds, with the victim the policy picked. |
| FlatMemory.AccessChangesOnePage | a2/starter/pagetable.c:152-215 | A line changes the content of the page it names and of no other page, wherever they are and whatever is evicted. |
| FlatMemory.PagedIsFlat | a2/starter/sim.c:49-63 | For every policy, trace and moment, each page holds its first address and as many versions as it had 'S' and 'M' accesses, as in a memory without paging. |
| FlatMemory.ComplaintIffNotFirstAddress | a2/starter/sim.c:54-56 | The check of the stored address fails exactly on lines whose address is not the first one used on that page. |
| FlatMemory.SecondAddressRefused | a2/starter/sim.c:54-56 | Every run of a two-line trace that reads one page at two addresses meets the second line with the error message. |
| WriteCounts.WritesAreStores | a2/starter/sim.c:58-61 | The writes to a page number the lines whose address divided by 4096 is the page and whose letter is 'S' or 'M'. |
| WriteCounts.VersionCountsStores | a2/starter/sim.c:49-63 | For every policy, trace and moment, a page's version is the number of lines so far with letter 'S' or 'M' on its 4096 addresses, its address is that of the first line on them, and it holds nothing exactly if there is no such line. |
| Accounting.CountersBalance | a2/starter/pagetable.c:193-198 | References are hits plus misses; misses are frames in use plus clean and dirty evictions. |
| Accounting.DirtyIffWrittenSinceLoad | a2/starter/pagetable.c:204-206 | A resident page is dirty exactly when it was accessed with 'S' or 'M' since it was last loaded. |
| Accounting.EvictionsCountedByWrites | a2/starter/pagetable.c:39-46 | An eviction counts as dirty exactly when its page was written since it was last loaded, and as clean otherwise. |
| WriteCounts.DirtyIffStored | a2/starter/pagetable.c:204-206 | A page in memory is dirty exactly if some line with letter 'S' or 'M' named it and it was in memory on every later line that named it. |
| WriteCounts.EvictionsCountedByStores | a2/starter/pagetable.c:41-46 | An eviction adds one to the dirty count exactly for a page with such a line, and else one to the clean count; the other count stays. |
| Accounting.SlotsNeverChange | a2/starter/swap.c:222-256 | A page keeps the first slot it is given, over the rest of the run. |
| Accounting.SlotIffEverEvicted | a2/starter/pagetable.c:49-61 | The pages with a slot are exactly the pages evicted at some line. |
| Accounting.SlotCount | a2/starter/swap.c:228-235 | As many slots are marked used as there are pages that were ever evicted. |
| SwapLayout.ReachablePacked | a2/starter/swap.c:228-235 | At every moment the slots in use are the first ones of the file. |
| SwapLayout.EvictedGoesTo | a2/starter/swap.c:228-235 | A page evicted for the first time goes to byte 16 * k after k other pages were evicted, and from then on always back to that byte; its entry is on swap and keeps frame number and dirty bit. |
| SwapLayout.BytesApart | a2/starter/swap.c:234-252 | At every moment each page ever evicted has 16 bytes within the file that no other page's 16 bytes touch, and all others have offset -1. |
| Accounting.ExitIffSwapExhausted | a2/starter/pagetable.c:49-52 | A line exits if and only if it misses in a full memory, the victim was never evicted before and every slot is taken. |
| Accounting.EnoughSwapNeverExits | a2/starter/swap.c:229-233 | A swap file with as many slots as pages named so far never stops the run. |
| BeladyTheorem.Exchange | a2/starter/opt.c:179-184 | From any run that holds a page used later, one can build a run that holds a page used sooner instead and has no more misses. |
| BeladyTheorem.BetterVictim | a2/starter/opt.c:179-184 | Evicting a page used no sooner than the one a run evicts is no worse over the whole rest of the trace. |
| BeladyTheorem.FarthestIsOptimal | a2/starter/opt.c:185-208 | A run that always evicts a page used farthest in the future has no more misses than any run from the same pages. |
| BeladyTheorem.FarthestInPrefix | a2/starter/opt.c:185-208 | A step that evicts by farthest use in the whole trace does so in every prefix of it. |
| OptOptimal.OptVictimIsFarthest | a2/starter/opt.c:185-208 | The page opt evicts is a resident page with the farthest next use. |
| OptOptimal.RunIsLegal | a2/starter/pagetable.c:26-69 | Over any number of lines and under any policy the resident pages move as Belady's theorem assumes, and under opt by farthest use. |
| OptOptimal.MissCountIsMisses | a2/starter/pagetable.c:193 | Between any two moments of a run miss_count grows by the misses of the run seen as sets of pages. |
| OptOptimal.OptHasFewestMisses | a2/starter/opt.c:185-233 | On the same trace and memory size, after every line that both replay, opt has had no more misses than any policy with any stream of random victims, whether the runs complete or stop for want of swap space. |
| RandRuns.DrawsAreEvictions | a2/starter/rand.c:17-22 | At every moment as many random values have been drawn as pages have been evicted. |
| RandRuns.RandVictim | a2/starter/rand.c:17-22 | The page evicted after k evictions is the one in the frame given by random value number k modulo memsize. |
| RandRuns.SameRun | a2/starter/rand.c:17-22 | Random values that a run has not drawn have no effect on it. |
| RandRuns.RandRunsAreAll | a2/starter/pagetable.c:26-69 | With a slot for every page named, sets of pages are the resident sets of a whole run of rand for some stream if and only if they are a run of demand paging from an empty memory, the runs that Belady's theorem speaks of. |
| RandRuns.RandCanImitate | a2/starter/rand.c:17-22 | For every whole run of any policy some stream makes rand hold the same pages after every line and miss as often, so opt's bound is met. |
| LruOrder.RecencyOrder | a2/starter/lru.c:15-18 | The order of recency lists each page used so far once, by increasing time of last use. |
| LruOrder.StackIsRecency | a2/starter/lru.c:50-93 | After every line the list holds the most recently used pages, bottom to top by last use. |
| LruOrder.StackSize | a2/starter/lru.c:59-63 | The list is as long as there are frames in use. |
| LruOrder.LruHoldsMostRecent | a2/starter/lru.c:26-93 | After every line the resident pages are exactly the memsize most recently used ones, or all if there are fewer. |
| LruOrder.LruInclusion | a2/starter/lru.c:26-93 | On one trace a smaller memory always holds a subset of what a larger one holds, and the larger never has more misses. |
| LruOrder.LruEvictsLeastRecent | a2/starter/lru.c:31-44 | The page evicted was last used before every other resident page. |
| FifoOrder.FifoHoldsLatestLoads | a2/starter/fifo.c:26-48 | After every line the frames from queue_front on hold the latest loads, oldest first. |
| FifoOrder.FifoEvictsEarliestLoad | a2/starter/fifo.c:26-32 | The page evicted is the one loaded memsize loads ago. |
| ClockQueue.SecondChanceIs | a2/starter/clock.c:22-31 | The second-chance queue moves its marked front pages to the back unmarked, at most once around. |
| ClockQueue.EvictIsSecondChance | a2/starter/clock.c:22-31 | Clearing bits and turning the hand does to the frames, read from the hand on, what second chance does to a queue. |
| ClockQueue.ClockHit | a2/starter/clock.c:39-43 | A hit marks the page in the queue and moves nothing. |
| ClockQueue.ClockMiss | a2/starter/clock.c:46-53 | A miss removes the front after second chances and puts the new page, marked, at the back. |
| ClockQueue.ClockIsSecondChance | a2/starter/clock.c:22-55 | Once memory is full, every line does to the queue and to the resident pages what the second-chance policy does. |
| ClockRuns.HitMarks | a2/starter/clock.c:39-43 | A hit marks its page and moves nothing, whether frames are free or not. |
| ClockRuns.ColdFill | a2/starter/clock.c:46-53 | While frames are free a miss puts its page, marked, at the back; when the last one is taken the hand is back at frame 0. |
| ClockRuns.LineServes | a2/starter/clock.c:22-55 | Every line does to memory, from the first one on, what one reference does to the queue of the second-chance algorithm. |
| ClockRuns.ClockSimulated | a2/starter/clock.c:22-55 | After every line the frames in use with their reference bits are the queue of the second-chance algorithm run on the same lines, read from frame 0 while frames are free and from the hand on once memory is full. |
| ClockRuns.ClockHoldsSimulated | a2/starter/clock.c:22-55 | After every line the resident pages are exactly those in that queue, which trace and memory size determine. |
| Words.SetWord | a2/starter/swap.c:100-111 | Or with a one-bit mask sets that bit and no other and stays a 32-bit word. |
| Words.ClearWord | a2/starter/swap.c:113-124 | And with the complement of a one-bit mask clears that bit and no other. |
| Words.AllSet | a2/starter/swap.c:72 | A word equals 0xffffffff exactly when all 32 bits are set. |
| Bitmaps.SetInWords | a2/starter/swap.c:89-111 | Setting a bit of a word adds exactly its index to the set of slots in use. |
| Bitmaps.ClearInWords | a2/starter/swap.c:113-124 | Clearing a bit of a word removes exactly its index. |
| Bitmaps.FoundLeast | a2/starter/swap.c:71-82 | The bit at which the scan stops is below nbits and the least free index, so the assertion on it holds. |
| Bitmaps.Bitmap.constructor | a2/starter/swap.c:28-62 | Nothing is in use, the bits past nbits are set, and both assertions hold. |
| Bitmaps.Bitmap.Alloc | a2/starter/swap.c:64-87 | Takes the least free index, fails exactly when there is none, and never reaches assert(0). |
| Bitmaps.Bitmap.Mark | a2/starter/swap.c:100-111 | Adds the index to the set. |
| Bitmaps.Bitmap.Unmark | a2/starter/swap.c:113-124 | Removes the index from the set. |
| Bitmaps.Bitmap.IsSet | a2/starter/swap.c:127-135 | True exactly for indices in the set and for the padding past nbits. |
| Swaps.Swap.constructor | a2/starter/swap.c:151-168 | A swap file of the given size with no slot in use. |
| Swaps.Swap.PageIn | a2/starter/swap.c:188-213 | The frame is filled from the slot at the offset, and nothing else in memory changes. |
| Swaps.Swap.PageOut | a2/starter/swap.c:222-256 | The frame is written to its page's slot, or to the least free slot, which becomes used; INVALID_SWAP with nothing changed if there is none. |
| PageTables.IndicesArePage | a2/starter/pagetable.h:39-41 | The two indices of an address are in range and together are its page number. |
| PageTables.SameEntryIffSamePage | a2/starter/pagetable.h:39-41 | Two addresses share an entry if and only if they lie on the same page: distinct pages have distinct entries. |
| PageTables.DecodeSet | a2/starter/pagetable.h:13-16 | Setting a flag changes that flag and nothing else an entry stands for, its frame number included. |
| PageTables.DecodeFlip | a2/starter/pagetable.c:58-60 | Flipping VALID or REF where it is set clears that flag and nothing else. |
| PageTables.DecodeFrame | a2/starter/pagetable.c:178-179 | Storing a frame number and shifting it into place clears all flags and keeps the swap offset. |
| PageTables.DecodeNew | a2/starter/pagetable.c:105-109 | The word of a new entry stands for no frame, no flag and no slot. |
| EntryWords.DecodeDigits | a2/starter/pagetable.h:10-16 | The word's flags are its digits of weight 1, 2, 4 and 8, and its frame number is the word divided by 4096. |
| EntryWords.AddressDigits | a2/starter/pagetable.h:24-41 | Every 36-bit address is put together from its two 12-bit indices and its place in the page, and the indices are the page number. |
| PageTables.PageTable.constructor | a2/starter/pagetable.c:81-88 | No second-level table is present. |
| PageTables.PageTable.Locate | a2/starter/pagetable.c:154-169 | Finds the entry of the address's page, allocating its table if need be, and changes no entry. |
| PageTables.PageTable.Get | a2/starter/pagetable.c:169-175 | The word read stands for the page's entry. |
| PageTables.PageTable.Put | a2/starter/pagetable.c:186-187 | Writing through the pointer changes the entry of one page only. |
| PageTables.PageTable.SetFlag | a2/starter/pagetable.c:204-211 | Sets one flag of one page. |
| PageTables.PageTable.HasFlag | a2/starter/pagetable.c:173-175 | Tests that flag of that page. |
| LruLists.BottomOff | a2/starter/lru.c:37-42 | Unlinking the bottom leaves a well-formed list of the other frames. |
| LruLists.OnTop | a2/starter/lru.c:64-67 | Linking a frame above the top gives a well-formed list ending in it. |
| LruLists.MiddleOut | a2/starter/lru.c:85-86 | Linking the two neighbours of a frame leaves a well-formed list without it. |
| LruLists.Lru.Evict | a2/starter/lru.c:31-44 | Takes the bottom of the list off it, also for memsize 1, and changes nothing in the coremap but links. |
| LruLists.Lru.PushLoaded | a2/starter/lru.c:60-67 | A page just loaded goes on top; with a single frame its prev then is the frame itself and its next NULL. |
| LruLists.Lru.RaiseBottom | a2/starter/lru.c:75-81 | The bottom frame moves to the top and the order of the others is kept. |
| LruLists.Lru.RaiseMiddle | a2/starter/lru.c:84-91 | A middle frame moves to the top and the order of the others is kept. |
| LruLists.Lru.Ref | a2/starter/lru.c:50-93 | In all its branches the frame ends on top and the list stays well-formed; with a single frame the links are NULL after the first load, and from the second load on prev is the frame itself. |
| Policies.Fifo.Evict | a2/starter/fifo.c:26-32 | Returns queue_front and advances it around the ring. |
| Policies.StopAt | a2/starter/clock.c:26-30 | The frame at which the loop of clock_evict stops, and the bits it cleared, are those the specification names. |
| Policies.Clock.Evict | a2/starter/clock.c:22-31 | Terminates after at most memsize cleared bits at the first frame from the hand without one, or the old hand if all were set. |
| Policies.Clock.Ref | a2/starter/clock.c:37-55 | On a hit marks the page; otherwise marks the page under the hand and advances, unless it was marked. |
| OptIndex.HashInverse | a2/starter/opt.c:96-104 | Multiplying by 297481 modulo 2^24 undoes the hash. |
| OptIndex.HashInjective | a2/starter/opt.c:96-104 | No two page numbers have the same hash. |
| OptIndex.SearchIsExact | a2/starter/opt.c:158-173 | On tables with entries at home, search returns the home slot for every page entered and -1 for every other, and never dereferences an empty slot. |
| OptIndex.SearchNeedsHomeSlots | a2/starter/opt.c:163-170 | A table, not one that insert builds, on which the loop does dereference an empty slot. |
| OptIndex.InsertIsAtHome | a2/starter/opt.c:116-153 | Insertion always uses the home slot and keeps entries at home. |
| OptIndex.PositionsInOrder | a2/starter/opt.c:52-68 | A page's list is the increasing sequence of all its positions. |
| OptIndex.HeadIsNextUse | a2/starter/opt.c:196-205 | The head of that list is the page's next use, and an empty list means there is none. |
| OptIndex.InsertIndexes | a2/starter/opt.c:261-268 | One line read by opt_init extends the index by one position. |
| OptIndex.DeleteIndexes | a2/starter/opt.c:215-233 | At reference t the head that is deleted is position t, and the lists are then those from t + 1 on. |
| OptIndex.LookupIsNextUse | a2/starter/opt.c:190-206 | The list found for a page of the trace gives its next use. |
| OptPolicy.Entry.Append | a2/starter/opt.c:52-68 | The linked list grows by one position at its back, and its assertion holds. |
| OptPolicy.Entry.Delete | a2/starter/opt.c:72-86 | The linked list loses its head. |
| OptPolicy.Opt.Search | a2/starter/opt.c:158-173 | The probing loop, with the tests and indices of the code. |
| OptPolicy.Opt.Insert | a2/starter/opt.c:116-153 | Both branches of insertion, and its exit for a full table. |
| OptPolicy.Opt.Init | a2/starter/opt.c:240-275 | The whole trace is indexed. |
| OptPolicy.Opt.Evict | a2/starter/opt.c:185-208 | Returns the first frame whose page is never used again or, failing that, is used last. |
| OptPolicy.Opt.Ref | a2/starter/opt.c:215-233 | Takes the current position off the page's list, never exits, and advances the position. |
| OptPolicy.NeverUsedWins | a2/starter/opt.c:196-198 | Returning early at a page never used again gives the victim of the whole scan. |
| Memories.Memory.FreeFrame | a2/starter/pagetable.c:29-34 | The first free frame. |
| Memories.Memory.Take | a2/starter/pagetable.c:64-66 | The frame is in use for the page; no other frame and no link changes. |
| Memories.Memory.PageOutVictim | a2/starter/pagetable.c:39-61 | The victim's content is in its slot, its entry is on swap and not valid, and exit happens exactly without a free slot. |
| Memories.Memory.LoadNew | a2/starter/pagetable.c:175-181 | A first reference finds version 0 and the address in the frame. |
| Memories.Memory.LoadSwapped | a2/starter/pagetable.c:183-192 | The frame has the content of the page's slot, and all flags of the entry are clear. |
| Simulators.Simulator.constructor | a2/starter/sim.c:119-145 | The structures of main() stand for an initial state. |
| Simulators.Simulator.InitFcn | a2/starter/sim.c:147-148 | After init_fcn the simulator is ready to replay the trace. |
| Simulators.Simulator.EvictFcn | a2/starter/sim.c:21-27 | Each of the five evict functions does what the specification of its policy says. |
| Simulators.Simulator.RefFcn | a2/starter/sim.c:21-27 | Each of the five ref functions does what the specification of its policy says. |
| Simulators.Simulator.AllocateFrame | a2/starter/pagetable.c:26-69 | Refines allocate_frame of the specification, exit included. |
| Simulators.Simulator.FindPhyspage | a2/starter/pagetable.c:152-215 | Refines find_physpage of the specification and returns the frame of the page. |
| Simulators.Simulator.AccessMem | a2/starter/sim.c:49-63 | Refines one step of a run; complains exactly when the stored address differs. |
| Simulators.Simulator.ReplayTrace | a2/starter/sim.c:66-83 | Replaying a trace makes a run of the specification, exits early only when stuck for swap space, and complains exactly on lines whose address is not their page's first. |
| Simulators.Simulate | a2/starter/sim.c:119-150 | Built, initialised and run on a trace, the simulator makes a run of the specification from its initial state. |
| BlockLayout.BlockedInverse | a2/starter/traceprogs/blocked.c:172-176 | Position in blocked storage determines block and place in the block, and stays below n * n. |
| BlockLayout.RowMajorInverse | a2/starter/traceprogs/blocked.c:266-271 | Position in row-major storage determines block and place in the block. |
| BlockLayout.SourceDest | a2/starter/traceprogs/blocked.c:249-319 | The two conversions of positions are mutually inverse permutations. |
| BlockedMatmul.ToBlocked | a2/starter/traceprogs/blocked.c:249-279 | The walking pointers put every entry in its blocked place, through the temporary. |
| BlockedMatmul.FromBlocked | a2/starter/traceprogs/blocked.c:290-319 | The walking pointers put every entry back in its row-major place. |
| BlockedMatmul.LayoutsInverse | a2/starter/traceprogs/blocked.c:249-319 | Each conversion undoes the other on every matrix. |
| BlockedMatmul.OutOne | a2/starter/traceprogs/blocked.c:268-273 | One assignment through the pointers of To_blocked fills the next blocked position rightly. |
| BlockedMatmul.InOne | a2/starter/traceprogs/blocked.c:309-314 | One assignment through the pointers of From_blocked fills a place not filled before. |
| Matmul.MatMult | a2/starter/traceprogs/matmul.c:136-146 | Each entry is its sum of n products, added in order from zero. |
| MatrixMaps.SumsExchange | a2/starter/traceprogs/matmul.c:136-146 | Under the laws of a semiring, summing products by columns is summing them by rows. |
| MatrixMaps.ProductComposes | a2/starter/traceprogs/matmul.c:136-146 | For all matrices and vectors over a semiring, applying the product is applying B and then A. |
| MatrixMaps.RealsAreExact | a2/starter/traceprogs/matmul.c:143 | Real numbers, which the program's doubles approximate, are such a semiring. |
| BlockedProduct.Term | a2/starter/traceprogs/blocked.c:193-204 | The addresses read are those of the two factors of term k_bar * b + k. |
| BlockedProduct.Product.ZeroC | a2/starter/traceprogs/blocked.c:172-176 | One block is zero, C_p is at its start, and the rest of C is unchanged. |
| BlockedProduct.Product.MultAdd | a2/starter/traceprogs/blocked.c:193-204 | Every entry of the block gets its next b terms, and no other entry changes. |
| BlockedProduct.Product.BlockedMatMult | a2/starter/traceprogs/blocked.c:214-223 | Every entry of C ends with all n terms, in order. |
| BlockedProduct.SameSums | a2/starter/traceprogs/blocked.c:193-223 | Entry by entry and term by term, blocked and simple product do the same sums. |
| BlockedProduct.BlockedIsSimple | a2/starter/traceprogs/blocked.c:214-223 | The blocked product in rows is the simple product, for uninterpreted addition and multiplication. |
| BlockedProduct.MultiplyInBlocks | a2/starter/traceprogs/blocked.c:107-117 | Conversion, blocked product and conversion back give the product of the original matrices. |
| DirRecords.RoundUp | a3/ext2_util.c:16-22 | The least multiple not below the number. |
| DirRecords.Size | a3/ext2_ln.c:190-192 | A record keeps the least multiple of 4 that covers 8 bytes of header and its name. |
| DirLayout.FitsIffRoom | a3/ext2_ln.c:188-193 | A name is entered if and only if some record can keep an aligned number of bytes for its own header and name and have 8 bytes and the name's length left. |
| DirLayout.InsertSplits | a3/ext2_ln.c:213-226 | The first such record keeps the least such number of bytes; the rest is a record of the new inode with the type given and the name cut to its length modulo 256; all other records stay. |
| DirLayout.RemoveMerges | a3/ext2_rm.c:76-88 | The first record of the inode, unless first in the block, adds its length to the one before it, and all others stay; else nothing changes. |
| DirBytes.ReadIffBytes | a3/ext2.h:204-210 | A record is read at an offset if and only if its little-endian bytes are there. |
| DirBytes.EntriesIff | a3/ext2.h:204-210 | Records are those of some block if and only if they are aligned, cover their names, fill 1024 bytes and have 32-bit inode numbers. |
| DirRecords.InsertAddsName | a3/ext2_ln.c:189-235 | For every name: its stored part gets the inode unless a record of that name lies before the split, and every other lookup is unchanged; without slack anywhere nothing changes. |
| DirRecords.KeptIffNotShadowed | a3/ext2_ln.c:214-226 | A name that is found keeps its inode over an insertion if and only if the stored part of the new name is not that name put in front of it, or the inode is the same. |
| DirRecords.CreatedIffShort | a3/ext2_ln.c:218-225 | The created name can be looked up if and only if it is shorter than 256 characters. |
| DirRecords.LongNameLost | a3/ext2_ln.c:218-225 | A new directory, in which a name of 256 characters is entered and cannot be looked up. |
| DirRecords.LongNameShadows | a3/ext2_ln.c:214-226 | A sound block in which a name of 257 characters is not found, and after whose creation a file with a name of one character leads to the new inode. |
| DirRecords.InsertKeeps | a3/ext2_ln.c:188-226 | Splitting a record conserves the bytes of the block, and lengths stay multiples of 4 that cover the names, though the new size is not rounded. |
| DirRecords.InsertSoundIff | a3/ext2_ln.c:189-235 | A sound block stays sound under insertion if and only if nothing is entered or the stored part of the name is new. |
| DirRecords.RemoveNames | a3/ext2_rm.c:76-88 | For every block: without the removed record, another one of its name before or after it is found instead, if there is one, and every other lookup is unchanged. |
| DirRecords.RemoveDropsName | a3/ext2_rm.c:76-88 | The name of the first record of the inode is gone and every other lookup is unchanged; the first record of the block stays. |
| DirRecords.RemoveKeeps | a3/ext2_rm.c:76-88 | Merging conserves the bytes of the block and keeps alignment, cover, and the first record's name and inode. |
| DirRecords.RemoveKeepsSound | a3/ext2_rm.c:76-88 | A sound block stays sound under deletion, even of names whose record is the first. |
| DirLinks.RemoveUndoesInsert | a3/ext2_rm.c:77-82 | Deleting the inode of the entry just made gives back the records as they were, slack included, if and only if the inode has no record up to the one that was split; if none was split, if and only if it finds nothing to remove. |
| DirLinks.NewNameSurvives | a3/ext2_rm.c:77-82 | If the inode has a record up to the one that was split, the new name stays after the deletion, and the older one goes unless its record is the first of the block or the stored part of the new name is the same. |
| DirLinks.RemovedByNameIff | a3/ext2_rm.c:98-163 | Looking a name up and deleting its inode removes the name if and only if its record is the first of that inode, not the first of the block, and the only one of the name. |
| DirLinks.WrongLinkRemoved | a3/ext2_rm.c:77-82 | A sound block with two names of one inode, in which removing the second removes the first. |
| DirLinks.FirstRecordKept | a3/ext2_rm.c:77-82 | A block whose first record has the inode, and in which the deletion changes nothing. |
| DirRecords.DotsSound | a3/ext2_mkdir.c:82-102 | The block of "." and ".." is sound, has those two names, both of type 2, and lengths 12 and 1012. |
| DirLayout.DotsFound | a3/ext2_mkdir.c:82-102 | Looked up in a new directory on any path, "." and ".." are found as directories, with the inodes of the directory and of its parent, and nothing else is found. |
| DirRuns.ApplyDirectory | a3/ext2_ln.c:189-235 | One call changes the names as told and in no other way, in every block and for every name. |
| DirRuns.RunSoundIff | a3/ext2_ln.c:189-235 | A run keeps a block sound throughout if and only if the stored part of every name it enters is new. |
| DirRuns.RunKeepsSound | a3/ext2_ln.c:189-235 | Every run of deletions and of insertions of names shorter than 256 characters that are not found keeps the block sound throughout. |
| DirRuns.NameStays | a3/ext2_rm.c:76-88 | A name keeps its inode over every run that does not delete that inode or shadow the name. |
| DirRuns.ShortNamesShadowNothing | a3/ext2_ln.c:141-146 | Names shorter than 256 characters that are not found shadow nothing. |
| DirRuns.NameHasOrigin | a3/ext2_ln.c:189-235 | After any run a name is found only with the inode of a record of that name that was there before, or with that of a call that entered it. |
| DirRuns.FirstStays | a3/ext2_rm.c:77-82 | "." is there after every run of any calls. |
| DirRecords.LookupIsDirectory | a3/ext2_util.c:79-108 | The first record of a name is what the directory maps the name to. |
| DirChains.TiledIsPlaced | a3/ext2_util.c:106-107 | Records that tile a stretch add up to its length, aligned and covering their names. |
| DirChains.Walk | a3/ext2_util.c:106-107 | Adding rec_len moves the walk to the next record of the chain. |
| DirBlocks.PutRecord | a3/ext2_ln.c:216-225 | The bytes written read back as the record, with the name cut to the byte-sized length, and no others change. |
| DirBlocks.SplitEntry | a3/ext2_ln.c:213-226 | The bytes of the block read as the two records in the place of one, and otherwise as before. |
| DirBlocks.CreateEntry | a3/ext2_ln.c:184-235 | The walk over the bytes inserts into the first record with slack, which is live, a record of type 7 for a symbolic link and 1 otherwise, and reports whether there was such a record. |
| DirBlocks.MergeEntry | a3/ext2_rm.c:78-80 | The bytes of the block read as one record in the place of two. |
| DirBlocks.DeleteEntry | a3/ext2_rm.c:71-88 | The walk over the bytes removes the first record of the inode unless it is the first of the block, and reports whether it found one. |
| DirBlocks.SameName | a3/ext2_util.c:80-85 | The comparison is true exactly if the record's name is the token. |
| DirBlocks.CheckEntries | a3/ext2_util.c:71-110 | Returns the inode of the first record of the token, with -1 if it is no directory and a slash follows the first place where the token occurs in the path as text, and 1 otherwise; 0 with the inode left alone if there is no such record. |
| DirBlocks.AnswerFinds | a3/ext2_util.c:79-108 | The walk returns non-zero exactly for the names of the directory, with the inode the directory gives. |
| DirLayout.AnswerByType | a3/ext2_util.c:91-96 | If the first record of the token has type 2 the result is 1 on every path; for every other type it is -1 exactly if character 47 follows the first place where the token occurs in the path, and else 1; the inode index is one less than the record's number. |
| DirBlocks.PromiseKeptIff | a3/ext2_util.c:66-70 | -1 comes back exactly for a file used as a directory at the component looked up, if and only if the record is a directory or a slash follows the first textual occurrence exactly when it follows the component. |
| DirBlocks.PromiseKeptAtFirst | a3/ext2_util.c:91-96 | It does so when the token does not occur before that component. |
| DirBlocks.FileTakenForDirectory | a3/ext2_util.c:91-96 | On /a/a a file that is the last component gets -1. |
| DirBlocks.FileUsedAsDirectory | a3/ext2_util.c:91-96 | On /ab/a/c a file that is used as a directory gets 1. |
| DirBlocks.LayDots | a3/ext2_mkdir.c:81-102 | The bytes of a new directory read as "." and "..", of 12 and 1012 bytes. |
| DirBlocks.DistinctNamesSound | a3/ext2_util.c:79-108 | A block whose records tile it, with different names, is one the results about runs start from. |

## Left out

- DirBlocks.CreateEntry: does not model the branch for a record whose i_dtime is set (`a3/ext2_ln.c:194-212`), nor the
  loop over the twelve blocks and the allocation of a new one; it requires the i_dtime the code tests, that of the first record with slack, to be zero.
- DirBlocks.DeleteEntry: does not model the loop over the blocks of the directory.
- DirBlocks.CheckEntries: does not print; inode numbers are below 2^31, so the conversion to int loses nothing.
- DirBlocks.LayDots: does not model the bitmaps, the link count, or the entry made in the parent, which repeats create_entry.
- Bitmaps.Bitmap.Mark: requires what the assertions of the code demand, an index below nbits that is not set.
- Bitmaps.Bitmap.Unmark: requires what the assertions of the code demand, an index below nbits that is set.
- Bitmaps.Bitmap.constructor: does not model wrap-around of nbits + 31; swap sizes are below 2^27, so byte offsets fit in an int.
- Swaps.Swap.PageIn: does not model failing or partial seeks and reads.
- Swaps.Swap.PageOut: does not model failing or partial seeks and writes.
- OptPolicy.Opt.Init: reads the same sequence of lines as the replay; a trace on standard input, which both would consume, is not modelled, and neither is the loop that empties the table before.
- Simulators.Simulator.ReplayTrace: does not model the parsing of lines, the skipping of those that start with '=', or the printing of counters and page tables.
- FlatMemory.PagedIsFlat: does not model wrap-around of the version, nor do the other theorems that of the counters, which are ints in the code.
- The layout of a simulated page in 16 bytes; a page is a record of version and address, and swap is an array of such pages.
- Addresses of objects: pointers into the coremap are indices with -1 for NULL, pointers to entries are pairs of indices, and the directory's own valid bit is the presence of a table.
- `random()`; the stream of its values is a parameter, and every result holds for all streams.
- Failing memory allocation, the command line, temporary files and their removal.
- The padding of the matrix records, the reading of matrices, timing, and printing; without DEBUG main() skips the conversions, so its factors count as blocked already.
- 32-bit traces (`TRACE_64` undefined).
- `a2/starter/traceprogs/fastslim.py`, `simpleloop.c`, `timer.h`: a trace filter, a traced program and a timer.
- `a3` beyond directory blocks: copying files, bitmap offsets, indirect blocks and the reuse of deleted records.
- `a1/interceptor.c`: kernel calls that are not part of this model.
- `tut10` and the test data: no property beyond what the code says.
