# Verified models of the CS:APP lab solutions

This project models the parts of the repository that hold real algorithms and proves what they
are for. Everything is Dafny 4.11; `dafny verify dfyconfig.toml` checks all of it.

| part | source | files |
|---|---|---|
| explicit-free-list allocator | `mm.c` over `memlib.c` | `DivMod`, `MmBlocks`, `MmWords`, `MmOps`, `MmPlans`, `MmClient`, `MmLimits`, `Mm`, `MmWitness` |
| semaphore bounded buffer | `sbuf.c` | `Sbuf` |
| LRU cache simulator | `csim.c` | `Lru`, `CacheTrace`, `Csim` |
| staged and blocked transposes | `trans.c` | `Trans` |
| IEEE 754 conversions | `bits.c` | `Rounding`, `Floats` |
| buffered reader | `csapp.c` (Rio) | `Rio` |
| queue over a counting allocator | `queue.c`, `harness.c` | `Harness`, `Queue` |
| K-best timer | `fcyc.c` | `Fcyc` |
| job control | `tsh.c` | `Jobs` |

## The allocator

`Mm.Allocator` is the C program: an array of 32-bit words, the break, and the globals `TOP`,
`prev_node` and `block_size`; every load and store goes through the words and is proved to stay
inside the heap. Three ghost fields say what the words encode: a row of blocks, the heap end, and
the list walk, in which some nodes are tombstones (header all ones) that deferred coalescing left
behind. `MmWords.Inv` ties the two together: the blocks tile the heap without two free neighbours,
every header and PFREE bit is right, free blocks over 8 bytes carry a valid footer, an 8-byte free
block shows a footer that fails `IS_VALID`, the list is acyclic and covers every free block exactly once, and a
tombstone's two words lie strictly inside one free block, clear of its header, node and footer.
`MmOps` proves that each group of stores keeps `Inv`, one lemma per case of `free_coalesce`,
`malloc_existing_block` and `malloc_new_block`. `MmClient` looks at the same states as a caller
does and proves what holds over whole runs. `MmLimits` settles, in both directions, where the code
stops keeping its promises:

* `malloc_new_block` (line 339) reads the trailing footer with no fallback. Its list search finds its
  node exactly when the trailing free block has more than 8 bytes, and otherwise runs past the NULL
  at the end of the list (`TrailingSearchEnds`); one small request and its free already lead to a
  heap where it does (`ShortTail`).
* it unlinks that block (line 342) before `mem_sbrk` can fail. `Malloc` covers that failure: the heap
  stays valid exactly when no trailing free block is lost to it, and otherwise no heap whatsoever is
  encoded by the words (`FailedGrowthLosesBlock`, `LostBlock`).
* the shrink branch of `mm_realloc` (lines 275-283) enlarges the block over its neighbour, whatever
  the sizes (`ShrinkOverruns`, `SwallowedBlock`); the bytes the caller keeps and all other payloads are
  still there at that moment (`ShrinkKeeps`).
* `mem_sbrk` adds its increment to a 32-bit address. Where the sum wraps, the increment is accepted and
  the break ends up below the heap (`Sbrk`, `WrappedBreak`); a heap that ends 2^31 bytes or more below
  the end of the address space is safe from that (`NeverWraps`).
* `ALIGN` wraps for requests of 2^32 - 11 bytes and more (`AlignRequestFits`).

`MmWitness` reaches each of the first four states by calls alone, from the constructor on.

## Other findings

* `float_i2f` shifts an int by 32 when the magnitude has 25 bits. What that yields is a parameter;
  the result is the nearest float, ties to even, for every input and value of the parameter except
  when the input is a tie with an even lower neighbour and the shift yields something other than 0.
* In `tsh.c` the SIGCHLD handler may run inside `fg` and `bg`. The table survives exactly when the
  handler does not deliver the end of that very process between the test of its state and the store
  (`LateUpdate`); if it does, ctrl-c can stop working (`KeyboardLost`).
* `waitfg` tests and then suspends. After a launch SIGCHLD is held back in between, after `fg` it is
  not: a report that comes there leaves the shell asleep until some further signal (`BackToPrompt`,
  `LaunchNeverStuck`, `FgStuck`).
* `addjob` can hand out the number of a live job (`NumberReused`); numbers stay distinct throughout
  a run exactly when every launch finds a full table or an unused `nextjid` (`NumbersDistinct`).
* The handler's loop stops behind the first child it does not know, so it reaps everything pending
  exactly when it knows every child but possibly the last (`ReapsAll`). Unknown children come from
  launches into a full table (`UntrackedLaunch`, `ReportLeft`).
* `rio_readlineb` with `maxlen` 0 stores a byte behind the room given (`ReadLine`).

Where comments and code disagree, the code is modelled: `free_coalesce` returns 1 when nothing was
merged, not when something was; `opfor64_m` works for every N that is a multiple of 8, 8 included;
the header of `tsh.c` does not list the stop of a background job, which the handler performs.

## Model

| member | source | states |
|---|---|---|
| MmBlocks.MergeTiles | 6_MallocLab/malloclab-handout/mm.c:369-417 | joining a freed block with its free neighbours leaves a tiling with no two free blocks side by side and all PFREE information right |
| MmBlocks.SplitTiles | 6_MallocLab/malloclab-handout/mm.c:306-315 | cutting an allocated piece off the front of a free block leaves a tiling, with the remainder free and its successor still marked |
| MmBlocks.GrowTiles | 6_MallocLab/malloclab-handout/mm.c:338-350 | a block that starts at the tail or at the trailing free block and runs past the old end, with a new tail behind it, leaves a tiling |
| MmWords.ChainDrop | 6_MallocLab/malloclab-handout/mm.c:544-547 | one store removes exactly one node from the linked list and keeps the order of the rest |
| MmWords.ChainPut | 6_MallocLab/malloclab-handout/mm.c:509-513 | two stores put a new node behind a given one and change nothing else of the list |
| MmWords.ChainReplace | 6_MallocLab/malloclab-handout/mm.c:558-562 | two stores put one node in another's place in the list |
| MmOps.RemoveTombstone | 6_MallocLab/malloclab-handout/mm.c:445-451 | unlinking a tombstone keeps the whole invariant and every payload |
| MmOps.TakeExact | 6_MallocLab/malloclab-handout/mm.c:306-319 | the stores of an exact fit turn a heap with the block free into one with it allocated; invariant and payloads kept |
| MmOps.TakeSplit | 6_MallocLab/malloclab-handout/mm.c:306-315 | the stores of a split do the same, and the remainder stands in the list where the block stood, also when it has only 8 bytes |
| MmOps.GrowTail | 6_MallocLab/malloclab-handout/mm.c:346-350 | the stores that append a block at the tail keep the invariant and every payload |
| MmOps.GrowTrailing | 6_MallocLab/malloclab-handout/mm.c:338-350 | the stores that absorb the trailing free block do, provided the list has no tombstones left |
| MmOps.FreeAlone | 6_MallocLab/malloclab-handout/mm.c:245-249 | freeing between allocated neighbours and pushing the node on top keeps the invariant and every other payload |
| MmOps.FreeIntoPrev | 6_MallocLab/malloclab-handout/mm.c:369-382 | freeing behind a free block keeps the list as it is and the invariant |
| MmOps.FreeBetween | 6_MallocLab/malloclab-handout/mm.c:403-405 | freeing between two free blocks removes the upper one's node and keeps the invariant |
| MmOps.FreeReplacing | 6_MallocLab/malloclab-handout/mm.c:394-402 | freeing before an 8-byte free block, whose node the new footer will overwrite, replaces that node at once |
| MmOps.FreeDeferring | 6_MallocLab/malloclab-handout/mm.c:389-393 | freeing before a larger free block leaves its node on the list as a tombstone that no later footer, header or node of the merged block touches |
| MmOps.PayloadWrite | 6_MallocLab/malloclab-handout/mm.c:306-320 | a store into the payload of an allocated block disturbs neither headers, footers, list nor tombstones |
| MmPlans.AlignRequestFits | 6_MallocLab/malloclab-handout/mm.c:154-154 | the rounded request has room for header and payload, in 32-bit arithmetic, iff size + 11 stays below 2^32 |
| MmPlans.PlacedSize | 6_MallocLab/malloclab-handout/mm.c:299-353 | wherever a request is placed, its block has exactly the rounded size |
| MmPlans.FlagBits | 6_MallocLab/malloclab-handout/mm.c:172-184 | the masks recover exactly the size and the three flags packed into a word |
| MmPlans.FooterBits | 6_MallocLab/malloclab-handout/mm.c:370-375 | the word before a block whose predecessor is free passes IS_VALID iff that predecessor has more than 8 bytes, and the word then read has its size |
| MmPlans.WalkUnlink | 6_MallocLab/malloclab-handout/mm.c:445-451 | dropping a tombstone in mid-traversal keeps everything the traversal has established |
| MmPlans.WalkEnd | 6_MallocLab/malloclab-handout/mm.c:437-466 | when the cursor is NULL no tombstone is left, the live nodes are those met at the start in order, and the candidate is a best fit |
| MmPlans.FreeMerged | 6_MallocLab/malloclab-handout/mm.c:384-419 | whichever merging case applies, its list surgery and the sealing stores together keep the invariant |
| MmPlans.FreedListMeans | 6_MallocLab/malloclab-handout/mm.c:57-80 | what freeing does to the list: the block's node comes in, on top if nothing is merged, unless the block before takes it over; the next block's node goes out unless it is deferred; no other node comes or goes |
| MmPlans.CarvedInv | 6_MallocLab/malloclab-handout/mm.c:304-319 | split and exact fit, as one group of stores, keep the invariant, leave no tombstone and keep every payload |
| MmPlans.GrownInv | 6_MallocLab/malloclab-handout/mm.c:331-353 | with or without a trailing free block, the stores of malloc_new_block keep the invariant and every payload |
| MmClient.LiveApart | 6_MallocLab/malloclab-handout/mm.c:18-36 | every live block is aligned to 8 and inside the heap, and two of them share no byte |
| MmClient.CarveAllocates | 6_MallocLab/malloclab-handout/mm.c:299-323 | carving a free block makes exactly one pointer live, with room for the request, and leaves all others as they were |
| MmClient.GrowAllocates | 6_MallocLab/malloclab-handout/mm.c:331-353 | so does growing the heap |
| MmClient.CallHonours | 6_MallocLab/malloclab-handout/mm.c:232-251 | a malloc or free keeps every promise made to the holders of other pointers: liveness, room, and the last value stored in each word |
| MmClient.WriteHonours | 6_MallocLab/malloclab-handout/mm.c:232-251 | a store by one holder changes nothing any other holder can read |
| MmClient.ReallocHonours | 6_MallocLab/malloclab-handout/mm.c:259-288 | a realloc that grows or keeps the block size keeps every promise to other holders, and the moved block reads back at its new address what was stored at the old one |
| MmClient.RunExtends | 6_MallocLab/malloclab-handout/mm.c:232-251 | a run followed by any further step is a run, so the calls of the class below, each a step from the state it finds, make up the runs spoken of here |
| MmClient.RunHonours | 6_MallocLab/malloclab-handout/mm.c:232-288 | over every run of malloc, failed malloc, free, realloc and stores: the live pointers are exactly those returned and not given back, each has the room asked for and reads back what its owner last stored, after a move as well |
| MmClient.RunSeparates | 6_MallocLab/malloclab-handout/mm.c:232-288 | over every run, each held block is aligned, inside the heap and large enough, and no two overlap |
| MmLimits.WalkMeetsAll | 6_MallocLab/malloclab-handout/mm.c:160-162 | stepping from header to header meets every block once, in rising order, and the sizes sum to the heap size less 8 |
| MmLimits.ListIsFreeBlocks | 6_MallocLab/malloclab-handout/mm.c:60-80 | the list holds each free block exactly once and otherwise only tombstones, whose words no block uses |
| MmLimits.RowUnique | 6_MallocLab/malloclab-handout/mm.c:160-178 | headers that agree with a row of blocks can be read as no other row |
| MmLimits.ChainUnique | 6_MallocLab/malloclab-handout/mm.c:437-466 | one memory encodes one heap: the same end, the same blocks and the same list |
| MmLimits.TrailingSearchEnds | 6_MallocLab/malloclab-handout/mm.c:338-343 | the search of line 342 finds its node iff the trailing free block has more than 8 bytes |
| MmLimits.FailedGrowthLosesBlock | 6_MallocLab/malloclab-handout/mm.c:342-348 | if mem_sbrk fails after line 342, no heap whatsoever, of any end, blocks or list, is encoded by the words left behind |
| MmLimits.ShrinkOverruns | 6_MallocLab/malloclab-handout/mm.c:275-283 | after the shrink branch, in every reading that meets the invariant, the block has grown over its successor's header and the successor is no block any more |
| MmLimits.ShrinkKeeps | 6_MallocLab/malloclab-handout/mm.c:275-283 | the stores of that branch leave the kept payload and every other payload as they were, and give the bytes cut off the header and footer of a free block |
| MmWitness.ShortTail | 6_MallocLab/malloclab-handout/mm.c:338-343 | mm_init, malloc(4) and its free leave a heap on which the next larger request searches for a node that is not on the list |
| MmWitness.LostBlock | 6_MallocLab/malloclab-handout/mm.c:342-348 | mm_init, malloc(12), its free and a malloc(20) that mem_sbrk refuses leave words that encode no heap |
| MmWitness.WrappedBreak | 6_MallocLab/malloclab-handout/memlib.c:62-67 | for a heap of 20 megabytes at 0xF0000000, the increment that malloc(0x20000000) asks for is accepted and leaves the break below the heap |
| MmWitness.SwallowedBlock | 6_MallocLab/malloclab-handout/mm.c:275-283 | mm_init, malloc(12), malloc(4) and a realloc of the first block to 4 bytes: in every reading the second block is not live any more |
| Mm.Allocator.constructor | 6_MallocLab/malloclab-handout/mm.c:212-226 | mem_init and mm_init give a valid heap with a tail block, an empty list and nothing live: the start of a run |
| Mm.Allocator.Sbrk | 6_MallocLab/malloclab-handout/memlib.c:58-69 | an increment that is not negative is accepted iff it fits or the 32-bit sum wraps; in the second case the break ends up below the heap, otherwise no word changes |
| Mm.Allocator.NeverWraps | 6_MallocLab/malloclab-handout/memlib.c:62-67 | no request makes that sum wrap if the heap ends 2^31 bytes or more below the end of the address space |
| Mm.Allocator.NodeFindPrev | 6_MallocLab/malloclab-handout/mm.c:522-538 | the search ends and returns the predecessor of a node that is on the list |
| Mm.Allocator.NodeDelete | 6_MallocLab/malloclab-handout/mm.c:544-547 | exactly the link word of the predecessor changes |
| Mm.Allocator.NodeInsert | 6_MallocLab/malloclab-handout/mm.c:500-513 | exactly two link words change; the address of TOP as predecessor makes it node_top |
| Mm.Allocator.NodeReplace | 6_MallocLab/malloclab-handout/mm.c:558-567 | exactly two link words change, in the order of the source, which matters when the nodes are neighbours |
| Mm.Allocator.GetTargetBlock | 6_MallocLab/malloclab-handout/mm.c:429-467 | the traversal ends, removes every tombstone, keeps the order of live nodes, and returns a smallest free block that fits with its list predecessor, or NULL iff none fits |
| Mm.Allocator.SetHeader | 6_MallocLab/malloclab-handout/mm.c:480-483 | the header word holds size and flags, no other word changes |
| Mm.Allocator.SetFooter | 6_MallocLab/malloclab-handout/mm.c:488-495 | the last word of the block repeats its header with the valid bit |
| Mm.Allocator.Relink | 6_MallocLab/malloclab-handout/mm.c:387-405 | the list surgery of all three cases with a free successor |
| Mm.Allocator.PrevSize | 6_MallocLab/malloclab-handout/mm.c:371-375 | the size of the free predecessor is recovered even where the list node has overwritten its footer |
| Mm.Allocator.FreeCoalesce | 6_MallocLab/malloclab-handout/mm.c:360-420 | merges on whichever sides are free, keeps the invariant and every payload, and returns 1 iff neither side was |
| Mm.Allocator.Seal | 6_MallocLab/malloclab-handout/mm.c:411-417 | exactly the merged block's header and footer and the next header are written |
| Mm.Allocator.KeepRemainder | 6_MallocLab/malloclab-handout/mm.c:312-314 | the remainder of a split gets header and footer and takes the block's place in the list |
| Mm.Allocator.Free | 6_MallocLab/malloclab-handout/mm.c:245-251 | the invariant survives all four cases, exactly the given pointer stops being live, and no other payload changes |
| Mm.Allocator.CarveTarget | 6_MallocLab/malloclab-handout/mm.c:304-319 | split and exact fit both leave the invariant, the shortened block row, and all payloads |
| Mm.Allocator.MallocExisting | 6_MallocLab/malloclab-handout/mm.c:299-323 | uses a smallest free block that fits, or returns NULL iff there is none |
| Mm.Allocator.ReclaimTrailing | 6_MallocLab/malloclab-handout/mm.c:339-342 | the trailing free block leaves the list and its size is returned |
| Mm.Allocator.PlaceAtEnd | 6_MallocLab/malloclab-handout/mm.c:349-350 | the two headers make a valid heap with the new block and a new tail, every payload kept |
| Mm.Allocator.MallocNew | 6_MallocLab/malloclab-handout/mm.c:331-353 | grows the heap by the block size less what a trailing free block has; returns NULL iff mem_sbrk refuses, with the words unchanged except that a trailing free block has left the list |
| Mm.Allocator.Malloc | 6_MallocLab/malloclab-handout/mm.c:232-240 | NULL iff nothing fits and the heap cannot grow; otherwise exactly one new live pointer, in the block the placement policy says, every other block untouched; the heap stays valid iff no trailing free block is lost to a refused growth, and then no reading of it is valid |
| Mm.Allocator.WritePayload | 6_MallocLab/malloclab-handout/mm.c:232-240 | a store by the owner of a block is a step of the client's run: one word changes and the heap stays valid |
| Mm.Allocator.CopyWords | 6_MallocLab/malloclab-handout/mm.c:285-285 | the destination starts with the source's words and no other live block changes |
| Mm.Allocator.ShrinkInPlace | 6_MallocLab/malloclab-handout/mm.c:275-282 | the three stores of the branch: the payload kept and all others are untouched, the bytes cut off look like a free block, and in every reading the block has grown to twice its old size less the new one, over its successor |
| Mm.Allocator.MoveTo | 6_MallocLab/malloclab-handout/mm.c:284-287 | the block moves with its bytes, the old one is free, nothing else changes |
| Mm.Allocator.Realloc | 6_MallocLab/malloclab-handout/mm.c:259-288 | a larger request moves to a new block that starts with all the old bytes and frees the old one; an equal one changes nothing; NULL and 0 act as malloc and free: all steps of a client's run; a smaller one keeps the pointer, the bytes asked for and every other payload, and leaves a heap whose every reading has lost the next block |
| Sbuf.InitInv | 7_ProxyLab/demoCode/conc/sbuf.c:7-15 | the initial state meets the accounting and ring invariant for any capacity and number of threads |
| Sbuf.StepInv | 7_ProxyLab/demoCode/conc/sbuf.c:28-49 | every single step of any thread keeps it |
| Sbuf.RingCells | 7_ProxyLab/demoCode/conc/sbuf.c:32-45 | indices less than n apart use different cells of the ring |
| Sbuf.FirstInFirstOut | 7_ProxyLab/demoCode/conc/sbuf.c:28-49 | in every interleaving the values taken are a prefix of the values stored, the rest sits in the ring in order, and there are at most n of them |
| Sbuf.MutualExclusion | 7_ProxyLab/demoCode/conc/sbuf.c:31-46 | no two threads are ever inside the critical sections |
| Sbuf.NothingLost | 7_ProxyLab/demoCode/conc/sbuf.c:28-49 | from call to return, each value has been handed in exactly as often as it was returned, is in the ring, or is held by a thread |
| Sbuf.DeadlockExactly | 7_ProxyLab/demoCode/conc/sbuf.c:28-49 | no thread in an operation can move iff all of them wait for a slot of a full buffer or all for an item of an empty one |
| Sbuf.MixedThreadsMove | 7_ProxyLab/demoCode/conc/sbuf.c:28-49 | with one thread inserting and one removing, some thread can step and is one step nearer to its return then |
| Sbuf.StepsAddUp | 7_ProxyLab/demoCode/conc/sbuf.c:28-49 | in every interleaving, the steps each thread has taken and those it has left are six for each of its calls |
| Sbuf.InsertEnds | 7_ProxyLab/demoCode/conc/sbuf.c:28-35 | sbuf_insert(x) is over iff its thread has taken six steps, whatever the others do in between, and x has been stored by then |
| Sbuf.RemoveEnds | 7_ProxyLab/demoCode/conc/sbuf.c:40-49 | sbuf_remove likewise, and it has returned a value taken from the buffer since its call |
| Lru.StackProperty | 4_CacheLab/cachelab-handout/csim.c:122-149 | a set holds exactly its E most recently used tags, oldest first, after any accesses |
| Lru.InclusionAt | 4_CacheLab/cachelab-handout/csim.c:122-149 | a set with more lines holds everything a smaller one holds |
| Lru.MissesMonotone | 4_CacheLab/cachelab-handout/csim.c:122-149 | misses never increase with E |
| Lru.HitExactly | 4_CacheLab/cachelab-handout/csim.c:127-148 | an access hits iff the tag was used before and fewer than E different tags were used since |
| Lru.CountsAddUp | 4_CacheLab/cachelab-handout/csim.c:129-147 | hits and misses sum to the accesses, evictions to the misses less the lines present |
| CacheTrace.SameLineSameBlock | 4_CacheLab/cachelab-handout/csim.c:116-120 | two addresses get the same set and tag iff they lie in the same block of 2^b bytes, and sets are below 2^s |
| CacheTrace.BlockNumber | 4_CacheLab/cachelab-handout/csim.c:116-120 | tag and set are quotient and remainder of the block number by 2^s |
| CacheTrace.ExpandMeans | 4_CacheLab/cachelab-handout/csim.c:97-114 | a trace makes one access per data line and one more per modify, each to its own line's address, in the order of the lines |
| CacheTrace.CountsAddUp | 4_CacheLab/cachelab-handout/csim.c:75-79 | the same two sums for the printed counters over all sets and whole traces |
| CacheTrace.MissesMonotone | 4_CacheLab/cachelab-handout/csim.c:75-79 | over whole traces, misses never increase and hits never decrease with E |
| CacheTrace.HitStaysHit | 4_CacheLab/cachelab-handout/csim.c:122-149 | every hit with E lines is a hit with more |
| CacheTrace.HitExactly | 4_CacheLab/cachelab-handout/csim.c:122-149 | which accesses of a trace hit, per set, by counting the blocks used in between |
| CacheTrace.ModifyHits | 4_CacheLab/cachelab-handout/csim.c:109-110 | the second access of a modify always hits |
| Csim.CacheSet.AddTail | 4_CacheLab/cachelab-handout/csim.c:175-193 | the linked queue gains one line at its end and keeps the others |
| Csim.CacheSet.RmvHead | 4_CacheLab/cachelab-handout/csim.c:195-203 | the queue loses its oldest line |
| Csim.CacheSet.MoveNodeToTail | 4_CacheLab/cachelab-handout/csim.c:205-226 | the line behind `prev` becomes the last, the rest keep their order, wherever it stood |
| Csim.CacheSet.Miss | 4_CacheLab/cachelab-handout/csim.c:129-140 | a missing tag becomes the newest line, and the oldest goes iff the set was full |
| Csim.CacheSet.SearchCache | 4_CacheLab/cachelab-handout/csim.c:122-149 | the pointers make one LRU step; a hit is reported iff the tag was there, an eviction iff a full set misses |
| Csim.Cache.Search | 4_CacheLab/cachelab-handout/csim.c:108-110 | a search in one set leaves every other set as it is |
| Csim.Cache.Access | 4_CacheLab/cachelab-handout/csim.c:122-173 | one access keeps every set and all three counters in step with the trace |
| Csim.Cache.ExecuteLine | 4_CacheLab/cachelab-handout/csim.c:97-114 | a data line makes one access, a modify two, any other line none, all to the address of the line |
| Csim.Cache.Simulate | 4_CacheLab/cachelab-handout/csim.c:67-82 | the summary printed at the end is the LRU hit, miss and eviction count of the trace; hits and misses sum to the data lines plus the modifies, evictions and resident lines to the misses |
| Trans.MoveBlock | 4_CacheLab/cachelab-handout/trans.c:121-126 | a block of A lands transposed at a chosen place of B and nothing else changes |
| Trans.SwapColumns | 4_CacheLab/cachelab-handout/trans.c:127-132 | two column ranges are exchanged, also when they are the same |
| Trans.DiagonalHalf | 4_CacheLab/cachelab-handout/trans.c:223-242 | half a diagonal block is in place after the detour through scratch space, and only it and the scratch block have changed |
| Trans.Diagonals | 4_CacheLab/cachelab-handout/trans.c:222-243 | every diagonal block is right although the last one serves as scratch space for all others |
| Trans.OffDiagonal | 4_CacheLab/cachelab-handout/trans.c:244-252 | eight rows of A are in place, diagonal included, and nothing outside their columns of B has changed |
| Trans.Block8x4Opt | 4_CacheLab/cachelab-handout/trans.c:219-253 | an exact transpose from any initial B, for every square matrix of side a multiple of 8 and at least 16 |
| Trans.CrossStrip | 4_CacheLab/cachelab-handout/trans.c:120-133 | two 8-row strips of A, or one with itself, are in place after crossing and swapping, and nothing outside their columns of B has changed |
| Trans.OpFor64 | 4_CacheLab/cachelab-handout/trans.c:116-134 | an exact transpose for N a multiple of 16 and M a multiple of 4 |
| Trans.OpFor64Mirror | 4_CacheLab/cachelab-handout/trans.c:141-161 | an exact transpose for N a multiple of 8, also when the middle block is its own mirror image, and M a multiple of 4 |
| Trans.BlockRows | 4_CacheLab/cachelab-handout/trans.c:63-90 | block8 and block8_for64 give an exact transpose for all M and N |
| Rounding.RoundEvenNearest | 1_DataLab/datalab-handout/bits.c:399-406 | no multiple of q is nearer than the rounded one, and another as near forces ours to be even (section 4.3.1 of IEEE 754-2008), for all naturals |
| Rounding.GuardRoundSticky | 1_DataLab/datalab-handout/bits.c:401-404 | the low-bit, round-bit and sticky-bit test decides exactly as rounding to nearest even, for all naturals |
| Floats.PackNearest | 1_DataLab/datalab-handout/bits.c:405-412 | packing the rounded significand, carry into the exponent included, gives the nearest binary32 number, ties to even, among all finite encodings |
| Floats.RoundingUpTie | 1_DataLab/datalab-handout/bits.c:403-404 | on a 25-bit tie with an even lower neighbour, rounding up is not nearest-even |
| Floats.TieExample | 1_DataLab/datalab-handout/bits.c:403-404 | 2^24 + 1 is such an input |
| Floats.CountBits | 1_DataLab/datalab-handout/bits.c:393-396 | the loop finds the bit length |
| Floats.RoundInt | 1_DataLab/datalab-handout/bits.c:399-409 | the shifts on a wrapped 32-bit int find the rounded significand, INT_MIN included, save on those ties |
| Floats.FloatI2f | 1_DataLab/datalab-handout/bits.c:386-413 | for every int the result is the nearest binary32 number, ties to even, iff the input is not such a tie or the shift by 32 yields 0 |
| Floats.FloatF2i | 1_DataLab/datalab-handout/bits.c:426-447 | every encoding is truncated toward zero, and out of range, infinity and NaN give 0x80000000 |
| Floats.RoundTrip | 1_DataLab/datalab-handout/bits.c:386-447 | converting to float and back gives x iff x has at most 24 significant bits, whatever the shift by 32 yields |
| Floats.FloatTwice | 1_DataLab/datalab-handout/bits.c:363-376 | the value doubles exactly, subnormals included, overflow gives infinity of the same sign, NaN and infinity come back |
| Floats.HowManyBits | 1_DataLab/datalab-handout/bits.c:313-350 | the result is enough bits of two's complement for x and one fewer is not |
| Rio.Descriptor.Read | 7_ProxyLab/proxylab-handout/csapp.c:799-803 | one call of read(): interrupted, failed, or any nonempty part of what is left |
| Rio.Reader.constructor | 7_ProxyLab/proxylab-handout/csapp.c:826-831 | a fresh reader owes its callers the whole input |
| Rio.Reader.Refill | 7_ProxyLab/proxylab-handout/csapp.c:798-809 | ends however often it is interrupted, loses nothing, and reports the end only at the end |
| Rio.Reader.Read | 7_ProxyLab/proxylab-handout/csapp.c:794-819 | hands out a nonempty prefix of what is owed and owes the rest; less than asked for only if that empties the buffer, and without a system call if anything was buffered |
| Rio.Reader.ReadN | 7_ProxyLab/proxylab-handout/csapp.c:838-853 | delivers exactly the next min(n, remaining) bytes, in number and contents; -1 only after a failure that was not a signal |
| Rio.LineOf | 7_ProxyLab/proxylab-handout/csapp.c:865-879 | a line is a prefix with no newline before its end that stops at the bound, the end of input or a newline |
| Rio.LineEnds | 7_ProxyLab/proxylab-handout/csapp.c:865-879 | and those conditions determine it |
| Rio.Reader.ReadLine | 7_ProxyLab/proxylab-handout/csapp.c:860-882 | delivers exactly the next line, at most maxlen - 1 bytes of it, and a terminating 0, or at the end of input returns 0 and stores nothing; no byte behind the room given changes iff maxlen is positive (with maxlen 0 the 0 is stored all the same) |
| Rio.Conserved | 7_ProxyLab/proxylab-handout/csapp.c:794-882 | for any mix of calls, what is delivered followed by what is left is the input |
| Rio.EnoughCalls | 7_ProxyLab/proxylab-handout/csapp.c:838-882 | as many calls as bytes, each with room for one, deliver everything |
| Rio.ServeAnswers | 7_ProxyLab/proxylab-handout/csapp.c:838-882 | the reference answers spelled out: each call gets the next min(n, remaining) bytes, or a line of at most maxlen - 1, from where the calls before it have stopped |
| Rio.Session | 7_ProxyLab/proxylab-handout/csapp.c:794-882 | for any input, any short reads and interrupts, and any calls, the answers are a function of input and calls alone, each is the next bytes or the next line from where the ones before it stopped, and delivered + buffered + unread is the input |
| Harness.Heap.Malloc | 0_CProgrammingLab/cprogramminglab-handout/harness.c:112-139 | fails exactly when told to; otherwise the doubly linked list gains a new first block |
| Harness.Heap.FindHeader | 0_CProgrammingLab/cprogramminglab-handout/harness.c:81-89 | the cautious search finds a block iff it is live |
| Harness.Heap.Unlink | 0_CProgrammingLab/cprogramminglab-handout/harness.c:161-168 | the doubly linked list loses exactly one block, wherever it stood |
| Harness.Heap.Free | 0_CProgrammingLab/cprogramminglab-handout/harness.c:141-172 | exactly that block stops being live, the order of the others is kept, and the count drops by one |
| Queue.New | 0_CProgrammingLab/cprogramminglab-handout/queue.c:25-34 | an empty queue, or NULL iff the allocation failed |
| Queue.InsertHead | 0_CProgrammingLab/cprogramminglab-handout/queue.c:58-76 | prepends iff both allocations succeed; otherwise nothing stays allocated and nothing changes |
| Queue.InsertTail | 0_CProgrammingLab/cprogramminglab-handout/queue.c:85-105 | appends under the same condition, with the tail pointer kept right |
| Queue.RemoveHead | 0_CProgrammingLab/cprogramminglab-handout/queue.c:115-133 | removes and frees the first element and its string, copies as much of the string as fits and a 0 and leaves the rest of the buffer, and fails iff there is none |
| Queue.CopyText | 0_CProgrammingLab/cprogramminglab-handout/queue.c:120-125 | the copying loop fills the buffer with what fits and a 0, nothing behind it changes |
| Queue.FilledCopies | 0_CProgrammingLab/cprogramminglab-handout/queue.c:120-125 | what that is, place by place: the text as far as it fits, a 0 behind it, the old contents behind that |
| Queue.Size | 0_CProgrammingLab/cprogramminglab-handout/queue.c:139-144 | the stored size is the length |
| Queue.Turn | 0_CProgrammingLab/cprogramminglab-handout/queue.c:157-161 | the loop turns every link around in place |
| Queue.Reverse | 0_CProgrammingLab/cprogramminglab-handout/queue.c:153-165 | the same elements and strings in opposite order, place by place, with nothing allocated or freed |
| Queue.Free | 0_CProgrammingLab/cprogramminglab-handout/queue.c:37-49 | frees every block of the queue and no other; the live count falls by 1 + 2 * size |
| Queue.LiveCount | 0_CProgrammingLab/cprogramminglab-handout/harness.c:177-179 | the live count is the number of foreign blocks plus 1 + 2 * size |
| Queue.Session | 0_CProgrammingLab/cprogramminglab-handout/queue.c:25-165 | under any operations and any pattern of failing allocations the queue answers as a sequence of strings does, removed strings included as far as the caller's buffer takes them; 1 + 2 * size blocks are live after each operation, and none after q_free |
| Queue.DrainShows | 0_CProgrammingLab/cprogramminglab-handout/queue.c:115-133 | those answers determine the contents: removals with large enough buffers show every string, in order, each with its terminating 0 |
| Queue.TurnedShows | 0_CProgrammingLab/cprogramminglab-handout/queue.c:153-165 | after a reversal, removals show the strings from the last to the first |
| Fcyc.SortSorts | 6_MallocLab/malloclab-handout/fcyc.c:67-88 | the reference sorts and permutes |
| Fcyc.SmallestMeans | 6_MallocLab/malloclab-handout/fcyc.c:67-88 | its prefix is sorted, no dropped sample is smaller than a kept one, and kept and dropped together are all samples |
| Fcyc.SmallestStep | 6_MallocLab/malloclab-handout/fcyc.c:70-79 | how the k smallest change with one more sample, in the three cases of the code |
| Fcyc.Sampler.Sink | 6_MallocLab/malloclab-handout/fcyc.c:81-87 | the swapping loop inserts in place and touches nothing above |
| Fcyc.Sampler.AddSample | 6_MallocLab/malloclab-handout/fcyc.c:67-88 | after any stream of samples the buffer is exactly the sorted smallest min(kbest, count) of them |
| Fcyc.ConvergedMeans | 6_MallocLab/malloclab-handout/fcyc.c:93-98 | the test on the samples themselves: kbest of them, no larger than any other, of which the largest is at most 1 + epsilon times the smallest |
| Fcyc.Sampler.HasConverged | 6_MallocLab/malloclab-handout/fcyc.c:93-98 | true iff kbest samples exist and the kbest smallest of all agree within epsilon |
| Fcyc.Measure | 6_MallocLab/malloclab-handout/fcyc.c:123-167 | stops at the first count that converges or reaches the limit, and returns the minimum of all samples taken |
| Jobs.StepKeeps | 5_ShellLab/shlab-handout/tsh.c:28-36 | every event keeps the table sound and changes each slot only in the ways that event allows: FG, BG and ST as the header lists plus stops, cleared only when its process ended, filled only by a launch |
| Jobs.OneForeground | 5_ShellLab/shlab-handout/tsh.c:35-35 | in every run at most one job is FG, none while commands are read, and ctrl-c and ctrl-z reach the process waited for or nobody |
| Jobs.WaitEnds | 5_ShellLab/shlab-handout/tsh.c:368-393 | the shell returns to its prompt only after the process it waits for stopped or ended |
| Jobs.BackToPrompt | 5_ShellLab/shlab-handout/tsh.c:384-391 | a handler run that finds the shell in sigsuspend brings it back to its prompt iff it delivers a report on the job waited for; a run between the last test and sigsuspend, possible after fg only, leaves it asleep on the same condition |
| Jobs.StuckUntilSignal | 5_ShellLab/shlab-handout/tsh.c:384-391 | a shell asleep for a job that left the foreground takes nothing but signals, and the next one brings it back |
| Jobs.LaunchNeverStuck | 5_ShellLab/shlab-handout/tsh.c:188-223 | in no run does that happen to a wait begun by a launch, which holds SIGCHLD back until sigsuspend |
| Jobs.FgStuck | 5_ShellLab/shlab-handout/tsh.c:583-606 | a run from the start of the shell in which it happens to fg |
| Jobs.CommandsWork | 5_ShellLab/shlab-handout/tsh.c:305-363 | a launch is tracked iff a slot was free, fg brings a tracked job to the foreground and waits for it, bg sets it running; no other job changes, and nothing does for an unknown job |
| Jobs.LaunchWorks | 5_ShellLab/shlab-handout/tsh.c:643-666 | a launched process gets the first empty slot and the next number, which moves on by one or wraps from 16 to 1 |
| Jobs.LookupMeans | 5_ShellLab/shlab-handout/tsh.c:697-718 | a pid or %n finds the first slot with that process or job number iff the number is positive and there is one |
| Jobs.NextNumber | 5_ShellLab/shlab-handout/tsh.c:431-436 | after a run of the handler the next number is one more than the largest in the table if it delivers the end of some process, and unchanged otherwise |
| Jobs.ReapsAll | 5_ShellLab/shlab-handout/tsh.c:416-440 | with one report per child, one run of the handler leaves nothing with the kernel iff it knows every child but possibly the last, and brings every report to the table iff it knows that one, too |
| Jobs.StopsBehind | 5_ShellLab/shlab-handout/tsh.c:416-423 | it stops exactly behind the first child it does not know, which it has reaped |
| Jobs.UntrackedLaunch | 5_ShellLab/shlab-handout/tsh.c:212-220 | a process launched into a full table is not tracked, and when it is reported every report behind it is left with the kernel |
| Jobs.ReportLeft | 5_ShellLab/shlab-handout/tsh.c:416-423 | a run from the start of the shell in which that happens to a tracked job |
| Jobs.Delivered | 5_ShellLab/shlab-handout/tsh.c:416-440 | every child reached ends up stopped in, or gone from, the table as reported |
| Jobs.LateUpdate | 5_ShellLab/shlab-handout/tsh.c:346-357 | however the handler runs inside fg or bg, the table stays sound iff it does not deliver the end of that very process between the test of its state and the store; before the test every report is harmless |
| Jobs.NotInterrupted | 5_ShellLab/shlab-handout/tsh.c:336-361 | with no handler run inside them, fg and bg in those steps do what they do as single events |
| Jobs.StrayForeground | 5_ShellLab/shlab-handout/tsh.c:687-694 | with a stray FG entry in a lower slot the keyboard reaches nobody |
| Jobs.KeyboardLost | 5_ShellLab/shlab-handout/tsh.c:590-605 | a run from the start of the shell in which that race leaves a job in the foreground that ctrl-c does not reach |
| Jobs.NumbersDistinct | 5_ShellLab/shlab-handout/tsh.c:643-658 | job numbers are distinct throughout a run iff each of its launches finds no free slot or a nextjid that no live job has |
| Jobs.DistinctStep | 5_ShellLab/shlab-handout/tsh.c:643-666 | one event keeps them distinct iff it is no launch or such a launch |
| Jobs.UnusedBeforeWrap | 5_ShellLab/shlab-handout/tsh.c:654-656 | until a launch wraps nextjid, every launch is such a launch |
| Jobs.NumberReused | 5_ShellLab/shlab-handout/tsh.c:654-656 | a run from the start of the shell, fifteen launches, one end and two more launches, after which two live jobs have the number 1 |
| Jobs.JobList.MaxJidOf | 5_ShellLab/shlab-handout/tsh.c:632-640 | the largest number in the table |
| Jobs.JobList.AddJob | 5_ShellLab/shlab-handout/tsh.c:643-666 | fills the first empty slot and advances nextjid, or returns 0 iff the pid is bad or no slot is free |
| Jobs.JobList.GetJob | 5_ShellLab/shlab-handout/tsh.c:697-718 | the first slot with that pid or number, or NULL iff there is none |
| Jobs.JobList.FgPidOf | 5_ShellLab/shlab-handout/tsh.c:687-694 | the process in the foreground |
| Jobs.JobList.SigchldHandler | 5_ShellLab/shlab-handout/tsh.c:404-443 | the handler's loop performs the Sigchld event leaves unasked exactly what follows the first unknown child, and sets the next number as NextNumber says |
| Jobs.JobList.Foreground | 5_ShellLab/shlab-handout/tsh.c:583-606 | fg performs the ToFront event |
| Jobs.JobList.Background | 5_ShellLab/shlab-handout/tsh.c:336-361 | bg performs the ToBack event |

## Left out

- Mm.Allocator.Malloc: asks that a trailing free block, if the heap has to grow, is larger than 8 bytes, since the search finds no node otherwise (`TrailingSearchEnds`), that the sum in mem_sbrk does not wrap, since the stores leave the heap otherwise (`Sbrk`, `NeverWraps`), and that size + 11 < 2^32, since the block size wraps otherwise (`AlignRequestFits`).
- Mm.Allocator.Realloc: asks for the same, and for a new block, when one is needed, to be found (the code passes the result of mm_malloc to memcpy unseen).
- Mm.Allocator.CopyWords: payload bytes are modelled in words, so memcpy moves words.
- Mm.Allocator.Sbrk: address sums are taken to wrap at 2^32 (ISO C leaves a pointer sum outside the object undefined); MAX_HEAP is any multiple of 4 below 2^31; errno and the message are not modelled.
- Mm.Allocator.constructor: the simulated memory starts at a multiple of 8 and ends below 2^32 - 1, and mm_init finds room for its 8 bytes.
- MmLimits.TrailingSearchEnds: takes the heap to start at an address above its own size, so that no size can be mistaken for an address.
- Floats.FloatI2f: a left shift of a negative int is taken to drop the high bits, a right shift to be arithmetic (section 6.5.7 of ISO/IEC 9899:2011 leaves both open) and the negation of INT_MIN, ~x + 1 in line 391, to wrap (signed overflow, section 6.5); the shift by 32 is a parameter.
- Floats.HowManyBits: the masks and selections are written as quotients and branches.
- Trans.Block8x4Opt: each inner loop nest that moves one block is a method of its own; aliasing of A and B is excluded.
- Csim.CacheSet.SearchCache: malloc does not fail and E is at least 1 (the program refuses E == 0); v == 0 lines, which the code also handles, are proved not to occur.
- Rio.Reader.ReadLine: the buffer has at least one byte even if maxlen is 0, since the code writes one.
- Rio.Reader.Read: n > 0, as both of its callers ensure; errno is reduced to whether it is EINTR.
- Queue.RemoveHead: a buffer, if given, has room for at least the terminating 0 (with bufsize 0 the C loop counter wraps); strings contain no 0.
- Harness.Heap.Free: the argument is a live block; the error reports for other pointers, the footer word, cautious mode off, noallocate mode and the setjmp code are left out; the marks of a freed block are written after the unlinking, not before it.
- Fcyc.Sampler.AddSample: kbest is at least 1 and doubles are reals.
- Jobs.StepKeeps: lookup, test, store and the first test of waitfg are one event in fg, and likewise in bg; `LateUpdate` says exactly what runs of the handler in between do; fork, exec, kill, printing and the blocking of other signals are left out, child reports are an input, and command lines are not kept in the table.
- Sbuf.FirstInFirstOut: front and rear are unbounded integers and the semaphores are plain counters; n is at least 1.
- MmClient.RunHonours: a run interleaves complete calls; mm.c is not reentrant.
- debugging printers, option parsing and trace-file parsing in mm.c and csim.c.
- transpose_submit (empty), opfor64_f (its comment says it does not work), avoid_eviction, block8_simple and block8x4_ref in trans.c, and all claims about cache misses.
- the one-line puzzles of bits.c, which bit-vector reasoning settles at once.
- the rest of csapp.c, the proxy and echo servers, the bomb and attack labs, and the deliberately racy demos.
