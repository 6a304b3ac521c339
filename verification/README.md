# Verified models of the four architecture labs

Dafny models of the simulators inside the Pin tools `Lab1` to `Lab4`, with proofs of what they
are for. Each tool is driven by an arbitrary trace: of addresses, of loads and stores, of
branches, or of instructions and thread events. The parts that the C++ updates in place are
classes over arrays with the same fields and loops; each class carries a ghost value, its methods
say exactly how that value changes, and the laws of whole runs are lemmas about the values.

**Virtual memory and TLB (Lab 4).** `Tlb` holds the set-associative TLB, `Frames` the pages and
the allocator, `Walker` the page-table walk with its evictor. On values, a TLB is a list of lines
per set, most recently used first, and the page table (`PageTable`) is a root row of level-2
tables with the never-used and the spare frames and the two eviction cursors. `FrameLaws` shows
that the pool stays split among five roles (root, level-2 table, data, never used, spare),
`WalkLaws` what one walk does, `Backing` how the table lies in the words of frames, `Boot` that
the start state is a good one, and `Translation` the laws of whole runs: TLB coherence and
transparency, progress, more ways never cost hits, no two pages share a frame. `TlbLaws` says which
pages are cached after a run, by reuse distance since the last flush, and so how many accesses hit. `Interleaving`
lets several threads interleave their lookup, walk and fill sections.

**Caches (Lab 3).** `Recency` is the theory of bounded most-recently-used lists (inclusion, reuse
distance, compulsory misses); `LruWays` shows that time stamps implement them, for the caches and
for the TLB alike. `Caches` and `CacheTool` are the simulator, `CacheLaws` its laws, `PageHash`
the page map and what follows from it, `SchemeLaws` compares virtual with physical tags, `SchemePairs`
any two of the three models.

**Branch predictor (Lab 2).** `Predictor` packs four two-bit counters into a byte and refines
plain tables; `PredictorLaws` has convergence and mistake bounds. `PredictorReference` says what every
counter, prediction and total is in terms of the outcomes alone.

**Register dependencies (Lab 1).** `RegDeps` shows that the streaming histogram is a count of
(instruction, register) pairs, and that merging at thread exit gives the per-thread sum.

`Bits` has the powers of two, shifts and masks that the address arithmetic uses.

## What turned out

- A walk succeeds exactly when the pool has at least three frames (`WalkLaws.WalkKeeps`), so every
  translation of a run succeeds exactly when the log pool size is at least 2.
- The two table indices identify a page of the 32-bit address space exactly when the log page size
  is at least 12 (`Translation.IndicesIdentifyFrom12`): with smaller pages the mask drops the top
  page bits and two pages always share their translation.
- The physically tagged cache models count alike for every page map and all operations exactly when
  there is one row or the index lies in the page offset, or in the corner where no word has an index
  bit at all (`CacheLaws.CountAlikeExactly`). The default knobs (5 block bits, 10 row bits, 12 page
  bits) do not meet this, and with the tool's own page map two loads from pages 97 and 542 tell the models
  apart (`PageHash.DefaultsDiffer`).
- The tool's page map loses the sign bit and merges pages, 125499 and 183277 for one
  (`PageHash.MixIsNotNegative`, `PageHash.PagesMerge`).
- Under one given page map and at given addresses, any two of the three models count alike exactly
  when they have the same lines and, for every word, the same words in its row, unless both rows have
  room for all their lines (`SchemePairs.PairAlikeExactly`). For the two virtually indexed models this
  says that within each row the two tags correspond one to one (`SchemeLaws.VirtualAlikeExactly`).
- Frame addresses are different and not 0 in 32 bits exactly when the log sizes of page and pool add up
  to at most 31 (`Boot.AddressesFitExactly`); the tool's start requires that.
- TLB coherence is an invariant while translations are atomic. With several threads it is not:
  `Interleaving.StaleFill` is a run that caches a frame which is a level-2 table by then. A run
  keeps the TLB coherent throughout exactly when at every fill the walk failed or the page table
  still maps the page to the frame (`Interleaving.RunCoherentExactly`). The page-table and frame
  invariants survive all interleavings.
- After any branches, one that goes one way again and again is predicted right from the sixteenth
  prediction on (`PredictorLaws.Converges`, `PredictorLaws.StreakCost`); the fifteenth can still be
  wrong, five branches after the start (`PredictorLaws.FifteenthCanBeWrong`).

Where code and text disagree the code is followed: the Lab 4 knob described as "the size of the
frame pool" is its logarithm (`Lab4/address_translation.cpp:30-31`,
`Lab4/address_translation.cpp:216`); the Lab 3 knob described as the logarithm of the memory size in
bytes is that of the number of frames (`Lab3/caches.cpp:346-348`, `Lab3/caches.cpp:23`); comments
naming the associativity (`Lab3/caches.cpp:133`, four ways) do not bind the knob, whose default is
two.

## Model

| member | source | states |
|---|---|---|
| `Translation.Transparent` | Lab4/address_translation.cpp:381-387 | on every trace the machine with the TLB returns the translations, and ends with the page table, frame stacks and cursors, of the machine that walks every time |
| `Translation.StepIsWalk` | Lab4/address_translation.cpp:381-387 | one translation keeps coherence and the frame split, does to the page table exactly what a walk does, returns its frame, counts one hit or miss and one flush per evicted page |
| `Translation.RunKeepsGood` | Lab4/address_translation.cpp:266-387 | after every trace each cached frame is the one the page table gives for the page of its set and tag, and the frames are split among their roles |
| `Translation.FlushesExact` | Lab4/address_translation.cpp:314-316 | the flush count of every run is exactly the number of its evictions, as the page table alone determines them |
| `Translation.HitAgrees` | Lab4/address_translation.cpp:79-96 | in a coherent state a lookup is non-zero exactly on a hit, and a hit returns the page table's frame |
| `Translation.WalkAgrees` | Lab4/address_translation.cpp:266-379 | a walk from a coherent state, with a flush for each page it evicts, leaves a coherent state |
| `Translation.InitialGood` | Lab4/address_translation.cpp:407-414 | the tool starts coherent and with its frames split among the roles, for all sizes from log page size 2 and associativity 1 on |
| `Translation.Progress` | Lab4/address_translation.cpp:266-387 | from any good state every translation of every run is non-zero if and only if the pool has at least three frames |
| `Translation.ProgressFromStart` | Lab4/address_translation.cpp:407-414 | every translation of every run of the tool is non-zero if and only if the log pool size is at least 2 |
| `Translation.RunNarrower` | Lab4/address_translation.cpp:79-153 | on every trace the lines of the TLB with fewer ways are the most recent lines of the one with more ways; flush counts agree and hits do not drop |
| `Translation.StepNarrower` | Lab4/address_translation.cpp:381-387 | one translation keeps that relation, through hits, walks and flushes |
| `Translation.MoreWaysMoreHits` | Lab4/address_translation.cpp:55-74 | from the start, with the same number of sets, more ways never give fewer hits, and flush counts are equal |
| `TlbLaws.CachedExactly` | Lab4/address_translation.cpp:79-153 | after every trace from the start, a page is cached if and only if it was translated since the last flush and fewer distinct other pages of its set than there are ways were translated since then |
| `TlbLaws.HitsExactly` | Lab4/address_translation.cpp:79-96 | over every trace from the start, `hits` is the number of accesses whose page was translated since the last flush with fewer distinct other pages of its set than there are ways since, and `misses` is the number of the others |
| `TlbLaws.StepCounts` | Lab4/address_translation.cpp:79-96 | a translation counts one hit when the page was cached, else one miss |
| `TlbLaws.RunTracks` | Lab4/address_translation.cpp:79-153 | over whole runs each set is the bounded most-recently-used list of its pages since the last flush, and the flushes are those of the machine that always walks |
| `TlbLaws.StepTracks` | Lab4/address_translation.cpp:381-387 | one translation keeps that, through hits, evictions, flushes and failed walks |
| `Translation.IndicesIdentifyFrom12` | Lab4/address_translation.cpp:274-287 | no two pages of the 32-bit address space share both table indices if and only if the log page size is at least 12 |
| `Translation.TranslationInjective` | Lab4/address_translation.cpp:344-375 | in every good state two pages with the same frame have the same indices, and are the same page from log page size 12 on |
| `WalkLaws.WalkKeeps` | Lab4/address_translation.cpp:266-379 | between walks the pool is split among root, never-used, spare, level-2 and data frames, spare frames wait only when no never-used one is left, at most one frame is spare and, with three frames or more, every level-2 table maps a page; a walk succeeds if and only if the pool has three frames |
| `WalkLaws.WalkEffect` | Lab4/address_translation.cpp:289-378 | in a pool of any size: the mapping after a walk that succeeds is the old one less the evicted pages plus the requested page, and after one that returns 0 the old one; evicted pages were mapped, are at most two, distinct, not the requested one, and as many only as the waiting frames do not suffice; the table in use stays linked where it was |
| `WalkLaws.WalkEvictions` | Lab4/address_translation.cpp:289-375 | how many pages a walk evicts, exactly: none when it fails or the waiting frames suffice; one when two are short and the victim is alone in its table, whose frame is reclaimed too; else as many as are short |
| `WalkLaws.WaitingAfterTable` | Lab4/address_translation.cpp:346-360 | frames left waiting, and pages evicted, once a row got its level-2 table |
| `WalkLaws.WalkHalves` | Lab4/address_translation.cpp:344-378 | a walk is the level-2 half followed by the data half, with the frame split intact in between |
| `WalkLaws.WalkOfMapped` | Lab4/address_translation.cpp:344-378 | walking a mapped page changes nothing and returns its frame |
| `WalkLaws.EvictOneShrinks` | Lab4/address_translation.cpp:302-342 | once no never-used frame is left, an eviction keeps the frame split, maps exactly one page less, and from an empty spare stack leaves one or two spare frames |
| `WalkLaws.ReusedFrame` | Lab4/address_translation.cpp:289-330 | the frame handed out after an eviction is the victim's, or that of its level-2 table when the victim was alone in it and the table is not in use; the victim's then stays spare |
| `WalkLaws.FreshFrames` | Lab4/address_translation.cpp:346-375 | never-used frames go out last pushed first: to the level-2 table, then to the page |
| `PageTable.RowSearchComplete` | Lab4/address_translation.cpp:303-307 | the row search finds a row exactly when some page is mapped, and the first one in cyclic order from the cursor |
| `PageTable.SlotSearchComplete` | Lab4/address_translation.cpp:309-313 | the column search finds a slot exactly when one is in use, and the first one in cyclic order |
| `PageTable.VictimIsFirst` | Lab4/address_translation.cpp:303-313 | no mapped slot comes before the victim, rows from the row cursor and columns from the column cursor in that row, from 0 in the others |
| `PageTable.VictimFromCursor` | Lab4/address_translation.cpp:303-313 | when the row of the row cursor maps a page the victim is in that row, and no mapped slot lies cyclically between the column cursor and the victim |
| `PageTable.VictimElsewhere` | Lab4/address_translation.cpp:303-313 | when that row maps none the victim is in another row, and no slot of that row with a smaller column is mapped |
| `PageTable.NextVictim` | Lab4/address_translation.cpp:303-336 | after the page in column `c` was evicted, the next victim is the page in column `c + 1` of the same row if one is mapped there, whatever else was mapped in between |
| `PageTable.NextRow` | Lab4/address_translation.cpp:303-336 | and after the last column, a page of the next row, the first row after the last, if one is mapped there |
| `PageTable.EvictInSteps` | Lab4/address_translation.cpp:314-336 | the eviction is: the page goes, then its level-2 table if that is empty and not in use, then the cursors move |
| `PageTable.CursorsAdvance` | Lab4/address_translation.cpp:333-336 | counting slots row by row, the cursors end up at the slot right behind the victim, cyclically over the whole table |
| `FrameLaws.EvictKeeps` | Lab4/address_translation.cpp:314-336 | once no never-used frame is left, evicting any mapped page keeps the frame split and lowers the number of data frames by one |
| `FrameLaws.GetFrameKeeps` | Lab4/address_translation.cpp:289-299 | a frame handed out leaves the pool and the rest stays split; none is handed out exactly when both stacks are empty |
| `FrameLaws.LinkKeeps` | Lab4/address_translation.cpp:355-359 | linking a held frame as a level-2 table gives it back to the split |
| `FrameLaws.StoreKeeps` | Lab4/address_translation.cpp:374 | storing a held frame in an unused slot gives it back to the split |
| `FrameLaws.ObtainKeeps` | Lab4/address_translation.cpp:347-354 | an allocation takes one frame and keeps the rest split, or finds both stacks empty and nothing mapped; it evicts at most one page, the victim, and only from empty stacks |
| `FrameLaws.EvictedFrame` | Lab4/address_translation.cpp:366-373 | after an eviction there is a frame to hand out, so each allocation loop evicts at most once |
| `FrameLaws.PagesApart` | Lab4/address_translation.cpp:344-375 | two different slots never hold the same frame |
| `FrameLaws.DataApart` | Lab4/address_translation.cpp:344-375 | a data frame is in the pool, is not the root, not a level-2 table and on no stack |
| `FrameLaws.TablesApart` | Lab4/address_translation.cpp:344-360 | level-2 frames are in the pool, on no stack, not the root, and all different |
| `FrameLaws.RootApart` | Lab4/address_translation.cpp:414 | the root frame is in the pool and on no stack |
| `FrameLaws.InvReady` | Lab4/address_translation.cpp:347-375 | from a split pool an eviction yields a frame, and a frame handed out lies outside the table and the stack |
| `FrameLaws.NothingLeft` | Lab4/address_translation.cpp:347-354 | with empty stacks and nothing mapped the pool is the root alone, or the root and one idle table |
| `FrameLaws.MappedNeedsThree` | Lab4/address_translation.cpp:344-375 | a mapped page needs three frames: root, level-2 table, data |
| `Boot.StartSettled` | Lab4/address_translation.cpp:410-414 | after the root was taken the pool's frames are split among the roles |
| `Boot.PoolSize` | Lab4/address_translation.cpp:213-231 | the pool has `2^logPoolSize` different frames, none at address 0 |
| `Boot.IndicesAreDigits` | Lab4/address_translation.cpp:274-287 | the page number is the address divided by the page size, and the two indices are its last digits in base entries-per-table |
| `Boot.AddressesFitExactly` | Lab4/address_translation.cpp:220-230 | in variables of a given width frame addresses are different and not 0 if and only if the log sizes of page and pool add up to less than the width, 32 in the source |
| `Boot.StartPops` | Lab4/address_translation.cpp:414 | the root is the last frame pushed and the stack keeps the others |
| `Frames.AddressesRise` | Lab4/address_translation.cpp:213-231 | frame addresses are non-zero and strictly increasing |
| `Frames.Page.WordAt` | Lab4/address_translation.cpp:187-191 | returns the word; the asserts of the source, and that the word was written, are required of every caller |
| `Frames.Page.SetWordAt` | Lab4/address_translation.cpp:193-197 | writes that word and no other, under the asserts of the source |
| `Frames.PageAllocator.constructor` | Lab4/address_translation.cpp:213-231 | all frames wait on the stack in address order, each mapped to its own free page |
| `Frames.PageAllocator.RequestPage` | Lab4/address_translation.cpp:239-246 | pops the top frame, 0 from an empty stack; a page stays free exactly while it is on the stack |
| `Frames.PageAllocator.PageAtAddress` | Lab4/address_translation.cpp:249-253 | the page of a frame address, null for any other |
| `Backing.PokeSlot` | Lab4/address_translation.cpp:315 | writing a level-2 word changes that slot of the table and nothing else |
| `Backing.PokeUnlink` | Lab4/address_translation.cpp:328 | clearing a root word unlinks that level-2 table and nothing else |
| `Backing.PokeLink` | Lab4/address_translation.cpp:355-359 | writing a cleared frame's address into the root links an empty level-2 table |
| `Backing.FillElsewhere` | Lab4/address_translation.cpp:355-358 | clearing a frame outside the table leaves the table alone |
| `Walker.PageTableWalker.Simulate` | Lab4/address_translation.cpp:381-414 | the tool from its start over a whole trace of accesses: frames, page table, stacks, cursors, TLB contents and counters are those of the model's run, and on the way no assert fails, no page lookup is null and no unwritten word is read |
| `Walker.PageTableWalker.TranslateAll` | Lab4/address_translation.cpp:381-396 | the same from any state that keeps the run invariant |
| `Walker.PageTableWalker.Create` | Lab4/address_translation.cpp:407-414 | the tool's start is the start state of the model, coherent and split, in newly allocated objects that nothing else shares, for log page size at least 2 and log sizes of page and pool adding up to at most 31 |
| `Walker.PageTableWalker.TranslateAddress` | Lab4/address_translation.cpp:381-387 | one access is one step of the machine, in page table, stacks, cursors, TLB contents and counters, and keeps the run invariant |
| `Walker.PageTableWalker.PageTableWalk` | Lab4/address_translation.cpp:266-379 | the walk in place is the walk of the model, flushing the TLB once per evicted page; no assert fails, no page lookup is null, no unwritten word is read |
| `Walker.PageTableWalker.WalkAt` | Lab4/address_translation.cpp:344-378 | the walk at given indices |
| `Walker.PageTableWalker.FinishWalk` | Lab4/address_translation.cpp:362-378 | the data half adds its evictions and flushes to those of the first half |
| `Walker.PageTableWalker.FindTable` | Lab4/address_translation.cpp:344-360 | the level-2 table from the root word, or a new one |
| `Walker.PageTableWalker.FindPage` | Lab4/address_translation.cpp:362-375 | the data frame from the level-2 word, or a new one |
| `Walker.PageTableWalker.NewTable` | Lab4/address_translation.cpp:346-360 | on a fault a frame is obtained, cleared and linked; 0 when none can be found |
| `Walker.PageTableWalker.NewPage` | Lab4/address_translation.cpp:365-375 | on a fault a frame is obtained and stored in the slot; 0 when none can be found |
| `Walker.PageTableWalker.Allocate` | Lab4/address_translation.cpp:347-354 | the allocation loop ends and has the outcome of the model's allocation, which evicts at most once |
| `Walker.PageTableWalker.EvictUntilFrame` | Lab4/address_translation.cpp:348-354 | the loop, entered when no frame waits, ends with a frame or with nothing left to evict |
| `Walker.PageTableWalker.EvictAndGet` | Lab4/address_translation.cpp:349-353 | one round of the allocation loop |
| `Walker.PageTableWalker.EvictOne` | Lab4/address_translation.cpp:302-342 | returns false exactly when nothing is mapped, and then changes nothing; else evicts the model's victim and flushes the TLB once |
| `Walker.PageTableWalker.FindVictim` | Lab4/address_translation.cpp:303-313 | the nested loops find the first mapped slot in the order of the model |
| `Walker.PageTableWalker.ScanRow` | Lab4/address_translation.cpp:305-313 | one row: found exactly when it maps a page, at its first slot from the row's start column |
| `Walker.PageTableWalker.ScanTable` | Lab4/address_translation.cpp:310-313 | the column loop finds the first word in use, cyclically |
| `Walker.PageTableWalker.EvictSlot` | Lab4/address_translation.cpp:314-336 | the body of an eviction has the model's effect on table, spare stack, cursors and TLB |
| `Walker.PageTableWalker.UnmapPage` | Lab4/address_translation.cpp:314-316 | the slot is cleared, its frame is spare, the TLB is flushed |
| `Walker.PageTableWalker.TakePage` | Lab4/address_translation.cpp:314-315 | the slot is cleared and its frame is spare |
| `Walker.PageTableWalker.Reclaim` | Lab4/address_translation.cpp:318-330 | a level-2 table goes exactly when it is empty and not the table in use |
| `Walker.PageTableWalker.IsEmpty` | Lab4/address_translation.cpp:319-325 | true exactly when all words of the table are 0 |
| `Walker.PageTableWalker.TakeTable` | Lab4/address_translation.cpp:326-329 | the root word is cleared and the table's frame is spare |
| `Walker.PageTableWalker.SetCursors` | Lab4/address_translation.cpp:333-336 | the next search starts behind the victim; the row advances only past the last column |
| `Walker.PageTableWalker.GetFrame` | Lab4/address_translation.cpp:289-299 | a never-used frame first, else the top spare one, else 0 |
| `Walker.PageTableWalker.InitializeRoot` | Lab4/address_translation.cpp:279-283 | the first walk clears the root frame, later ones leave it; the table does not change |
| `Walker.PageTableWalker.Link` | Lab4/address_translation.cpp:355-359 | a frame outside the table becomes an empty level-2 table of the row |
| `Walker.PageTableWalker.Store` | Lab4/address_translation.cpp:374 | a slot of a level-2 table is written, in the table and in its frame |
| `Walker.PageTableWalker.LookUp` | Lab4/address_translation.cpp:79-96 | the lookup section returns the cached frame and leaves the page table alone |
| `Walker.PageTableWalker.Fill` | Lab4/address_translation.cpp:98-140 | the fill section caches the translation and leaves the page table alone |
| `Tlb.LruTlb.constructor` | Lab4/address_translation.cpp:55-74 | an empty TLB with counters 0 |
| `Tlb.LruTlb.PhysicalPage` | Lab4/address_translation.cpp:79-96 | returns the frame of the line with the page's tag in its set and makes that line the most recent; else 0; counts a hit or a miss |
| `Tlb.LruTlb.CacheTranslation` | Lab4/address_translation.cpp:98-140 | the page's line becomes the most recent with the new frame, displacing the least recent line of a full set; translation 0 changes nothing |
| `Tlb.LruTlb.FindWay` | Lab4/address_translation.cpp:84-92 | the first valid way with the tag, or none |
| `Tlb.LruTlb.FindVictim` | Lab4/address_translation.cpp:116-135 | the first invalid way; else the first way with the least stamp |
| `Tlb.LruTlb.FlushNoLock` | Lab4/address_translation.cpp:146-153 | all sets are empty, one more flush is counted, hits and misses stay |
| `Tlb.FindIsIndex` | Lab4/address_translation.cpp:84-92 | a valid way with the tag exists exactly when the list of the set has it, at the position found |
| `Tlb.AssignStep` | Lab4/address_translation.cpp:107-138 | stamping the way that matches, is free or is oldest is one most-recently-used step of the set's list |
| `LruWays.PromoteOrders` | Lab3/caches.cpp:98-124 | stamping the chosen way keeps valid tags unique and stamps distinct and not in the future |
| `LruWays.PromoteGathers` | Lab3/caches.cpp:98-124 | hit, free way and oldest way are one and the same step of the recency list: move to front, or insert and drop the last of a full list |
| `LruWays.FullExactly` | Lab3/caches.cpp:108-120 | no way is invalid exactly when the recency list is as long as the set |
| `LruWays.HoldsTag` | Lab3/caches.cpp:99-103 | a valid way holds a tag exactly when the list has it, at the same place |
| `LruWays.StampedLists` | Lab3/caches.cpp:84-125 | in a store of many sets, stamping one way steps the list of its set and no other |
| `Recency.Inclusion` | Lab3/caches.cpp:84-125 | on every trace the list of a smaller capacity is the beginning of that of a larger one |
| `Recency.ReuseDistance` | Lab3/caches.cpp:84-125 | an item is in the list exactly when it was accessed and fewer than `capacity` distinct others were accessed since |
| `Recency.ColdMisses` | Lab3/caches.cpp:84-125 | at least one miss per distinct item, and exactly one when they all fit |
| `Recency.BeforeIsSince` | Lab3/caches.cpp:84-125 | what precedes an item in the unbounded list is exactly what was accessed since |
| `Recency.SinceIsSuffix` | Lab3/caches.cpp:84-125 | the accesses since an item's last access are the part of the trace after it |
| `Caches.LruCache.constructor` | Lab3/caches.cpp:40-57 | an empty cache: no way valid, stamps and counters 0 |
| `Caches.LruCache.FindWay` | Lab3/caches.cpp:87-120 | the first way holding the tag; else the last invalid way; else the first with the least stamp |
| `Caches.LruCache.Access` | Lab3/caches.cpp:84-125 | hit exactly when the set's list has the tag; the tag becomes the most recent, a full set drops the least recent; one request, and one hit if so, is counted; exactly one way is stamped |
| `Caches.LruCache.ReadReq` | Lab3/caches.cpp:142-151 | the access at the scheme's index and tag, as a read, for all three schemes |
| `Caches.LruCache.WriteReq` | Lab3/caches.cpp:153-162 | the same as a write |
| `Caches.LruCache.SetSound` | Lab3/caches.cpp:84-125 | in every state the methods keep, the valid tags of a set are its list, and no stamp exceeds the time stamp |
| `Caches.PickedSame` | Lab3/caches.cpp:98-120 | two sets that agree in valid bits, stamps and valid tags replace the same way |
| `Caches.TwinsStep` | Lab3/caches.cpp:98-124 | the same access keeps two caches equal in valid bits, stamps and valid tags |
| `CacheLaws.SetIsLru` | Lab3/caches.cpp:84-125 | after every trace each set is the bounded most-recently-used list of the tags it saw |
| `CacheLaws.HitExactly` | Lab3/caches.cpp:98-117 | an access hits exactly when its tag was accessed in the set before and fewer distinct other tags than there are ways since |
| `CacheLaws.MoreWays` | Lab3/caches.cpp:84-125 | with more ways each set holds what it held, in the same order, and neither read nor write hits drop, on any trace |
| `CacheLaws.CountersExact` | Lab3/caches.cpp:84-125 | the four counters account for every access: requests are the accesses, requests less hits are the misses of the sets |
| `CacheLaws.EachCounterExact` | Lab3/caches.cpp:84-125 | over every trace each of the four counters: read and write requests are the accesses of that kind, hits those whose tag was accessed in the set before with fewer distinct other tags than there are ways since |
| `CacheLaws.ColdMissSum` | Lab3/caches.cpp:84-125 | at least one miss per distinct block, and exactly one when no set sees more tags than it has ways |
| `CacheLaws.CompulsoryMisses` | Lab3/caches.cpp:84-125 | the same, in terms of the counters that the tool reports |
| `CacheLaws.OpsAreRefs` | Lab3/caches.cpp:324-339 | for each scheme a run of loads and stores is a run of its indices and tags, so the laws above apply to all three models |
| `CacheLaws.SameIndex` | Lab3/caches.cpp:225-234 | with one row, or the index in the page offset, physical and virtual index agree under every page map |
| `CacheLaws.ModelsAgree` | Lab3/caches.cpp:324-339 | then the two physically tagged models have the same lists and counters after all loads and stores |
| `CacheLaws.CountAlikeExactly` | Lab3/caches.cpp:142-247 | for every page size, the two models count alike for every page map and all operations if and only if there is one row, or the index lies in the page offset, or the index bits lie below word alignment and above all physical addresses |
| `CacheLaws.CountersDiffer` | Lab3/caches.cpp:142-247 | otherwise, with index bits above the word offset, two loads under the page map into frame 0 hit the physically indexed model and miss the virtually indexed one |
| `CacheLaws.CountersDifferSmall` | Lab3/caches.cpp:142-247 | and with pages and rows smaller than a word, two loads under a map into two frames miss the first and hit the second |
| `CacheLaws.NoBitsAgree` | Lab3/caches.cpp:142-247 | with no index bit in reach every word is in row 0 of both models, which then agree |
| `PageHash.DefaultsDiffer` | Lab3/caches.cpp:15-24 | at the default knobs and with the tool's own page map, loads from pages 97 and 542 hit the physically indexed model and miss the virtually indexed one, for any associativity |
| `PageHash.PagesCollide` | Lab3/caches.cpp:142-247 | at the default knobs, any two pages of the 32-bit address space in one frame whose first words differ in virtual row make the models part |
| `SchemeLaws.VirtualAlikeExactly` | Lab3/caches.cpp:225-320 | for any page map and any set of addresses, the virtually indexed models with physical and with virtual tags count alike on all loads and stores there if and only if within each row equal physical tags mean equal virtual tags and conversely |
| `SchemePairs.PairAlikeExactly` | Lab3/caches.cpp:142-320 | for any two of the three models, any page map and any addresses: they count alike on all loads and stores there if and only if they put the same words on one line and, for every word, the same words into its row, unless in both models its row has room for all its lines |
| `SchemePairs.RoomyHit` | Lab3/caches.cpp:98-117 | in a row with room for all its lines an access hits exactly when its line was accessed before |
| `SchemePairs.MissingMate` | Lab3/caches.cpp:84-125 | loads after which a word of a crowded row misses one model and hits the other, when a word beside it is elsewhere in the other |
| `SchemePairs.ExtraMate` | Lab3/caches.cpp:84-125 | and when the other has a word beside it that is elsewhere in the first |
| `SchemeLaws.OwnFramesAlike` | Lab3/caches.cpp:225-320 | in particular when the index lies in the page offset and no two visited pages share a frame |
| `SchemeLaws.RenamedAlike` | Lab3/caches.cpp:84-125 | two traces with the same rows and kinds of access whose tags repeat at the same places have the same read and write hits |
| `SchemeLaws.SameHit` | Lab3/caches.cpp:98-117 | recency lists of traces that repeat items at the same places hit alike |
| `CacheLaws.LineIsBlock` | Lab3/caches.cpp:148-149 | while the tag fits 32 bits, two addresses share row and tag exactly when they lie in the same block |
| `CacheLaws.SchemeBits` | Lab3/caches.cpp:142-320 | which address each of the three models takes its row and its tag from, the physical one being given by its page and offset |
| `CacheLaws.PhysicalParts` | Lab3/caches.cpp:142-146 | the physical address keeps the page offset and has the page's frame as its quotient |
| `CacheLaws.RowAndTag` | Lab3/caches.cpp:148-149 | row and tag as quotients and remainders of the address |
| `CacheLaws.NextRow` | Lab3/caches.cpp:148 | the next block lies in the next row, the first row after the last |
| `CacheLaws.AlignedIsWord` | Lab3/caches.cpp:324-339 | the aligned address is the multiple of 4 at or just below the address |
| `SchemeLaws.VirtualLineIsBlock` | Lab3/caches.cpp:310-320 | for addresses below `2^32` and any page map, two words share a line of the virtually tagged model exactly when they lie in one virtual block |
| `SchemeLaws.VirtualIgnoresMap` | Lab3/caches.cpp:310-320 | a run of the virtually tagged model is the same under any two page maps |
| `CacheTool.Tool.Simulate` | Lab3/caches.cpp:324-407 | the tool from its start over a whole trace of loads and stores: each model has the lists and counters of its run, and where the index lies in the page offset the two physically tagged ones are identical way by way |
| `CacheTool.Tool.PerformAll` | Lab3/caches.cpp:324-339 | the same for a tool already made |
| `CacheTool.Tool.constructor` | Lab3/caches.cpp:399-407 | three empty models over one geometry and page map, newly allocated, sharing no state, the physically tagged ones alike |
| `CacheTool.Tool.CacheLoad` | Lab3/caches.cpp:324-330 | each model reads the aligned word; where the index lies in the page offset the two physically tagged models stay identical way by way in valid bits, stamps, valid tags and counters |
| `CacheTool.Tool.CacheStore` | Lab3/caches.cpp:333-339 | each model writes the aligned word, with the same consequence |
| `PageHash.PhysicalPageNumber` | Lab3/caches.cpp:15-24 | the frame number is below `2^logPhysicalMemSize` |
| `PageHash.MixIsNotNegative` | Lab3/caches.cpp:15-24 | the page map folds signed numbers, so its top bit is always 0 |
| `PageHash.PagesMerge` | Lab3/caches.cpp:15-24 | and it merges pages: 125499 and 183277 mix to the same number |
| `PageHash.SameMix` | Lab3/caches.cpp:15-24 | pages that mix alike share a frame for every memory size |
| `CacheLaws.PhysicalInRange` | Lab3/caches.cpp:142-146 | a physical address has the page bits plus the memory bits |
| `PageHash.ToolLineIsBlock` | Lab3/caches.cpp:142-150 | under the tool's page map two addresses share a line of the physical model exactly when they share a physical block, and of the virtually indexed one too where the index lies in the page offset |
| `PageHash.LinesAreBlocksExactly` | Lab3/caches.cpp:148-149 | over all page maps into `2^m` frames, lines of the physically indexed model are physical blocks if and only if page bits plus `m` are at most block, row and 32 tag bits |
| `Interleaving.ActKeepsSteady` | Lab4/address_translation.cpp:266-387 | a lookup, walk or fill of any thread keeps the page-table and frame invariants; a thread's frame is the page's own unless the TLB was flushed since its walk |
| `Interleaving.AloneIsStep` | Lab4/address_translation.cpp:381-387 | the sections of one thread with no other between them are one whole translation |
| `Interleaving.ActKeepsCoherent` | Lab4/address_translation.cpp:79-96 | lookups and walks of any thread keep the TLB coherent |
| `Interleaving.FillCoherentExactly` | Lab4/address_translation.cpp:98-140 | a fill keeps the TLB coherent if and only if its walk failed or the page table still maps the page to the frame |
| `Interleaving.RunKeepsSteady` | Lab4/address_translation.cpp:266-387 | the page-table and frame invariants hold after every interleaving |
| `Interleaving.RunCoherentExactly` | Lab4/address_translation.cpp:381-387 | along any run the TLB is coherent in every state if and only if at every fill the walk failed or the page table still maps the page to the thread's frame |
| `Interleaving.CoherentExactlyFromStart` | Lab4/address_translation.cpp:381-414 | the same for every run from the start of the tool, for all such sizes |
| `Interleaving.ActCoherentExactly` | Lab4/address_translation.cpp:79-140 | one section keeps coherence if and only if it is not a stale fill |
| `Interleaving.RunKeepsCoherent` | Lab4/address_translation.cpp:381-387 | in particular the TLB is coherent in every state of a run in which no flush falls between a thread's walk and its fill |
| `Interleaving.StaleFill` | Lab4/address_translation.cpp:381-387 | a run of three threads from the start after which the TLB gives a page the frame of a level-2 table |
| `Predictor.PackUnpack` | Lab2/bpredictor.cpp:132-145 | a counter reads back what was packed, and the other three of its byte are unchanged |
| `Predictor.CountersAt` | Lab2/bpredictor.cpp:132-137 | counter `i` of a packed table is two-bit field `i % 4` of byte `i / 4` |
| `Predictor.PackCounters` | Lab2/bpredictor.cpp:139-145 | packing one counter updates that counter of the whole table only |
| `Predictor.WeaklyNotTaken` | Lab2/bpredictor.cpp:16-31 | bytes of 0x55 are counters of 1 |
| `Predictor.BranchPredictor.constructor` | Lab2/bpredictor.cpp:16-31 | all counters 1, history and totals 0 |
| `Predictor.BranchPredictor.GetCounter` | Lab2/bpredictor.cpp:132-137 | reads the counter of the plain table |
| `Predictor.BranchPredictor.SetCounter` | Lab2/bpredictor.cpp:139-145 | writes that counter of the plain table and no other |
| `Predictor.BranchPredictor.BumpCounter` | Lab2/bpredictor.cpp:92-102 | one step towards the outcome, stopping at 0 and 3 |
| `Predictor.BranchPredictor.UpdateChoice` | Lab2/bpredictor.cpp:77-89 | the choice counter moves towards the component that alone was right, else stays |
| `Predictor.BranchPredictor.MakePrediction` | Lab2/bpredictor.cpp:33-54 | the packed predictor predicts what the plain one predicts |
| `Predictor.BranchPredictor.Consult` | Lab2/bpredictor.cpp:38-53 | the global component's side where the choice counter is at least 2, else the local one's |
| `Predictor.BranchPredictor.Learn` | Lab2/bpredictor.cpp:61-102 | the three tables learn an outcome as the plain ones do |
| `Predictor.BranchPredictor.MakeUpdate` | Lab2/bpredictor.cpp:56-106 | the packed predictor learns as the plain one, history included |
| `Predictor.BranchPredictor.HandleBranch` | Lab2/bpredictor.cpp:154-171 | on every branch the packed predictor has the tables and the four totals of the plain one |
| `PredictorLaws.Simulate` | Lab2/bpredictor.cpp:154-171 | the packed predictor from its start over a whole trace has the tables and totals of the plain one's run |
| `PredictorLaws.HandleAll` | Lab2/bpredictor.cpp:154-171 | the same from any state |
| `PredictorLaws.TotalsExact` | Lab2/bpredictor.cpp:154-171 | over every trace the four totals account for each branch by its direction |
| `PredictorReference.PredictionIsForetold` | Lab2/bpredictor.cpp:33-54 | after any branches from the start the prediction is determined by the outcomes alone: the side of a counter that starts at 1 and sees the outcomes of the gshare slot, where the contests of the choice slot are on that side, else the same for the bimodal slot |
| `PredictorReference.TotalsAreTallies` | Lab2/bpredictor.cpp:154-171 | each of the four totals is the number of branches so foretold that went that way |
| `PredictorReference.GshareIsFed` | Lab2/bpredictor.cpp:61-102 | each gshare counter is fed the outcomes of the branches that met its slot, and no others |
| `PredictorReference.ChoiceIsFed` | Lab2/bpredictor.cpp:77-89 | each choice counter is fed, for each branch at its slot on which the components disagreed, whether the global one was right |
| `PredictorReference.HistoryBits` | Lab2/bpredictor.cpp:105 | bit `k` of the history is the outcome of the branch `k` before the last, for 13 bits |
| `PredictorReference.BimodalSlots` | Lab2/bpredictor.cpp:33-50 | branches share a bimodal slot exactly when their word addresses agree modulo 4096 |
| `PredictorReference.WordBits` | Lab2/bpredictor.cpp:33-50 | the low 12 and 13 bits of the program counter are remainders of the word address |
| `PredictorReference.GshareSlots` | Lab2/bpredictor.cpp:33-50 | they share a gshare slot exactly when the low 13 bits of address xor history agree |
| `PredictorReference.ChoiceSlots` | Lab2/bpredictor.cpp:33-50 | and a choice slot exactly when the low 12 do |
| `PredictorReference.BumpClamps` | Lab2/bpredictor.cpp:92-102 | a counter moves by one and stays within 0 to 3 |
| `PredictorLaws.Converges` | Lab2/bpredictor.cpp:33-106 | from any tables of two-bit counters, a branch that goes one way with no other between is predicted right from the sixteenth prediction on |
| `PredictorLaws.StreakCost` | Lab2/bpredictor.cpp:154-171 | after any branches, a streak of one branch in one direction adds at most fifteen to the wrong totals, however long it is |
| `PredictorLaws.StreakIsAfter` | Lab2/bpredictor.cpp:154-171 | a streak at the end of a trace leaves the tables that iterating the update leaves |
| `PredictorLaws.FifteenthCanBeWrong` | Lab2/bpredictor.cpp:33-171 | from the tool's start, after five branches, the fifteenth prediction of a branch that is always taken is wrong |
| `PredictorLaws.LeadTraps` | Lab2/bpredictor.cpp:16-106 | what those five branches leave in the history and in the slots of the full history |
| `PredictorLaws.ThirteenShifts` | Lab2/bpredictor.cpp:105 | thirteen equal outcomes replace the whole history |
| `PredictorLaws.HistorySettles` | Lab2/bpredictor.cpp:105 | and the history then stays, over runs of the predictor |
| `PredictorLaws.SlotIsFed` | Lab2/bpredictor.cpp:38-102 | a bimodal slot and its mistakes depend on the outcomes at that slot only, over every trace |
| `PredictorLaws.WrongIsPaid` | Lab2/bpredictor.cpp:92-102 | the potential argument: a wrong prediction is paid for by an outcome of the other direction |
| `PredictorLaws.BimodalMistakes` | Lab2/bpredictor.cpp:38-102 | from the start the mistakes at a slot are at most 1 plus twice its not-taken outcomes and at most twice its taken ones |
| `PredictorLaws.BimodalMistakesAnywhere` | Lab2/bpredictor.cpp:38-102 | from any tables at most 2 plus twice the outcomes of either direction |
| `RegDeps.LastWrite` | Lab1/regDeps.cpp:70-74 | the latest time at which the register was written, 0 for never |
| `RegDeps.PairsGrow` | Lab1/regDeps.cpp:55-67 | an instruction adds exactly its own reads at each distance |
| `RegDeps.PairsStep` | Lab1/regDeps.cpp:55-67 | and the count at a distance grows by the registers read at that distance |
| `RegDeps.PairsMeaning` | Lab1/regDeps.cpp:55-74 | a read is at distance `d` exactly when the register was written that many instructions before and not since, or never and `d` is the time of the read |
| `RegDeps.ThreadState.constructor` | Lab1/regDeps.cpp:41-42 | an empty histogram: no register written, time 0 |
| `RegDeps.ThreadState.UpdateSpacingInfo` | Lab1/regDeps.cpp:48-75 | after every instruction each histogram entry is the number of (instruction, register) pairs at that distance from the last earlier write |
| `RegDeps.ThreadState.CountReads` | Lab1/regDeps.cpp:55-67 | each entry grows by the registers read at its distance; larger distances are dropped |
| `RegDeps.ThreadState.RecordWrites` | Lab1/regDeps.cpp:70-74 | exactly the written registers get the current time |
| `RegDeps.ThreadState.Merge` | Lab1/regDeps.cpp:128-130 | every shared entry grows by the thread's count |
| `RegDeps.RunThread` | Lab1/regDeps.cpp:48-135 | a thread from start to exit adds to each shared entry the number of its (instruction, register) pairs at that distance |
| `RegDeps.Instrument` | Lab1/regDeps.cpp:77-112 | a register is listed, once, exactly when it is not the missing register and is the full name of some operand that is not; an instruction is counted exactly when a list is not empty |
| `RegDeps.CollectNames` | Lab1/regDeps.cpp:82-101 | exactly the full names of the operands, the missing register left out before and after renaming |
| `RegDeps.SameNamesList` | Lab1/regDeps.cpp:82-112 | operands whose registers have the same full names give lists of the same registers |
| `RegDeps.RenamingKeepsCounts` | Lab1/regDeps.cpp:48-112 | replacing registers by others of the same full name throughout a trace changes no entry of the histogram |
| `RegDeps.RenamingKeepsCounted` | Lab1/regDeps.cpp:102-112 | nor which instructions are counted |
| `RegDeps.Listing` | Lab1/regDeps.cpp:109-112 | the elements of a set, each once, in some order |
| `RegDeps.LiveIsLife` | Lab1/regDeps.cpp:118-135 | a thread's state depends on its own events only |
| `RegDeps.LifeTotalStep` | Lab1/regDeps.cpp:122-135 | only the exit of a running thread adds to the per-thread totals, by that thread's counts |
| `RegDeps.SpacingIsSum` | Lab1/regDeps.cpp:118-135 | for every interleaving of thread events the shared histogram is the sum of what each thread's own events give |

## Left out

- Pin callbacks, `main`, `Fini` and result files: instrumentation and output. Knob values are constructor parameters.
- Locks: each locked section is one atomic step. Interleavings are modelled on values in `Interleaving`, whose steps are the value functions of `LookUp`, `PageTableWalk` and `Fill` in `Walker`; threads that share the Lab 2 and Lab 3 tables without a lock are not modelled.
- Counter widths: hit, miss, flush and LRU counters do not wrap. The cache methods require the time stamp to stay below 2^64 - 1, the value the source uses as its sentinel.
- Address and shift widths: the value-level laws hold for every size; they describe the 32-bit source for log sizes of page and pool adding up to at most 31 (required by `Walker.PageTableWalker.Create` and `Walker.PageTableWalker.Simulate`), at most 31 TLB row bits, and cache block and row bits adding up to at most 31, beyond which the source shifts by its word width.
- The mixing quality of `getPhysicalPageNumber`: the laws hold for every page map; its bound, its lost sign and four of its values are stated. A log memory size of 0, a shift by 32 in the source, is excluded.
- VIPT lines when the index exceeds the page offset: their tag then drops page bits and does not identify a block. What such a line stands for is not stated; when the counts agree is.
- Fairness of eviction: the cursor's row stays when the search wraps inside a row, so no bound on a page's life is available.
- `freePage` (never called), destructors and the unlocked wrapper `flush`.
- The array of thread-state pointers in Lab 1: a thread is a class instance, and starts, exits and reuse of thread ids are events on values.
- Uninitialised memory: a fresh frame's words are `Unwritten`, and a cache tag is arbitrary until its way is valid.
- The analysis scripts: file parsing and plotting.
- `base/pin`: vendored code.
