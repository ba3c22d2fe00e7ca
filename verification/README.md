# A verified model of the NVMe key-value engine and its device simulator

This project models the parts of the repository whose correctness is hard to see from the code, and
proves what they promise. The models follow the shape of the code: objects that are updated in place
are classes, loops are loops with invariants, protocols between threads are step systems.

| files | what they model |
|---|---|
| Base, Arith | optional values, sequences without duplicates; products, quotients and remainders |
| FtlModel, FtlProofs, FtlGc, FtlEffects, FtlRuns, FtlLimits | one partition of the page-mapped flash translation layer on values: mapping tables, page, block and line counts, line lists, write pointers, garbage collection, write credits, whole runs, and where they end |
| Adversary, FtlConf, FtlTight | a host that plays against the write credits, and why the space bound is the best there is |
| Geometry, SsdParams | address arithmetic, the order in which a line is filled, the geometry computed from a capacity |
| VictimHeap | the priority queue of victim lines with its back positions |
| GcWalk, ConvFtl, Namespace | the translation layer on arrays and lists, proved to refine the value model; a namespace striped over partitions |
| ThreadPool, WorkQueue | the bounded thread pool as an interleaving of its critical sections; its linked queue |
| ChannelModel, NandTiming | the ring of bandwidth credits against an unbounded map of time slots; die timing and flush |
| IoQueue | the two lists an I/O worker threads through one array |
| Zns | zone states, resource counters and write pointers of a zoned namespace; whole runs of commands |
| UtHash | the hash table with bucket chains, insertion list and bucket doubling; the table of keys |
| Health, Engine | device health under interleaving; the sharded engine as one map |

The main results:

* **The translation layer is a map, within an exact bound.** Along every run that writes at most
  (tt_lines - 4) * pgs_per_line distinct pages of a partition, a free line is always found, credits stay
  positive, every assertion of the code holds, and a read gives what was written last
  (`FtlRuns.RunsRefineMap`, carried over to the arrays by `ConvFtl.Partition.WritePage` and to commands by
  `Namespace.ConvNamespace.Write`). The invariant is that free pages minus credits never fall below
  2 * pgs_per_line + 1. One page more, and some run exhausts the free lines (`FtlTight.BoundExactly`). A
  device of 62 or more lines exports no more than the bound (`Namespace.WriteExported`).
* **It loses data only by running out of lines.** Without any bound, a write finds the free lines it needs
  exactly if there is room in the state before it, and as long as every write has room every run reads as a
  map (`FtlLimits.NextAlive`, `AliveRunsRefineMap`).
* **Garbage collection loses nothing** for any victim and any order of copies and erases that handles
  all pages (`FtlGc.GcSound`), and finds the free lines it needs exactly if the valid pages of the
  victim fit (`FtlGc.GcAlive`); the nested loops of the code are such an order (`GcWalk.WalkComplete`).
* **No wake-up is lost in the thread pool**, and after shutdown it drains in a bounded number of steps,
  each accepted item having run, and called back, exactly once (`ThreadPool.RunInv`, `Drained`,
  `DrainBounded`).
* **The credit ring refines an unbounded slot map**; the exact condition on clock gaps is
  `ChannelModel.ClockExact`. When a transfer is complete is told exactly from its bytes, the rate and the
  slots before it (`ChannelModel.Channel.Request`, `DoneExactly`), and when a flash operation starts and ends
  from the die, the command and its transfers (`NandTiming.Ssd.AdvanceNand`).
* **The worker's lists stay a partition of the array, sorted relative to the clock**, so due requests
  form a prefix and one pass with one reclaim frees all of them (`IoQueue.Worker.Serve`).
* **Zone counters are the numbers of zones that hold a resource** after any command
  (`Zns.ZnsFtl.Execute`), for all sizes of random write areas, zero included, and the blocks accepted since
  a reset are those up to the write pointer, in order. Exactly which commands leave an area counted, which
  divide by zero and which stop at a buffer is told from the state before the command, and so are the answer
  to every command and what it leaves of the zone. Over every run of commands, a finished zone takes no write
  until it is reset (`ZnsRuns.FinishSticks`), and the writes granted since a reset add up to the write pointer
  (`ZnsRuns.WrittenSinceReset`).
* **The hash table is a set of keys** through any number of doublings (`UtHash.Table.Add`, `Find`, `Delete`).
* **A device at the error threshold is marked in every quiescent state** (`Health.ThresholdMarked`), a mark
  stands exactly until the probe restores the device (`Health.MarkedExactly`), and **the devices together
  are one map** (`Engine.KvEngine`). Over any sequence of answers a device is marked exactly if it was gone
  once or failed the maximum number of times in a row (`Answers.RecordHealth`).

Where the code and its comments differ, the model follows the code:

* io.c says requests are sorted by target time. They are sorted by the later of target time and clock;
  `IoOrder.RawOrderExactly` tells exactly when the two agree.
* channel_model.c narrows clock gaps to 32 bits; a gap of 2^32 slots can leave an old charge in place
  (`ChannelModel.StaleCharge`).
* The assertion in `__increase_write_ptr` that a zone with a random write area is never filled there is
  compiled away. Such a zone can be filled, and its area then stays counted (`Zns.FilledAreaStaysCounted`).
* zns_mgmt_send.c and zns_read_write.c compare with the last block of a random write area and then divide
  by the size of a flush granule. The shipped configurations set both sizes to 0. The last block of such an
  area wraps around behind write pointer 0, so a zone opened with an area passes the test and the division
  is undefined; `Zns.ZnsFtl.ShippedSizes` tells exactly when, `Zns.ShippedSizesDivide` gives the commands.
* A write that reopens a closed zone with an area takes the size of an area from the buffer of the zone and
  asserts that it got it. With the shipped sizes there is no such buffer (`Zns.ShippedSizesStop`); with others,
  closing and writing in turn empties it (`Zns.ReopensRunOut`). `buffer_allocate` also asserts that no request
  is larger than the buffer, so a write command larger than the write buffer stops the driver.
* `zone_to_slba` multiplies in 32 bits. The end of a zone that starts at 2^32 blocks or above is never found,
  and appends to it run on into the next zone (`Zns.ZnsFtl.EndExactly`, `Zns.HighZoneOverruns`).
* So a management command with select-all reaches the zones below 2^32 blocks, some of them more than once, and
  no others, yet answers success (`Zns.ZnsFtl.ManageAll`).
* Zones can go offline only from read-only, and nothing makes a zone read-only (`ZnsRuns.NeverDead`).
* The guard of `kv_engine_add_device` counts writes, and the statistics reset clears the count. The map
  then survives exactly if no stored key changes its device and the new device holds only its own keys
  (`Shards.AddDeviceExactly`, `Shards.ResetHidesKey`).

Inputs from outside are parameters: clock readings, device answers and faults, allocation and buffer
success, the hash function of the key table. Numbers are unbounded unless a width is written out.

## Model

| member | source | states |
|---|---|---|
| Geometry.PgIdxOk | lib/nvmevirt/conv_ftl.c:36-50 | page indices of valid addresses lie below tt_pgs and give the address back: ppa2pgidx is injective |
| Geometry.PpaAtOk | lib/nvmevirt/conv_ftl.c:36-65 | every index below tt_pgs is the index of exactly one valid address: ppa2pgidx is onto |
| Geometry.SlotOk | lib/nvmevirt/conv_ftl.c:214-280 | the visiting order of a line numbers its pages below pgs_per_line and determines the address |
| Geometry.SlotAtOk | lib/nvmevirt/conv_ftl.c:214-280 | every number below pgs_per_line belongs to one page of the line |
| Geometry.NextSlot | lib/nvmevirt/conv_ftl.c:214-280 | advancing visits the page with the next number; the line closes after the last number and only then, back at its first page |
| Geometry.LayoutOk | lib/nvmevirt/ssd.c:101-158 | the page, block and line tables of a geometry fit together: sizes, bounds, and both directions between pages and line positions |
| Geometry.LayoutAt | lib/nvmevirt/ssd.c:140-158 | line, block and position of an address, as the tables have them |
| SsdParams.GeoCovers | lib/nvmevirt/ssd.c:68-172 | the computed geometry is usable if and only if each partition has some capacity, and then holds at least that many bytes |
| SsdParams.GeoTight | lib/nvmevirt/ssd.c:82-111 | the channels are dealt out whole; with a given number of blocks, one wordline per block less would not hold the capacity; with a given block size, blocks have no wordline and the partition has no line too many |
| SsdParams.GeoWaste | lib/nvmevirt/ssd.c:87-111 | in bytes: less than one wordline per block above the capacity, or less than one line if the block size is whole wordlines |
| SsdParams.ExportedExactly | lib/nvmevirt/conv_ftl.c:410-410 | the exported blocks are the most that leave the over-provisioning free |
| SsdParams.ExportedPagesLeast | lib/nvmevirt/conv_ftl.c:970-976 | the pages dealt out to a partition are the fewest that hold them all |
| SsdParams.ExportedBound | lib/nvmevirt/conv_ftl.c:375-419 | the exported pages of a partition, a partly exported last page included, are at most its physical pages divided by the over-provisioning factor, rounded up |
| SsdParams.ExportedFits | lib/nvmevirt/conv_ftl.c:375-419 | with 62 or more lines the exported pages of a partition are no more than (tt_lines - 4) * pgs_per_line, the bound under which free lines never run out |
| SsdParams.ExportedCommand | lib/nvmevirt/conv_ftl.c:954-958 | a command on exported blocks of 512 bytes touches only exported pages of each partition |
| FtlProofs.CountsStep | lib/nvmevirt/conv_ftl.c:487-555 | one page changing status changes the valid and invalid counts of its group by exactly that page, so the counts stay the true counts |
| FtlProofs.TablesAppend | lib/nvmevirt/conv_ftl.c:986-994 | mapping a free page to an unmapped logical page keeps maptbl and rmap inverse to each other on valid pages |
| FtlProofs.FillAppend | lib/nvmevirt/conv_ftl.c:214-280 | the programmed pages of an open line are exactly those before its write pointer: vpc + ipc is the number of steps taken |
| FtlProofs.AdvanceRoles | lib/nvmevirt/conv_ftl.c:228-280 | after an advance every line is still in exactly one of free list, full list, victim heap, user line, GC line |
| FtlProofs.AdvanceParts | lib/nvmevirt/conv_ftl.c:228-280 | a closed line goes to the full list if all its pages are valid and to the heap otherwise, so the heap holds the closed lines with an invalid page |
| FtlProofs.FullExactly | lib/nvmevirt/conv_ftl.c:487-531 | a line is on the full list if and only if all its pages are valid |
| FtlProofs.AppendInv | lib/nvmevirt/conv_ftl.c:534-555 | programming a page at a write pointer keeps the whole invariant, adds exactly that logical page to the view and uses one free page |
| FtlProofs.DropInv | lib/nvmevirt/conv_ftl.c:487-532 | invalidating a mapped page keeps the whole invariant once the page is unmapped |
| FtlProofs.HostWriteInv | lib/nvmevirt/conv_ftl.c:970-1011 | a host page write keeps the invariant, changes the view at that logical page only, uses one free page and one credit |
| FtlProofs.InvalidateAsserts | lib/nvmevirt/conv_ftl.c:487-531 | the assertions of mark_page_invalid hold for every valid page: counts in range, a line without invalid pages is full |
| FtlProofs.ProgramAsserts | lib/nvmevirt/conv_ftl.c:534-555 | the assertions of mark_page_valid hold at either write pointer: the page is free, block and line have room |
| FtlProofs.AdvanceAsserts | lib/nvmevirt/conv_ftl.c:247-262 | the assertions on closing a line hold: after its last page was programmed all its pages are valid, or some are invalid and fewer than all valid |
| FtlProofs.HostAsserts | lib/nvmevirt/conv_ftl.c:974-999 | between dropping the old copy and programming the new one the user pointer still names a free page of a line in no list, its block and line have room, and closing the line meets its assertions |
| FtlGc.TakeInv | lib/nvmevirt/conv_ftl.c:644-666 | taking a victim leaves the invariant with one line set aside, and that line has at least one invalid page |
| FtlGc.CopyInv | lib/nvmevirt/conv_ftl.c:597-642 | copying a page of the victim keeps the invariant and the view although the old copy stays valid with a live reverse entry |
| FtlGc.EraseInv | lib/nvmevirt/conv_ftl.c:557-576 | erasing a block whose pages were all handled changes nothing that can be read |
| FtlGc.FreeInv | lib/nvmevirt/conv_ftl.c:741-750 | a completely erased victim returns to the free list and the full invariant holds again |
| FtlGc.CollectInv | lib/nvmevirt/conv_ftl.c:752-812 | the same for any legal sequence of copies and erases, however long |
| FtlGc.GcSound | lib/nvmevirt/conv_ftl.c:752-812 | garbage collection of any victim, in any complete order, keeps the invariant, leaves every logical page as it was, and gains exactly the invalid pages of the victim, if its valid pages fit on the GC line and the free lines |
| FtlGc.GcAlive | lib/nvmevirt/conv_ftl.c:752-812 | collection finds the free lines it needs if and only if gc position + vpc of the victim is less than (free lines + 1) * pgs_per_line |
| FtlEffects.HostEffect | lib/nvmevirt/conv_ftl.c:970-1011 | told from the state before, the lists, the write pointers and the counters of every line after a page write |
| FtlEffects.GcEffect | lib/nvmevirt/conv_ftl.c:752-812 | told from the state before, the lists and the GC pointer after a collection; no line but the victim gains or loses an invalid page |
| GcWalk.WalkComplete | lib/nvmevirt/conv_ftl.c:771-806 | the three nested loops of do_gc handle every page of the victim and erase every one of its blocks |
| GcWalk.CopyAsserts | lib/nvmevirt/conv_ftl.c:597-642 | during collection no page of the victim is free, and a valid one has a logical page and a free target page: the assertions of the copy hold |
| GcWalk.EraseLegal | lib/nvmevirt/conv_ftl.c:784-789 | a block is erased only after all its pages were handled |
| FtlRuns.FullLinesMapped | lib/nvmevirt/conv_ftl.c:92-107 | full lines hold as many mapped logical pages as physical pages |
| FtlRuns.VictimExists | lib/nvmevirt/conv_ftl.c:814-821 | when two or fewer lines are free and fewer than (tt_lines - 4) * pgs_per_line logical pages are mapped, there is a victim: forced collection succeeds |
| FtlRuns.NoVictimAfterClose | lib/nvmevirt/conv_ftl.c:814-821 | with exactly that many there may be none, but then the page just written closed its line and two lines are free |
| FtlRuns.RoomAfterHost | lib/nvmevirt/conv_ftl.c:970-1011 | the condition on the state before a write says exactly that every line that may be collected after it has room |
| FtlRuns.NextInv | lib/nvmevirt/conv_ftl.c:970-1011 | one write with the refill that may follow has the room it needs and keeps the invariant and free pages minus credits at 2 * pgs_per_line + 1 or more |
| FtlRuns.InitInv | lib/nvmevirt/conv_ftl.c:331-357 | a new partition satisfies the invariant and the space bound and reads as empty |
| FtlRuns.RunsRefineMap | lib/nvmevirt/conv_ftl.c:924-1024 | along every run of writes to at most (tt_lines - 4) * pgs_per_line distinct logical pages, a free line is always found, credits stay positive, and reads give the last data written: the FTL is a map |
| FtlLimits.HostAlive | lib/nvmevirt/conv_ftl.c:214-280 | a host write finds the free line it needs if and only if it does not close the user line or some line is free |
| FtlLimits.NextAlive | lib/nvmevirt/conv_ftl.c:970-1011 | without any space bound: a write, with any collection that follows, finds the free lines it needs if and only if there is room in the state before it; then the invariant holds and the view changes at its page only |
| FtlLimits.AliveRunsRefineMap | lib/nvmevirt/conv_ftl.c:924-1024 | without any space bound: along every run free lines were always found if and only if every write had room in the state before it, and then the invariant holds and reads give the last data written |
| FtlLimits.HoldsLess | lib/nvmevirt/conv_ftl.c:36-50 | at least two physical pages never hold data, so no more than tt_pgs - 2 logical pages are ever mapped |
| FtlLimits.TooManyPages | lib/nvmevirt/conv_ftl.c:954-958 | every run over more distinct pages than that has run out of free lines, although the range check lets it through |
| FtlLimits.FirstWritesExhaust | lib/nvmevirt/conv_ftl.c:167-181 | every run whose first (tt_lines - 2) * pgs_per_line writes go to distinct pages has run out of free lines after (tt_lines - 1) * pgs_per_line writes: the space bound cannot be dropped |
| FtlLimits.ExhaustingRun | lib/nvmevirt/conv_ftl.c:263-268 | there is such a run, of distinct pages that all pass the range check |
| Adversary.HostWins | lib/nvmevirt/conv_ftl.c:92-107 | kept up to the names of lines and pages: with p >= 5 pages in a line and five or more lines, a host can bring the credits to grant too much and then leave a collection without room |
| FtlConf.WalkLifts | lib/nvmevirt/conv_ftl.c:924-1024 | every sequence of such moves is a run of the translation layer, with actual pages, victims and orders of copying |
| FtlTight.BoundIsTight | lib/nvmevirt/conv_ftl.c:924-1024 | with one logical page more than (tt_lines - 4) * pgs_per_line some run exhausts the free lines, for any number of lines from five on and five or more pages in a line |
| FtlTight.BoundExactly | lib/nvmevirt/conv_ftl.c:924-1024 | the exact bound: some host that keeps to the first n logical pages exhausts the free lines if and only if n > (tt_lines - 4) * pgs_per_line |
| VictimHeap.RootIsLeast | lib/nvmevirt/pqueue/pqueue.c:170-179 | the root of the heap has the least valid-page count |
| VictimHeap.HeapIpc | lib/nvmevirt/conv_ftl.c:509-515 | a change of the invalid count does not disturb the heap |
| VictimHeap.PQueue.BubbleUp | lib/nvmevirt/pqueue/pqueue.c:56-71 | restores order and positions when one element may be too deep; same elements, nothing else of a line changes |
| VictimHeap.PQueue.MaxChild | lib/nvmevirt/pqueue/pqueue.c:73-85 | the child with the smaller count, or none exactly if there is no child; what stands at the parent does not matter |
| VictimHeap.PQueue.PercolateDown | lib/nvmevirt/pqueue/pqueue.c:87-102 | restores order and positions when one element may be too high; same elements |
| VictimHeap.PQueue.Insert | lib/nvmevirt/pqueue/pqueue.c:104-129 | adds exactly this element; the result is a heap with every position exact |
| VictimHeap.PQueue.ChangePriority | lib/nvmevirt/pqueue/pqueue.c:131-142 | changes the count of this element in place; the result is a heap of the same elements |
| VictimHeap.PQueue.Peek | lib/nvmevirt/pqueue/pqueue.c:170-179 | finds an element with the least count if and only if there is one |
| VictimHeap.PQueue.Pop | lib/nvmevirt/pqueue/pqueue.c:156-168 | removes exactly the root |
| ConvFtl.Partition.constructor | lib/nvmevirt/conv_ftl.c:331-357 | the arrays, lists and pointers of a new partition represent the initial state |
| ConvFtl.Partition.SetMaptbl | lib/nvmevirt/conv_ftl.c:30-34 | one entry of the forward table changes |
| ConvFtl.Partition.SetRmap | lib/nvmevirt/conv_ftl.c:60-65 | one entry of the reverse table changes |
| ConvFtl.Partition.MarkPageValid | lib/nvmevirt/conv_ftl.c:534-555 | page, block and line records move from free to valid as in the model |
| ConvFtl.Partition.GetNewPage | lib/nvmevirt/conv_ftl.c:282-297 | the address of the page at the write pointer |
| ConvFtl.Partition.MarkPageInvalid | lib/nvmevirt/conv_ftl.c:487-532 | page, block, line, full list and heap change as in the model, the heap key in step with the count |
| ConvFtl.Partition.NextAddress | lib/nvmevirt/conv_ftl.c:228-275 | the address after this one, computed with the carries of the code |
| ConvFtl.Partition.AdvanceWritePointer | lib/nvmevirt/conv_ftl.c:214-280 | the pointer, the lists and the heap after an advance are those of the model |
| ConvFtl.Partition.HostWritePage | lib/nvmevirt/conv_ftl.c:975-997 | one logical page of a write command refines the host write of the model, with all assertions met |
| ConvFtl.Partition.GcWritePage | lib/nvmevirt/conv_ftl.c:597-642 | one copy step of the model |
| ConvFtl.Partition.CleanOneFlashpg | lib/nvmevirt/conv_ftl.c:692-739 | handles exactly the pages of one flash page |
| ConvFtl.Partition.MarkBlockFree | lib/nvmevirt/conv_ftl.c:557-576 | one erase step of the model |
| ConvFtl.Partition.CleanLine | lib/nvmevirt/conv_ftl.c:771-806 | the loops over flash pages, channels and dies perform a legal sequence of steps that reaches the end of the line |
| ConvFtl.Partition.SelectVictim | lib/nvmevirt/conv_ftl.c:644-666 | takes a line with the least valid count off the heap; refuses exactly when the heap is empty or, unforced, every line is more than one eighth valid |
| ConvFtl.Partition.MarkLineFree | lib/nvmevirt/conv_ftl.c:741-750 | the victim joins the free list with zero counts |
| ConvFtl.Partition.DoGc | lib/nvmevirt/conv_ftl.c:752-812 | collects the best victim, whenever there is room for its valid pages; nothing the host can read changes; a forced attempt fails only without victims |
| ConvFtl.Partition.CheckAndRefill | lib/nvmevirt/conv_ftl.c:99-107 | without credits, collects if two or fewer lines are free and then refills |
| ConvFtl.Partition.WritePage | lib/nvmevirt/conv_ftl.c:970-1011 | a page write that has room updates the map of contents at this page and keeps the partition valid; within the space bound it stays within the space bound |
| ConvFtl.Partition.WithinBound | lib/nvmevirt/conv_ftl.c:970-1011 | within the space bound every page write has room |
| ConvFtl.Partition.Lookup | lib/nvmevirt/conv_ftl.c:25-28 | a logical page is mapped if and only if it was written, and its physical page holds what was written last |
| Namespace.PutThenRead | lib/nvmevirt/conv_ftl.c:970-976 | striping by remainder and quotient keeps pages apart: a page write is read back at its own page and nowhere else |
| Namespace.ConvNamespace.constructor | lib/nvmevirt/conv_ftl.c:375-419 | a namespace of empty partitions with the given geometry and limit |
| Namespace.ConvNamespace.WriteOne | lib/nvmevirt/conv_ftl.c:970-1011 | one page of a command goes to its partition |
| Namespace.ConvNamespace.Write | lib/nvmevirt/conv_ftl.c:924-1024 | a write command is refused if its last page is out of range or the write buffer has no room, stops the driver if it is in range and larger than the buffer, and is accepted otherwise; then exactly its pages read as the new data |
| Namespace.InitNamespace | lib/nvmevirt/conv_ftl.c:375-419 | from 62 lines on, or whenever the exported pages are within the bound, the geometry and the exported size of a configured device meet what the namespace needs |
| Namespace.WriteExported | lib/nvmevirt/conv_ftl.c:924-1024 | every write to exported blocks that finds room in the buffer is accepted, and exactly its pages read as the new data: no further condition on the host |
| Namespace.ExportedExactly | lib/nvmevirt/conv_ftl.c:375-419 | a host that keeps to the exported pages can exhaust a partition if and only if they are more than (tt_lines - 4) * pgs_per_line |
| ThreadPool.InitInv | src/utils/thread_pool.c:52-99 | a pool just created satisfies the invariant |
| ThreadPool.StepInv | src/utils/thread_pool.c:14-50 | every critical section of every worker, submitter and destroyer keeps the invariant, with signals that may wake more than one waiter and spurious wake-ups |
| ThreadPool.RunInv | src/utils/thread_pool.c:14-50 | in every state of every interleaving: a worker parked without signal means no more items than signalled workers, a submitter parked without signal means the queue and the signalled submitters fill the capacity, and nobody is parked after shutdown |
| ThreadPool.NoDeadlock | src/utils/thread_pool.c:126-129 | with work queued some worker is awake, with a submitter blocked some thread is awake, after shutdown nobody waits |
| ThreadPool.NothingAfterShutdown | src/utils/thread_pool.c:119-136 | once shutdown is set it stays set and nothing is accepted |
| ThreadPool.Drained | src/utils/thread_pool.c:165-179 | when all workers have exited, items started in submission order, each accepted item ran exactly once, the left-over loop finds nothing, the callback of each accepted item that has one was invoked exactly once and no other, and each context was freed exactly once |
| ThreadPool.FinishContexts | src/async/async_ops.c:74-113 | a finished operation invokes its callback exactly if it has one, once, and frees its context once |
| ThreadPool.CallbacksExactly | src/async/async_ops.c:74-113 | over any sequence of operations: a callback was invoked once if its operation finished and has one, and otherwise never |
| ThreadPool.RejectContexts | src/async/async_ops.c:141-148 | a rejected submission frees its context once and nobody else does |
| ThreadPool.DrainProgress | src/utils/thread_pool.c:18-47 | after shutdown each section brings the pool closer to rest |
| ThreadPool.DrainEnds | src/utils/thread_pool.c:165-168 | a pool at rest after shutdown has no worker left, so the joins return |
| ThreadPool.DrainBounded | src/utils/thread_pool.c:159-168 | in every run, after shutdown the threads of the pool take no more steps than a number known at shutdown plus the calls that still come in |
| WorkQueue.Queue.constructor | src/utils/thread_pool.c:52-79 | an empty queue, of capacity 128 if none is given |
| WorkQueue.Queue.SubmitSection | src/utils/thread_pool.c:117-150 | rejects exactly after shutdown, blocks exactly when full, otherwise links the item last: the submit step of the interleaving model |
| WorkQueue.Queue.WorkSection | src/utils/thread_pool.c:19-42 | takes the oldest item if there is one, leaves exactly when there is none after shutdown: the work step of the interleaving model |
| WorkQueue.Queue.ShutdownSection | src/utils/thread_pool.c:159-163 | sets the flag and leaves the list: the destroy step of the interleaving model |
| WorkQueue.Queue.Leftover | src/utils/thread_pool.c:170-179 | the clean-up loop visits exactly the items still linked, in order: none once all workers have exited |
| ChannelModel.ClockExact | lib/nvmevirt/channel_model.c:42-57 | moving the ring to a later time keeps it in agreement with the unbounded slot map if and only if the gap is below 2^32 slots or no charge is left behind |
| ChannelModel.StaleCharge | lib/nvmevirt/channel_model.c:43-44 | a gap of exactly 2^32 slots leaves an old charge in the ring |
| ChannelModel.GreedyPointwise | lib/nvmevirt/channel_model.c:86-106 | no slot is overcharged, slots before the request and after the last used one are untouched, slots in between are used up |
| ChannelModel.GreedyConserves | lib/nvmevirt/channel_model.c:86-106 | exactly the granted credits leave the ring, and credits are refused only when the ring is exhausted |
| ChannelModel.GreedyLast | lib/nvmevirt/channel_model.c:86-106 | the last slot used is the first at which the slots so far have enough credits; credits are left over exactly if the whole ring has too few |
| ChannelModel.SlotTimes | lib/nvmevirt/channel_model.c:42-43 | a slot is the time from its number of intervals on, up to the next one |
| ChannelModel.UnitsExactly | lib/nvmevirt/channel_model.c:39-39 | the units of a request are the least that hold its bytes, if and only if their number fits 32 bits |
| ChannelModel.DoneExactly | lib/nvmevirt/channel_model.c:108-120 | a charged request is complete after the time of its units at the rate of the channel, and one interval for each slot used beyond the usual number; on an idle ring exactly after the time of its units |
| ChannelModel.RatesExactly | lib/nvmevirt/channel_model.c:16-29 | credits and transfer time of a unit are the bandwidth in bytes, rounded down |
| ChannelModel.SpendShown | lib/nvmevirt/channel_model.c:79-106 | charging the ring is charging the unbounded map from absolute slots to remaining credits, slot by slot |
| ChannelModel.ChargeAgrees | lib/nvmevirt/channel_model.c:108-112 | after a charge ring and map agree again and entries past valid_len are untouched |
| ChannelModel.OwnSlot | lib/nvmevirt/channel_model.c:70-79 | the slot charged first is the one asked for if and only if the request is less than 2^32 slots ahead |
| ChannelModel.CreditsFit | lib/nvmevirt/channel_model.c:16-25 | the credits of a slot fit a byte and are positive if and only if the bandwidth is 31 to 7812 MB/s |
| ChannelModel.Channel.constructor | lib/nvmevirt/channel_model.c:16-29 | a ring without charges, with as many credits per slot as whole units the bandwidth moves in a slot; it can carry traffic if and only if the bandwidth is 31 to 7812 MB/s |
| ChannelModel.Channel.AdvanceClock | lib/nvmevirt/channel_model.c:42-57 | the ring agrees after the move exactly if the gap is safe |
| ChannelModel.Channel.Consume | lib/nvmevirt/channel_model.c:79-106 | the loop over ring positions is the slot by slot charge of the window |
| ChannelModel.Channel.Request | lib/nvmevirt/channel_model.c:31-120 | requests in the past or beyond the ring are not charged; all others take the units of their bytes from the first slots of the unbounded map that have credits, from the slot asked for on; when they are complete is told exactly from bytes, rate and slots |
| ChannelModel.Channel.Reserve | lib/nvmevirt/channel_model.c:31-120 | the same in units: charged slot by slot in the map, completion never before the request |
| NandTiming.Ssd.constructor | lib/nvmevirt/ssd.c:295-317 | all dies are free and nothing was issued, every channel has the configured rate; the device is usable if and only if its bandwidths are 31 to 7812 MB/s |
| NandTiming.Ssd.TransferOut | lib/nvmevirt/ssd.c:397-411 | the pieces of a read follow each other over the channel and then the link, each asked for when the one before is done; their bytes add up to the page; completion is that of the last piece |
| NandTiming.Ssd.Perform | lib/nvmevirt/ssd.c:385-446 | exactly how long each kind of command keeps the die busy, and what it asks of the channel and the link |
| NandTiming.Ssd.AdvanceNand | lib/nvmevirt/ssd.c:362-454 | the operation starts exactly at the later of the time the die is free and the time of the command, or the clock if it has none; it ends when its latency and transfers do, and only its channel and the link are charged; no other die changes, and operations of one die never overlap, for any rising clock readings; an unmapped address does nothing |
| NandTiming.Ssd.NextIdle | lib/nvmevirt/ssd.c:456-472 | a clock reading or the end of some operation, and no operation issued so far ends later |
| NandTiming.Flush | lib/nvmevirt/conv_ftl.c:1026-1043 | the flush target is a clock reading or the end of some operation, and not earlier than any operation issued on any partition |
| IoOrder.InsertSorted | lib/nvmevirt/io.c:248-291 | a new request goes behind exactly the requests that are due no later, and the list stays sorted by max(target, latest clock) |
| IoOrder.ClockSorted | lib/nvmevirt/io.c:248-273 | the order survives any advance of the clock |
| IoOrder.DuePrefix | lib/nvmevirt/io.c:388-416 | the requests that are due always form a prefix of the list |
| IoOrder.RawOrderExactly | lib/nvmevirt/io.c:251-259 | the list is sorted by target time alone after an insertion if and only if no queued request lies after the new target and not after the clock |
| IoOrder.RawOrderFails | lib/nvmevirt/io.c:251-259 | a request for time 5 arriving at time 10 stays behind one for time 8 |
| IoQueue.Worker.constructor | lib/nvmevirt/io.c:738-760 | all entries are free and linked in order |
| IoQueue.Worker.FindPlace | lib/nvmevirt/io.c:264-274 | the search from the tail ends at the specified place |
| IoQueue.Worker.LinkIn | lib/nvmevirt/io.c:276-290 | head, tail and middle insertion all give a well linked list with the entry at its place |
| IoQueue.Worker.Insert | lib/nvmevirt/io.c:248-291 | the entry is in the list at its place, links elsewhere are untouched |
| IoQueue.Worker.Enqueue | lib/nvmevirt/io.c:294-386 | refused exactly when one free entry is left; otherwise the first free entry joins the requests in flight by target time; the array stays partitioned |
| IoQueue.Worker.CountDone | lib/nvmevirt/io.c:404-416 | the longest prefix of finished requests |
| IoQueue.Worker.Relink | lib/nvmevirt/io.c:418-434 | the new links of both lists, entry by entry |
| IoQueue.Worker.Reclaim | lib/nvmevirt/io.c:388-437 | exactly that prefix moves to the end of the free list, in order; both lists stay well linked |
| IoQueue.Worker.Pass | lib/nvmevirt/io.c:614-693 | after a pass of the worker a request is finished exactly if it was before or is due when its turn comes |
| IoQueue.Worker.Serve | lib/nvmevirt/io.c:388-437 | a pass and a reclaim together free every request that was due when the pass began |
| ZoneModel.CountUpdate | lib/nvmevirt/zns_ftl.h:63-87 | a change of one zone changes the number of holders of a resource by that zone |
| ZoneModel.CountsMove | lib/nvmevirt/zns_ftl.h:63-87 | counters moved by what the zone gains or gives up stay the number of holders |
| ZoneModel.Counted | lib/nvmevirt/zns_ftl.h:73-78 | a zone that holds a resource is counted, so a release never wraps |
| ZoneModel.ZoneOf | lib/nvmevirt/zns_ftl.h:99-107 | division finds the zone of a block |
| Zns.ZnsFtl.EndExactly | lib/nvmevirt/zns_ftl.h:104-107 | the end of a zone, computed from a 32-bit product, is right if and only if the zone starts below 2^32 blocks |
| Zns.ZnsFtl.LastExactly | lib/nvmevirt/zns_ftl.h:109-112 | the last block of a zone, computed from the start of the next one, is right if and only if that start is below 2^32 blocks |
| Zns.ZnsFtl.constructor | lib/nvmevirt/zns_ftl.c:10-82 | all zones empty, nothing counted, all buffers of random write areas full |
| Zns.ZnsFtl.Close | lib/nvmevirt/zns_mgmt_send.c:7-29 | allowed exactly for open and closed zones; an open zone becomes closed and OPEN is released |
| Zns.ZnsFtl.Finish | lib/nvmevirt/zns_mgmt_send.c:31-64 | allowed except for read-only and offline zones; the zone is full and gives up all it holds |
| Zns.ZnsFtl.OpenZone | lib/nvmevirt/zns_mgmt_send.c:66-106 | which resource is missing, looked for in this order; a refused open changes nothing |
| Zns.ZnsFtl.Reset | lib/nvmevirt/zns_mgmt_send.c:108-156 | the zone is empty with its write pointer at the start, no random write area, a fresh record of writes, and its area buffer is refilled if there is one |
| Zns.ZnsFtl.TakeOffline | lib/nvmevirt/zns_mgmt_send.c:158-175 | only from read-only, and idempotent |
| Zns.ZnsFtl.FlushExplicitly | lib/nvmevirt/zns_mgmt_send.c:177-228 | the answer for every size of areas and granules, with the 64-bit wrap of the range end and the 32-bit zone end; accepted exactly inside the random write area, in whole granules and for an active zone, stopped by the division exactly if granules have size 0; a zone it fills gives up all it holds |
| Zns.LastOfArea | lib/nvmevirt/zns_mgmt_send.c:189-191 | comparing with the wrapped last block is membership in the area, except that an empty area behind write pointer 0 takes in every block |
| Zns.ZnsFtl.FlushTo | lib/nvmevirt/zns_mgmt_send.c:207-224 | the write pointer moves behind the flushed block; a zone filled to an end the code knows gives up OPEN, ACTIVE and its area |
| Zns.ZnsFtl.IncreaseWp | lib/nvmevirt/zns_read_write.c:17-39 | moves the write pointer; reaching an end the code knows releases OPEN and ACTIVE and nothing else |
| Zns.ZnsFtl.InZone | lib/nvmevirt/zns_read_write.c:12-15 | for a first block in the zone, the boundary test compares the end of the range with the end of the zone |
| Zns.ZnsFtl.OpenImplicitly | lib/nvmevirt/zns_read_write.c:126-168 | a write opens an empty or closed zone exactly if the slots are there, and otherwise says which is missing or what the zone is; then nothing changes |
| Zns.ZnsFtl.Write | lib/nvmevirt/zns_read_write.c:64-170 | the answer to every write and append, in the order of the tests; accepted exactly when it fits the write buffer, starts at the write pointer, stays in one zone and the zone can be open; the blocks accepted since the last reset are then exactly those from the start of the zone to the write pointer, in order; it stops the driver exactly if it is larger than the write buffer |
| Zns.ZnsFtl.BlocksInside | lib/nvmevirt/zns_read_write.c:17-39 | in zones that start below 2^32 blocks all accepted blocks lie in the zone |
| Zns.HighZoneOverruns | lib/nvmevirt/zns_read_write.c:84-87 | in any other zone appends go on behind its end, over the blocks of the next zone |
| Zns.ZnsFtl.OpenForZrwa | lib/nvmevirt/zns_read_write.c:281-313 | a zone with a random write area is never empty here, so OPEN is the only slot it needs; a closed zone takes a whole area from its buffer, and the driver stops exactly if it has a slot but no area can be had |
| Zns.ZnsFtl.CheckZrwaRange | lib/nvmevirt/zns_read_write.c:243-279 | the tests before the state is looked at pass exactly for whole write units inside twice the area and the zone |
| Zns.ZnsFtl.MoveZrwa | lib/nvmevirt/zns_read_write.c:314-335 | the implicit flush moves the write pointer in whole granules to cover the block; it divides by zero exactly if granules have size 0 and the block lies behind the area, stops exactly if it is larger than the area buffer, and is put off exactly if the buffer has too little left |
| Zns.ZnsFtl.WriteInRange | lib/nvmevirt/zns_read_write.c:281-335 | both together, on the state before the write |
| Zns.ZnsFtl.FlashDone | lib/nvmevirt/io.c:666-671 | a completed flash operation gives its bytes back to the area buffer of its zone |
| Zns.ZnsFtl.ImplicitFlushBound | lib/nvmevirt/zns_read_write.c:314-327 | an implicit flush passes the end of the zone by at most one granule |
| Zns.ZnsFtl.WriteZrwa | lib/nvmevirt/zns_read_write.c:225-336 | accepted exactly inside twice the area, in the zone, with an open slot and with enough left in the area buffer, for every size of areas, granules and buffers; told from the state before, exactly when the division or a buffer stops the driver, when it is put off, and what it leaves; a zone it fills keeps its area counted |
| Zns.ZnsFtl.Manage | lib/nvmevirt/zns_mgmt_send.c:230-258 | the answer to every known action and the zone, its record of writes and its area buffer after it, in terms of those before: close, finish, open, reset, offline, flush; all invariants hold on and no other zone changes |
| Zns.ZnsFtl.PlainTwice | lib/nvmevirt/zns_mgmt_send.c:230-258 | close, finish, reset and offline depend on the zone alone and may come twice |
| Zns.ZnsFtl.ManageAll | lib/nvmevirt/zns_mgmt_send.c:272-277 | with select-all, close, finish, reset and offline reach exactly the zones that start below 2^32 blocks, each as a command of its own; the answer does not tell |
| Zns.ZnsFtl.Execute | lib/nvmevirt/zns_read_write.c:382-398 | the answer to every command and the zone, its record of writes and its area buffer after it, in terms of those before; over every run of commands and for all sizes: OPEN is the number of open zones, ACTIVE of open and closed zones, the ZRWA counter that of active ZRWA zones plus the zones filled by implicit flush, all within their totals, and a ZRWA zone is never empty; told from the state before the command, exactly which commands leave an area counted, which divide by zero and which stop at a buffer |
| ZnsRuns.HandleAll | lib/nvmevirt/zns_ftl.c:189-222 | any commands in any order, with flash operations completing in between, keep the invariant and make up a run, one command after the other |
| ZnsRuns.FullSticks | lib/nvmevirt/zns_read_write.c:159-161 | in every run a full zone stays as it is, and no write to it is granted, until a reset is |
| ZnsRuns.FinishSticks | lib/nvmevirt/zns_mgmt_send.c:31-64 | in every run a granted finish keeps the write pointer and the blocks written, and no write to the zone is granted until a reset is |
| ZnsRuns.WritesAdd | lib/nvmevirt/zns_read_write.c:17-39 | in every run, what is granted to a zone without an area between resets adds up to the distance of the write pointer, block after block |
| ZnsRuns.WrittenSinceReset | lib/nvmevirt/zns_mgmt_send.c:108-156 | after a granted reset the write pointer stands behind exactly the blocks granted since |
| ZnsRuns.WpGrows | lib/nvmevirt/zns_read_write.c:17-39 | in every run, with or without an area, only a reset takes a write pointer back |
| ZnsRuns.NeverDead | lib/nvmevirt/zns_mgmt_send.c:158-175 | in every run no zone becomes read-only or offline and no offline command is granted, if none was so at first: nothing in the code makes a zone read-only |
| Zns.ZnsFtl.ShippedSizes | lib/nvmevirt/ssd_config.h:169-173 | with areas and granules of size 0: a command divides by zero if and only if it is a flush of, or an otherwise acceptable write to, an open zone with an area and write pointer 0; it stops at a buffer if and only if it is such a write to the closed zone with an open slot left, or a plain write larger than the write buffer |
| Zns.ShippedSizesDivide | lib/nvmevirt/ssd_config.h:234-238 | with the sizes of the shipped configurations, opening zone 0 with an area is granted and flushing its first block divides by zero |
| Zns.ShippedSizesStop | lib/nvmevirt/zns_read_write.c:289-290 | with those sizes, opening zone 0 with an area, closing it and writing its first block stops at the buffer |
| Zns.ReopensRunOut | lib/nvmevirt/zns_read_write.c:289-290 | with positive sizes, while no flash operation completes, closing and writing stops the driver after as many rounds as whole areas were left in the buffer |
| Zns.FilledAreaStaysCounted | lib/nvmevirt/zns_read_write.c:27-35 | in a zone of eight blocks: open with an area, fill by a write, reset, and the area cannot be opened again |
| UtHash.MaskIsRemainder | lib/uthash.h:430-433 | masking with the number of buckets minus one is the remainder, as that number is a power of two |
| UtHash.SpreadAdd | lib/uthash.h:767-775 | a node put first in the chain of its hash value keeps every node in the chain of its hash value |
| UtHash.SpreadDrop | lib/uthash.h:789-802 | taking a node out of list and chain keeps it too |
| UtHash.CountsAgree | lib/uthash.h:516-563 | what HASH_FSCK adds up: bucket counts, items and the list agree |
| UtHash.Prepend | lib/uthash.h:767-777 | the node is first in a well linked chain |
| UtHash.Unchain | lib/uthash.h:789-802 | the chain without the node is well linked |
| UtHash.Append | lib/uthash.h:278-284 | the node is last in the list in order of insertion |
| UtHash.Unlink | lib/uthash.h:458-468 | the list without the node is well linked |
| UtHash.Put | lib/uthash.h:767-777 | bucket heads, counts and all chains agree after a node was put in |
| UtHash.Cut | lib/uthash.h:789-802 | bucket heads, counts and all chains agree after a node was taken out |
| UtHash.MoveChain | lib/uthash.h:849-866 | all nodes of an old chain are in the new buckets, while their links are rewritten under the walk |
| UtHash.Rebuild | lib/uthash.h:833-869 | twice as many buckets hold exactly the same nodes, each in the chain of its hash value |
| UtHash.FindInBucket | lib/uthash.h:745-764 | finds a node with the key if and only if the chain has one |
| UtHash.Table.Find | lib/uthash.h:153-172 | finds a node with the key if and only if the table has one |
| UtHash.Table.Expand | lib/uthash.h:833-883 | doubling keeps the table valid with the same nodes |
| UtHash.Table.JoinList | lib/uthash.h:396-412 | a first node brings a new table of 32 buckets, any other becomes the last of the list |
| UtHash.Table.Add | lib/uthash.h:396-415 | exactly this key is added, through any doubling it causes |
| UtHash.Table.LeaveList | lib/uthash.h:458-470 | head, tail and links after a node left the list |
| UtHash.Table.Delete | lib/uthash.h:450-477 | exactly this key is removed; with the last node the table goes |
| UtHash.KeyTable.AddKey | src/utils/hashTable.h:31-57 | the set of keys gains the key, unless its length is 0 or above 255 or there is no memory |
| UtHash.KeyTable.KeyInTable | src/utils/hashTable.h:60-74 | true exactly for keys of legal length in the set |
| UtHash.KeyTable.DeleteKey | src/utils/hashTable.h:77-93 | the set of keys loses the key |
| Health.RunInv | src/core/kv_engine.c:105-124 | in every interleaving, a device at the error threshold is marked healthy only while a mark is on its way or the probe is between its two stores |
| Health.ThresholdMarked | src/core/kv_engine.c:105-124 | in every quiescent state a device at the threshold is marked unhealthy |
| Health.RestoreEarned | src/core/kv_engine_health.c:45-63 | the probe restores a device only after enough successful answers in a row |
| Health.LooksRestore | src/core/kv_engine_health.c:46-59 | and it does: once a device is marked, as many successful looks as the threshold still asks for, whatever other threads record in between, bring it back |
| Health.MarkedExactly | src/core/kv_engine.c:105-124 | in every run a device is marked if and only if a mark was stored and the probe has not restored it since: no answered call takes a mark away |
| Health.MarkedBelowThreshold | src/core/kv_engine.c:115-123 | a marked device may be below the threshold: one answered call clears the counter but not the mark |
| Health.MarkOnItsWay | src/core/kv_engine.c:114-118 | quiescence is needed: right after the threshold is reached the device still counts as healthy |
| Shards.Shard | src/core/kv_engine_multi_device.c:36-45 | the loop computes the FNV-1a hash of the key, reduced to a device |
| Shards.MixApart | src/core/kv_engine_multi_device.c:36-45 | a round of the hash can be undone: neither another hash nor another byte gives the same |
| Shards.OneByteApart | src/core/kv_engine_multi_device.c:36-45 | keys that differ in exactly one byte have different hashes |
| Shards.FnvPublished | src/core/kv_engine_multi_device.c:36-45 | the hashes of nothing, of a and of foobar are the published values of 32-bit FNV-1a |
| Shards.AgreeStore | src/core/kv_engine.c:349-353 | storing on the device of the key is storing in the one map |
| Shards.AgreeRemove | src/core/kv_engine.c:484-488 | removing from the device of the key is removing from the one map |
| Shards.AgreeAt | src/core/kv_engine.c:375-377 | the device of a key decides whether the map has it, and its value |
| Shards.AgreeMerged | src/core/kv_engine.c:131-174 | devices with data from an earlier engine make up one map if and only if every key is on the device it belongs to |
| Shards.AddDeviceExactly | src/core/kv_engine_health.c:196-230 | one more device keeps the map, with its own data added, if and only if every stored key keeps its device and the new data belongs on the new device |
| Shards.ShardMoves | src/core/kv_engine_multi_device.c:36-45 | the key of four zero bytes moves when a second device is added |
| Shards.ResetHidesKey | src/core/kv_engine.c:589-597 | so a device added after a reset of the write counter hides a stored key |
| Answers.Record | src/core/kv_engine.c:105-124 | recording an answer leaves the data alone and keeps a device at the threshold marked |
| Answers.RecordHealth | src/core/kv_engine.c:105-124 | over any sequence of answers since a device was opened or restored: the error counter is the number of faults since the last answer that is none, and the device is marked if and only if it was gone once or the maximum number of faults came in a row |
| Answers.FaultsCondemn | src/core/kv_engine.c:114-119 | whatever came before and comes after: the maximum number of faults in a row marks the device, until the probe restores it |
| Answers.RecordIsSteps | src/core/kv_engine.c:105-124 | recording is what the atomic steps of one thread do, taken without others in between |
| Engine.KvEngine.constructor | src/core/kv_engine.c:131-174 | healthy devices with whatever they already store, none of it known to the key table; the engine is a map if and only if every key is on its own device |
| Engine.KvEngine.Store | src/core/kv_engine.c:297-361 | answers and changes the map as a single map would, on the device of the key; refused for bad keys, degraded devices and lack of memory, unchanged on device errors; exactly which key enters the key table, and that the answer counts for the health of the device of the key and of no other |
| Engine.KvEngine.Retrieve | src/core/kv_engine.c:363-458 | gives the value last stored, with a second attempt exactly for values that do not fit 2 MiB, and removes it from map and key table exactly when asked to and found; every refusal and fault of either attempt, and which answer counts for the health of the device |
| Engine.KvEngine.Delete | src/core/kv_engine.c:460-496 | removes the key, also when it is absent; the key table forgets it also after a device error; the answer counts for the health of the device |
| Engine.KvEngine.Exists | src/core/kv_engine.c:499-544 | an answer is true if and only if both the map and the key table have the key; it counts for the health of the device |
| Engine.KvEngine.Restore | src/core/kv_engine_health.c:56-58 | the probe brings a device back: marked healthy, no errors counted, the rest as it was |
| Engine.KvEngine.AddDevice | src/core/kv_engine_health.c:200-230 | admitted only while no write is counted; keeps the map exactly if every stored key keeps its device and the data of the new device belongs there, which the guard ensures for an empty device as long as the counter is not reset |
| Engine.KvEngine.ResetStats | src/core/kv_engine.c:589-597 | the guard still tells a never-written engine exactly if nothing is stored |

## Left out

- Namespace.ConvNamespace.Write: the host stays below a limit of at most (tt_lines - 4) * pgs_per_line pages per partition, which the exported size ensures from 62 lines on; beyond it the range check of the code admits runs that exhaust the free lines (`FtlTight.BoundExactly`).
- Namespace.ConvNamespace.WriteOne: the same limit, for one page.
- Namespace.InitNamespace: devices whose exported pages exceed the bound, which a host can exhaust (`Namespace.ExportedExactly`).
- ConvFtl.Partition.WritePage: requires room, told from the state before the write; without it the code follows a null pointer (`FtlLimits.NextAlive`). The content of a physical page is kept as a ghost value.
- ConvFtl.Partition.DoGc: requires room for the valid pages of the line to be collected, for the same reason (`FtlGc.GcAlive`).
- ConvFtl.Partition.CheckAndRefill: the same, when it collects.
- FtlTight.BoundExactly: lines of five or more pages; that the bound cannot be raised for shorter lines is not shown.
- NandTiming.Ssd.AdvanceNand: 64-bit times do not wrap; reads transfer at least one byte, as a read of nothing leaves the completion time undefined in the code.
- IoQueue.Worker.Pass: the list does not change during a pass; the race between the worker's walk and the dispatcher is not modelled.
- Zns.ZnsFtl.Execute: commands address a zone of the namespace and have at least one block, the write unit is not zero, there are fewer than 2^32 zones, and write pointers do not pass 2^64; after a stop the state is that before the step that stops.
- Zns.ZnsFtl.ManageAll: for open and flush with select-all only the invariants; what they do to each zone depends on the order of the zones.
- ZnsRuns.HandleAll: commands of one zone only, as in Execute, and completions; reads, reports and flushes of the namespace change no zone.
- Zns.ZnsFtl.WriteZrwa: resource counts, buffer and write pointer only; the data of a random write area is not modelled.
- Engine.KvEngine.Retrieve: the pools the buffers come from and their alignment are not modelled; whether a buffer was granted is a parameter.
- Engine.KvEngine.constructor: data found on the devices at start has keys of legal length.
- UtHash.Table.Expand: the number of buckets does not overflow 32 bits.
- Write-buffer byte accounting: whether the write buffer has room is a parameter; allocation is per request, also for refused zoned writes, and release per flash page, balanced only for aligned writes.
- Read timing and read aggregation of conv_read, collection delays and gc_endtime: timing without effect on the mapping.
- More than one plane per die: the code assumes one.
- thread_pool_create's failure path, and submitters still blocked while the pool is freed.
- pqueue_remove, growth of the heap array and printing: unused by the translation layer.
- kv_ftl.c, simple_ftl.c, dma.c, pci.c, admin.c and most of main.c: hardware plumbing and a second mapping table.
- uthash sorting, selection, Bloom filter, ordered insertion and non-fatal allocation failure: unused by the engine.
- memory_pool.c, dma_pool.c, append_only.c, bitmap.c: small allocators that would add only easy members.
- The key-value API of the device library: a device is a map with a result code.
