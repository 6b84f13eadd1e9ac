# Shared allocator, request buffer, buffered reader and shell: a verified model

The repository holds three programs. This project models the part of each that has to keep something
right while it changes state in place, and proves what that part promises.

- **The shared heap allocator.** Headers lie inside the heap they manage, the free list is linked by
  address, and four placement strategies, a split, a two-sided merge and a roving pointer work on it. The
  allocator boots itself: its own free list and lock are the first two blocks.
- **The request buffer of the web server.** One thread accepts connections and puts them into a ring, any
  number of workers take them out under one of three policies, and three semaphores hold them together.
- **The buffered reader.** Bytes and lines come out of a descriptor that delivers short reads and
  interrupts; request headers are skipped on top of it.
- **The shell's line engine.** A line is cut at `;` and `|`, trimmed and tokenised, all in the same
  buffer, while commands are recorded in a linked history and started block by block.

## How it is laid out

Each part is written twice. A *specification* says on plain values what an operation does to the state:
`HeapModel`, `Placement`, `Release` for the allocator, `RequestRings` for the ring, `ShellLines` for the
shell. An *imperative program* follows the source statement by statement, on arrays indexed by byte
offset or slot, on linked nodes and on a line buffer, and each of its methods is proved to do what the
specification says. The theorems about runs are then proved of the specification: `HeapRuns`,
`HeapTeardown`, `HeapLaws` and `HeapMaps` for the allocator, `ServerProtocol` for every interleaving of the server's threads.

| file | module | part |
|---|---|---|
| `HeapModel.dfy`, `Placement.dfy`, `Release.dfy` | `HeapModel`, `Placement`, `Release` | tiles and free list as values; allocating and freeing |
| `HeapRuns.dfy`, `HeapTeardown.dfy`, `HeapLaws.dfy`, `HeapMap.dfy` | `HeapRuns`, `HeapTeardown`, `HeapLaws`, `HeapMaps` | runs, reclamation, round trips, double frees, the heap map |
| `FreeList.dfy`, `HeapAllocator.dfy` | `FreeLists`, `HeapAllocators` | the allocator in memory |
| `RequestRing.dfy`, `ServerProtocol.dfy` | `RequestRings`, `ServerProtocol` | the ring in memory; the threads around it |
| `RioReader.dfy`, `RequestHeaders.dfy` | `RioReaders`, `RequestHeaders` | the reader; skipping headers |
| `ShellText.dfy`, `ShellHistory.dfy`, `ShellLine.dfy`, `ShellLaws.dfy`, `ShellProcess.dfy` | `ShellText`, `ShellHistory`, `ShellLines`, `ShellLaws`, `ShellProcesses` | text routines, history, what a line means and its laws, the shell itself |

`dafny verify dfyconfig.toml` checks the whole project.

## Where the code does not do what one would expect

The model keeps these as they are. Each comes with the exact condition, proved in both directions, or
with a named precondition and a run that meets the case.

- *A free can link a block in out of address order.* The list search stops at the last entry even when
  that lies below the freed block (`sharedMalloc/src/heapAllocator.c:193-196`), which makes the branch for
  "after the last free block" (lines 218-227) dead. A free keeps address order and maximal merging if and
  only if the list is empty or some free tile lies above the block: `Release.FreeKeepsCanonicalIff`. On the
  run of `HeapLaws.ReclamationFails` all memory is freed and yet not reclaimed as one block. Frees with no
  allocation among them that give everything back do reclaim it if and only if each of them finds the list
  empty or a free tile above its block: `HeapTeardown.TeardownReclaimsIff`.
- *A free can read through null.* When the block enters between two entries, touches neither, and the roving
  pointer stands on the second, line 235 reads `coalescedBlock->next` of a null result.
  `Release.ReadsThroughNull` names the case and `MyFree` requires that it does not arise;
  `HeapLaws.ReadThroughNullIsReachable` gives a run of five ordinary calls that leads to it.
- *After a merge next fit can start behind the merged tile's place.* When a freed block absorbs the tile the roving
  pointer stands on, but not the entry before it, the pointer goes to that entry, not to the tile that now covers
  it (`sharedMalloc/src/freeList.c:315-320`): `Release.RoverAfterFree` says where it goes in every case.
- *Freeing the block just allocated does not always restore the heap.* It does if and only if the
  allocation split its tile or took the head of the list: `HeapLaws.RoundTripIff`.
- *A long header line can pass for the end of the headers.* Lines are read in pieces of at most
  `MAXLINE - 1` bytes, and the CR LF of a line whose text fills whole pieces comes up alone. The reader stops
  right after the first empty line if and only if no such line comes before it:
  `RequestHeaders.StopsAfterFirstEmptyLineIff`.
- *Skipping the headers may never end.* It ends if and only if some line is empty or looks so by the cuts
  (`RequestHeaders.EndsSomewhereIff`); on any other stream, one that breaks off too early for one, the loop at
  `multiThreadedWebServer/request.c:48-50` goes on after any number of reads (`RequestHeaders.ReadHeadersFor`).
- *Such a client stops the server.* The headers are read with the lock held
  (`multiThreadedWebServer/server.c:170-191`). Some thread can step if and only if the server is neither idle, nor
  hung in this way, nor has every worker serving a client for ever (`ServerProtocol.SomeThreadCanStepIff`); once it
  reads such a stream nothing is taken or accepted again (`ServerProtocol.NothingMovesBehindReader`), and one
  client is enough to bring it there (`ServerProtocol.OneClientHangsServer`).
- *A block whose children write nothing hangs the shell when a pipe follows.* The shell reads the pipe of which it
  holds the end for writing open itself (`myShell/hw1.c:173`), as on `| ls`, `cd x | ls` or `mkdir d | ls`. When
  every call is granted, a line leaves the shell running if and only if its commands are harmless, no block starts
  too many children, and in every block but the last some child writes: `ShellLines.LineRunsOnIff`, with the inputs
  in `ShellLines.SilentBlockHangs`.
- *The heap map is a true picture only of a canonical list.* The printed lines partition the heap if and
  only if the free list is in address order and maximally merged: `HeapMaps.MapIsPartitionIff`.

## What the model takes as given

- An address is a byte offset from the start of the mapping and `NULL` is -1. The memory is an array of
  headers indexed by offset, so pointer arithmetic is exact; only headers at tile starts are read or
  written. `sizeof(Node)`, `sizeof(FreeList)`, `sizeof(pthread_mutex_t)` and the page size are arbitrary
  positive constants with a page large enough to boot.
- A call of the allocator is one step, since it holds the allocator's lock from its first access to the
  list to its last. Sizes are unbounded: the code compares a request with a block's size before it adds
  anything to it, so no sum over sizes wraps. Only the rounding of the heap size, a C `int`, to whole pages
  can overflow, and `InitMyMalloc` requires that it does not. The answer of `mmap` is a parameter.
- The client keeps to its payloads: the one write the model allows it is any change to bytes that are not
  the header of a tile, and `MyFree` is never passed a pointer to a forged header.
- The producer and the workers step between the semaphore operations; inside the lock, reading the request
  and putting it are one step each, and so is a removal. A connection comes with all that its client ever
  sends, and with file facts from outside: sizes below `LONG_MAX` under SFF and modification times above -1
  under RFF. Requests carry a ticket, the number of their connection, because descriptors are reused. Serving a
  request ends, unless its ticket is in a fixed set of those on which it never does.
- The kernel behind a descriptor is a finite list of decisions: deliver at most so many bytes, be
  interrupted, or fail.
- The system answers each of the shell's calls from a list: granted, interrupted or refused. A child is named
  by the number of its fork, and a fixed set of numbers says which children write nothing. What the children of a
  block write fits the pipe. The words of a command fit the argument array.

## Model

| member | source | states |
|---|---|---|
| HeapModel.TilesAddUpToCapacity | sharedMalloc/src/freeList.c:195-241 | Stepping through the heap by each tile's extent meets all tiles and only tiles, without gap, and their sizes with headers add up to the heap's capacity |
| HeapModel.EveryByteInOneTile | sharedMalloc/src/freeList.c:195-241 | Every byte of the heap belongs to exactly one tile, so no two blocks overlap |
| Placement.AtMostOneChosen | sharedMalloc/src/freeList.c:11-185 | Each strategy's preference singles out at most one tile: best fit the first minimum, worst fit the first maximum, first fit the first, next fit the first in cyclic order from the roving pointer |
| Placement.ChosenIffSuitable | sharedMalloc/src/freeList.c:11-185 | Every strategy has a choice exactly when some free tile is large enough, so all four agree on success in every state |
| Placement.AllocationKeepsInv | sharedMalloc/src/freeList.c:195-241 | Allocation under any strategy keeps the tiling, the duplicate-free list, the headers' marks, the slack bound and a roving pointer that is null or on the list |
| Placement.AllocationKeepsCanonical | sharedMalloc/src/freeList.c:195-241 | Allocation under any strategy keeps the list in address order and maximally merged |
| Placement.AllocationHandsOut | sharedMalloc/src/freeList.c:195-241 | A successful allocation returns a block that was free, with at least the request and at most one header of slack, takes exactly its bytes from the free ones and changes no other live block |
| Placement.AllocationFailsIff | sharedMalloc/src/freeList.c:11-185 | Under every strategy allocation returns null exactly when each free tile is smaller than the request, and then changes nothing |
| Placement.BestFitTakesSmallest | sharedMalloc/src/freeList.c:11-47 | The block best fit returns is no larger than any free tile that is large enough, and smaller than those of them earlier in the list |
| Placement.WorstFitTakesLargest | sharedMalloc/src/freeList.c:57-93 | The block worst fit returns is no smaller than any free tile, and larger than those earlier in the list |
| Placement.FirstFitTakesFirst | sharedMalloc/src/freeList.c:103-127 | No tile earlier in the list than the block first fit returns is large enough |
| Placement.NextFitTakesNext | sharedMalloc/src/freeList.c:137-185 | No tile met from the roving pointer, or without one from the head, round to the block next fit returns is large enough |
| Placement.AllocationLeaves | sharedMalloc/src/freeList.c:195-241 | A block larger than the request by more than a header is cut, its rest takes its place in the list and the roving pointer stands on it; any other leaves the list whole, and the pointer moves to the next entry, round to the head |
| Release.MergedTiling | sharedMalloc/src/freeList.c:280-332 | All four merge cases leave the heap cut into tiles without gap or overlap |
| Release.FreedMerge | sharedMalloc/src/freeList.c:280-332 | A free merges the block with the tile before it, after it, both or neither, according to which of its list neighbours it touches, and with nothing else |
| Release.FreedMembers | sharedMalloc/src/heapAllocator.c:174-240 | After a free the list holds every old tile that was not absorbed and the freed one unless it was absorbed, each once |
| Release.FreedKeepsLive | sharedMalloc/src/heapAllocator.c:174-240 | Exactly the freed block stops being live, and all other live blocks keep address and size |
| Release.FreedKeepsInv | sharedMalloc/src/heapAllocator.c:133-242 | Freeing any live block keeps the allocator's invariant, wherever the search stops and whatever merges |
| Release.RoverStays | sharedMalloc/src/heapAllocator.c:207-238 | After a free the roving pointer is null or on the list, also when the tile it stood on was absorbed |
| Release.RoverAfterFree | sharedMalloc/src/heapAllocator.c:207-238 | The roving pointer stays while its tile is on the list; when the block has absorbed the tile it goes to the list entry before it, or to the block if the tile was the head |
| Release.FreedBytes | sharedMalloc/src/heapAllocator.c:174-240 | A free makes exactly the block's bytes free, header included, and no other byte |
| Release.FreedStaysIncreasing | sharedMalloc/src/heapAllocator.c:184-240 | With the list empty or a free tile above the block, a free keeps the list in address order |
| Release.FreedStaysCoalesced | sharedMalloc/src/freeList.c:280-332 | Under the same condition no two free tiles touch afterwards |
| Release.FreedOutOfOrder | sharedMalloc/src/heapAllocator.c:193-196 | Otherwise the block ends up right before a lower one, at the end of the list |
| Release.FreeKeepsCanonicalIff | sharedMalloc/src/heapAllocator.c:184-240 | A free keeps address order with maximal merging if and only if the list is empty or some free tile lies above the block |
| HeapRuns.RoundedSizeIsEnough | sharedMalloc/src/heapAllocator.c:27-82 | The mapping is the least whole number of pages that holds the requested size, and always large enough for the allocator's own two blocks |
| HeapRuns.BootedIsCanonical | sharedMalloc/src/heapAllocator.c:27-82 | After booting, the heap satisfies the invariant, is canonical, and its only live blocks are the free list's struct and the lock |
| HeapRuns.EveryReachableHeap | sharedMalloc/src/heapAllocator.c:27-242 | On every run of allocations, frees of live pointers and client writes, every heap satisfies the invariant and still holds the allocator's own two blocks |
| HeapRuns.BlockKeepsSizeUntilFreed | sharedMalloc/src/freeList.c:199-228 | On every run a live block keeps its size, between its request and its request plus one header, until it is freed |
| HeapRuns.RunStaysCanonical | sharedMalloc/src/heapAllocator.c:91-242 | On every run whose frees find the list empty or a free tile above, the list stays in address order and maximally merged |
| HeapRuns.CanonicalForm | sharedMalloc/src/heapAllocator.c:91-242 | Two canonical heaps with the same live blocks have the same tiles and the same free list: history and strategies leave no trace |
| HeapRuns.ReclaimedIffCanonical | sharedMalloc/src/heapAllocator.c:133-242 | Once no user block is left, on any run, the heap is again what booting left if and only if the list is in order and maximally merged |
| HeapRuns.FullReclamation | sharedMalloc/src/heapAllocator.c:133-242 | When all user blocks of such a run are freed, in any order and with any mix of strategies, tiles and free list are again what booting left |
| HeapTeardown.FreedStaysBelow | sharedMalloc/src/heapAllocator.c:184-240 | Once the last list entry lies below another one, no later free mends that, whatever merges |
| HeapTeardown.CanonicalIffFoundAbove | sharedMalloc/src/heapAllocator.c:184-240 | While nothing is allocated, a list in order and maximally merged stays so if and only if each free finds it empty or finds a free tile above its block |
| HeapTeardown.TeardownReclaimsIff | sharedMalloc/src/heapAllocator.c:133-242 | Frees that give back every user block of a canonical heap restore what booting left if and only if each of them, when made, finds the list empty or a free tile above its block |
| HeapLaws.RoundTripRestores | sharedMalloc/src/heapAllocator.c:133-242 | Freeing the block just allocated restores tiles and list whenever the tile was split or was the head |
| HeapLaws.RoundTripFailsBetween | sharedMalloc/src/heapAllocator.c:235-238 | When a whole tile between two others was taken, freeing it at once would read through null |
| HeapLaws.RoundTripFailsAtEnd | sharedMalloc/src/heapAllocator.c:193-196 | When the whole last tile was taken, freeing it at once leaves a different list |
| HeapLaws.RoundTripIff | sharedMalloc/src/freeList.c:195-241 | Allocating and freeing at once restores the canonical heap if and only if the allocation split its tile or took the head |
| HeapLaws.LivePointersAreAccepted | sharedMalloc/src/heapAllocator.c:151-172 | No live pointer is rejected by the checks of a free |
| HeapLaws.UserPointersAreFreed | sharedMalloc/src/heapAllocator.c:133-242 | On every run, freeing any pointer the client holds succeeds and frees it, unless the free would read through null |
| HeapLaws.FreesLiveBlocksOnly | sharedMalloc/src/heapAllocator.c:133-172 | A free returns 0 exactly for the payload of a live block; for any other pointer it returns -1 and changes nothing |
| HeapLaws.FreedHeaderStaysInFreeTile | sharedMalloc/src/freeList.c:280-332 | The header of a freed block stays inside one free tile through all later frees and merges |
| HeapLaws.HeadersInFreeTilesAreUntouched | sharedMalloc/src/freeList.c:280-332 | Such a header shares no byte with the header of any other tile, so no list operation overwrites it |
| HeapLaws.DoubleFreeIsRejected | sharedMalloc/src/heapAllocator.c:163-172 | After a free succeeded, freeing the same pointer again returns -1 and changes nothing, after any number of further frees and even when the block was absorbed |
| HeapLaws.ReadThroughNullIsReachable | sharedMalloc/src/heapAllocator.c:230-238 | In any heap with room for four one-byte blocks, a run of four allocations and a free leads to a live pointer whose free would read through null |
| HeapLaws.ReclamationFails | sharedMalloc/src/heapAllocator.c:193-196 | In any heap with room for it, a run of two allocations and two frees ends with no user block and two touching free tiles in the wrong order |
| HeapMaps.MapIsPartitionIff | sharedMalloc/src/heapAllocator.c:249-292 | The printed lines cut the whole heap into non-empty pieces, free and full in turn, if and only if the list is in order and maximally merged |
| HeapMaps.FreeLinesAreFreeTiles | sharedMalloc/src/heapAllocator.c:249-292 | In every state the free lines are exactly the free tiles, in list order and with their full extents |
| FreeLists.FreeList.Split | sharedMalloc/src/freeList.c:195-241 | The link updates in memory take the tile off the list, or cut it and put the rest in its place, and move the roving pointer, for any list position |
| FreeLists.FreeList.BestFit | sharedMalloc/src/freeList.c:11-47 | Hands out the first smallest tile that is large enough, or null exactly when there is none, and the memory then stands for the heap without it |
| FreeLists.FreeList.WorstFit | sharedMalloc/src/freeList.c:57-93 | The same with the first largest tile |
| FreeLists.FreeList.FirstFit | sharedMalloc/src/freeList.c:103-127 | The same with the first tile in list order |
| FreeLists.FreeList.NextFit | sharedMalloc/src/freeList.c:137-185 | The same with the first tile in cyclic order from the roving pointer, or from the head when there is none; null only after all tiles were looked at |
| FreeLists.FreeList.FindPrevNode | sharedMalloc/src/freeList.c:250-268 | Returns the true predecessor on the list, null for the head and for what is not on the list |
| FreeLists.FreeList.CoalesceFreeList | sharedMalloc/src/freeList.c:280-332 | The header updates stand for merging the block with the list neighbours it touches, and the result is null exactly when it lies between two and touches neither |
| FreeLists.ExtremeIsChosen | sharedMalloc/src/freeList.c:11-93 | A running first minimum or maximum over the list is the tile that best or worst fit must take |
| FreeLists.ScanStopsAt | sharedMalloc/src/freeList.c:137-185 | The first suitable tile that the two loops of next fit meet is the one cyclic order prefers to all others |
| FreeLists.CoalescedRepresents | sharedMalloc/src/freeList.c:280-332 | Merging in memory refines merging in the heap, in each of the four cases, with the result the code returns in each |
| HeapAllocators.CoalescedNext | sharedMalloc/src/heapAllocator.c:207-238 | Where the roving pointer stands on the entry behind the block, the merge result is a header, and its next link differs from that entry exactly when the entry was absorbed |
| HeapAllocators.NullReadIff | sharedMalloc/src/heapAllocator.c:230-238 | In memory, the merge returns null with the roving pointer on the entry behind the block exactly in the case named on the heap |
| HeapAllocators.HeapAllocator.constructor | sharedMalloc/src/heapAllocator.c:27-33 | Before booting there is no heap |
| HeapAllocators.HeapAllocator.InitMyMalloc | sharedMalloc/src/heapAllocator.c:27-82 | Boots exactly when not booted, the size is positive and the system maps the memory; then the heap is the booted one with the list struct and the lock at the addresses it hands out; otherwise nothing changes |
| HeapAllocators.HeapAllocator.MyMalloc | sharedMalloc/src/heapAllocator.c:91-124 | Strategy 0 is served by best fit, 1 by worst fit, 2 by first fit and 3 by next fit; any other, or an unbooted heap, gets null and changes nothing |
| HeapAllocators.HeapAllocator.MyFree | sharedMalloc/src/heapAllocator.c:133-242 | Rejects exactly what the heap's marks say it must, unchanged, and otherwise the memory stands for the freed heap; the search never leaves the list |
| HeapAllocators.HeapAllocator.DumpFreeList | sharedMalloc/src/heapAllocator.c:249-292 | Yields the heap map of the current state, and nothing before booting |
| RequestRings.PutAppends | multiThreadedWebServer/server.c:185-189 | A put into a ring that is not full fills an empty slot and appends to the sequence the ring stands for |
| RequestRings.ShiftMovesUp | multiThreadedWebServer/server.c:68-83 | The cyclic shift moves each request behind the start one place up and no other, wherever the ring wraps |
| RequestRings.RemoveRemoves | multiThreadedWebServer/server.c:139-150 | Removing at any position, from a ring however full and however wrapped, drops that request and keeps the others in order |
| RequestRings.ShiftRemovesIff | multiThreadedWebServer/server.c:68-83 | The shift alone, from any queued position, removes that request and keeps the rest in order if and only if it is not the only request of a ring of more than one slot |
| RequestRings.AtMostOnePicked | multiThreadedWebServer/server.c:99-121 | A policy singles out at most one queued request, ties going to the lower slot |
| RequestRings.ScanFindsPick | multiThreadedWebServer/server.c:99-121 | With some eligible request, the scan over all slots settles on an occupied one, the one the policy picks |
| RequestRings.PickIsSmallest | multiThreadedWebServer/server.c:112-120 | Under SFF the request picked is no larger than any queued one, and smaller than those in lower slots |
| RequestRings.PickIsLatest | multiThreadedWebServer/server.c:102-111 | Under RFF the file of the request picked is no older than that of any queued one, and newer than those in lower slots |
| RequestRings.RequestBuffer.constructor | multiThreadedWebServer/server.c:201-207 | The ring starts empty |
| RequestRings.RequestBuffer.QueuePut | multiThreadedWebServer/server.c:185-189 | Appends the request and overwrites no queued one |
| RequestRings.RequestBuffer.ShiftQueueLeft | multiThreadedWebServer/server.c:68-83 | The in-place loop ends and leaves the shifted slots, head and tail |
| RequestRings.RequestBuffer.SelectTarget | multiThreadedWebServer/server.c:98-121 | FIFO takes the head slot, SFF the lowest occupied slot of least size, RFF the lowest of latest time, and both -1 only when every size is `LONG_MAX` or every time at most -1 |
| RequestRings.RequestBuffer.TakeRequest | multiThreadedWebServer/server.c:98-150 | Returns the oldest request under FIFO, one of least size under SFF, one of latest time under RFF, and removes it and it alone, the rest keeping their order |
| ServerProtocol.EveryReachableState | multiThreadedWebServer/server.c:92-225 | Under every interleaving: one thread at most holds the lock; posted, claimed and unposted requests account for the ring's count; free, occupied, reserved and unreturned slots add up to the ring's size; every ticket is in one place |
| ServerProtocol.PutFindsRoom | multiThreadedWebServer/server.c:167-193 | No put hits an occupied slot |
| ServerProtocol.TakeFindsRequest | multiThreadedWebServer/server.c:92-150 | No take runs on an empty ring or without an eligible request |
| ServerProtocol.EachConnectionInOnePlace | multiThreadedWebServer/server.c:92-225 | In every reachable state each accepted connection is exactly once with the producer, in the ring, with a worker or closed, and none that was not accepted is anywhere |
| ServerProtocol.HeldByOneWorkerOnly | multiThreadedWebServer/server.c:123-158 | No request is handed to two workers, and none a worker holds is still queued or already closed |
| ServerProtocol.PickExists | multiThreadedWebServer/server.c:98-121 | Every policy has a pick in any ring of eligible requests that is not empty |
| ServerProtocol.SomeThreadCanStepIff | multiThreadedWebServer/server.c:92-225 | With at least one worker, a reachable state lets some thread step if and only if it is neither quiet (ring empty, producer waiting for a connection, workers waiting for work or serving for ever), nor are all workers serving for ever, nor is it hung (producer reading headers that never end, all workers held up behind it or serving for ever) |
| ServerProtocol.NothingMovesBehindReader | multiThreadedWebServer/server.c:170-191 | Once the producer reads headers that never end, no request is taken and no connection accepted again, on any continuation |
| ServerProtocol.OneClientHangsServer | multiThreadedWebServer/server.c:167-193 | From any start, one client whose headers never end brings the server to the hung state |
| ServerProtocol.BrokenRequestHangsServer | multiThreadedWebServer/server.c:167-193 | The bytes of a request line and one header line, and nothing after them, are such a stream: from any start they hang the server |
| ServerProtocol.LogsGrow | multiThreadedWebServer/server.c:92-193 | What was put and what was taken is never revised later in a run |
| ServerProtocol.FifoKeepsOrder | multiThreadedWebServer/server.c:100-101 | Under FIFO requests are taken in the order they were put, and one with k ahead of it is the (k+1)-th to be taken from then on |
| ServerProtocol.StepsAreWork | multiThreadedWebServer/server.c:92-225 | On any stretch of a run, the number of steps is at most the work there was at first plus thirteen for each connection accepted meanwhile |
| ServerProtocol.TakesGoOn | multiThreadedWebServer/server.c:92-193 | Under every policy, once a run has gone on for a number of steps that the state alone bounds, as many requests have been taken as the ring held |
| ServerProtocol.FifoServesEach | multiThreadedWebServer/server.c:100-101 | Under FIFO nothing starves: each queued request is itself taken within that number of steps, after those ahead of it, however the threads are scheduled and whoever connects meanwhile |
| ServerProtocol.ServerDrains | multiThreadedWebServer/server.c:92-193 | From any reachable state in which no client holds up a thread, steps of the threads alone, at most as many as there is work, close every accepted connection and leave the server quiet |
| RioReaders.PatchedHolds | multiThreadedWebServer/blg312e.c:344 | Bytes delivered to a place in a buffer stand there, and all around them is as before |
| RioReaders.LineLengthIsExact | multiThreadedWebServer/blg312e.c:398-410 | A line holds no newline before its last byte, and ends at a newline, at the cut or at the end of the stream |
| RioReaders.Rio.constructor | multiThreadedWebServer/blg312e.c:355-360 | A fresh reader has delivered nothing and owes the whole source |
| RioReaders.Rio.Refill | multiThreadedWebServer/blg312e.c:327-338 | Through any interrupts and short reads, refilling loses and repeats no byte of the stream |
| RioReaders.Rio.Read | multiThreadedWebServer/blg312e.c:323-348 | Delivers a next piece of the stream, empty only at its end; a failed read delivers nothing and loses nothing |
| RioReaders.Rio.ReadNb | multiThreadedWebServer/blg312e.c:367-386 | Without read errors, delivers exactly the next n bytes, or all that is left, whatever the kernel's short reads and interrupts |
| RioReaders.Rio.ReadLineB | multiThreadedWebServer/blg312e.c:393-413 | Delivers the next line, cut at the buffer, and a NUL; returns its length after a newline, 0 at the end of the stream, and one more than its length otherwise |
| RequestHeaders.ComparisonSeesLine | multiThreadedWebServer/request.c:48 | Comparing the C string in the reused buffer tells exactly whether the piece just read is CR LF, whatever older bytes lie behind it |
| RequestHeaders.ReadHeaders | multiThreadedWebServer/request.c:43-52 | Consumes the stream up to and including the first piece that is just CR LF |
| RequestHeaders.ReadHeadersFor | multiThreadedWebServer/request.c:43-52 | After any number of reads, the loop has ended exactly if a piece that is just CR LF comes up within them, and then it has consumed the stream up to it; on other streams it never ends |
| RequestHeaders.EndsSomewhereIff | multiThreadedWebServer/request.c:43-52 | The skipping ends on a stream if and only if some line of it is empty, or fills whole buffers up to its CR LF |
| RequestHeaders.StopsAfterFirstTaken | multiThreadedWebServer/request.c:43-52 | Wherever the skipping ends, that is right after the first line that is empty or comes up as a bare CR LF by the cuts |
| RequestHeaders.HeadersEndIff | multiThreadedWebServer/server.c:173-183 | The headers of a connection end if and only if, behind the first piece read, some line is empty or comes up as a bare CR LF by the cuts |
| RequestHeaders.ReadRequest | multiThreadedWebServer/server.c:173-183 | Reading the request line and then headers has ended within as many reads as there are bytes exactly if the headers end, and otherwise never does |
| RequestHeaders.BrokenRequestNeverEnds | multiThreadedWebServer/request.c:48-50 | On the bytes of a request line and one header line the headers never end; with CR LF after them they do |
| RequestHeaders.BrokenOffNeverEnds | multiThreadedWebServer/request.c:48-50 | On a stream that breaks off after header lines that fit the buffer, it never ends |
| RequestHeaders.StopsAfterFirstEmptyLineIff | multiThreadedWebServer/request.c:43-52 | If there is an empty line the loop ends, and it leaves the stream right after the first one if and only if no earlier line fills whole buffers up to its CR LF |
| RequestHeaders.StopsAfterFirstEmptyLine | multiThreadedWebServer/request.c:43-52 | With header lines that fit the buffer, the stream is left right after the first empty line |
| RequestHeaders.LongLineEndsHeaders | multiThreadedWebServer/request.c:45-50 | A header line whose text is exactly the buffer's room ends the skipping although no empty line is there |
| ShellText.TrimmedIsMiddle | myShell/hw1.c:107-129 | Trimming takes all spaces off both ends and nothing else |
| ShellText.Trim | myShell/hw1.c:107-129 | The buffer then holds the trimmed string as a C string, and nothing outside the old one changes |
| ShellText.TokensOfWord | myShell/hw1.c:136-152 | What lies between leading blanks and the next blank or the end is the first word, and the words of the remainder are the rest |
| ShellText.StrTok | myShell/hw1.c:142-148 | Each call cuts off the next word in place and leaves the words of the remainder, or says there is none |
| ShellText.ParseCommand | myShell/hw1.c:136-152 | The arguments point to the words of the command, in order, as C strings inside the overwritten buffer |
| ShellHistory.Queue.IsEmpty | myShell/queue.c:10-12 | True exactly when the queue holds no entry |
| ShellHistory.Queue.Enqueue | myShell/queue.c:14-27 | Appends to the entries the linked nodes hold |
| ShellHistory.Queue.Dequeue | myShell/queue.c:29-46 | Takes the oldest entry off, and from an empty queue none |
| ShellLines.RunUpToSemicolon | myShell/hw1.c:312-317 | Running a line from left to right and ending a command at a semicolon agrees with splitting the whole line first |
| ShellLines.RunUpToPipe | myShell/hw1.c:318-328 | The same at a pipe, where the block's children are awaited and its output captured |
| ShellLines.RunToEnd | myShell/hw1.c:332-333 | The same for the last command of the line |
| ShellLines.HistoryGrowsByCommands | myShell/hw1.c:186-197 | While the shell keeps running, a line adds exactly its trimmed pieces between the separators to the history, without the blank ones, in order |
| ShellLines.LineRunsItsCommands | myShell/hw1.c:286-338 | While the shell keeps running, a line carries out exactly its commands, in order: it changes to the directories they name and starts their programs with their words, each in its block |
| ShellLines.LineRunsOnIff | myShell/hw1.c:186-338 | When the system grants every call, a line leaves the shell running if and only if no command quits it or changes to no directory, no block starts more children than there is room for, and in every block but the last some child writes something |
| ShellLines.SilentBlockHangs | myShell/hw1.c:171-178 | A first block none of whose children writes, because it starts none or because all are silent, with a pipe after it leaves the shell waiting for its output for ever |
| ShellLines.SilentCommandHangs | myShell/hw1.c:171-178 | A single program that writes nothing in front of a pipe does so |
| ShellLines.LeadingPipeHangs | myShell/hw1.c:318-328 | Any line that starts with a pipe does so too |
| ShellLines.LineAwaitsItsChildren | myShell/hw1.c:308-333 | Wherever a line starts a child, every child outstanding belongs to the same block, and the captures so far number that block; the child is flagged first if and only if no capture and so no pipe came before it in the line, and last if and only if as many did as the line has pipes; every capture finds no child outstanding; a line that is done has captured once for each pipe, and neither it nor one that quits leaves a child behind |
| ShellLines.AwaitingAwaitsAll | myShell/hw1.c:79-91 | Waiting for the recorded children, in order and again when interrupted, leaves none of them outstanding |
| ShellLaws.CommandByWords | myShell/hw1.c:186-228 | By its words: a blank command does nothing; `cd` changes to the directory its second word names, and ends the shell without one or when the change fails; `quit` waits for all children of its block and quits; any other is forked with its words, unless there are 128 children or the fork fails |
| ShellLaws.UnrefusedWaitsEnd | myShell/hw1.c:79-91 | However often they are interrupted, waits none of which fails go through all children in order |
| ShellLaws.WaitFailsIff | myShell/hw1.c:79-91 | Waiting gives up if and only if a call is refused before as many have been granted as there are children |
| ShellLaws.LineQuitsIff | myShell/hw1.c:214-218 | When the system grants every call, a line quits the shell if and only if one of its commands is `quit` and nothing before that stops the shell |
| ShellLaws.EachEventWasGranted | myShell/hw1.c:58-338 | A line that leaves the shell running has met no refusal, and each fork, wait, capture and change of directory, with the pipe it begins with, was one call granted |
| ShellProcesses.ShellProcess.WaitForAllChildProcesses | myShell/hw1.c:79-91 | Waits for each recorded child in order, again when interrupted, and forgets them; gives up at the first wait that fails |
| ShellProcesses.ShellProcess.CreateChildProcess | myShell/hw1.c:58-74 | Records one more child, or gives up exactly when there are 128 or the fork fails; a child that is not silent, in a block before a pipe, leaves output in the pipe |
| ShellProcesses.ShellProcess.CopyProcessOutputToBuffer | myShell/hw1.c:171-178 | Reads the block's output; waits for ever when nothing was written, and gives up when the read fails |
| ShellProcesses.ShellProcess.ExecuteCommand | myShell/hw1.c:186-280 | Does what the text of the command means although it is trimmed and cut up in place, and changes no character outside it |
| ShellProcesses.ShellProcess.ExecuteLine | myShell/hw1.c:286-338 | Does what the original line means, although the commands found in it overwrite it on the way, and leaves the flags as for a next line |

## Left out

- Removing the mapping, the address getter, page-size lookup and the sharing of the mapping between
  processes: they change no tile.
- Forged headers and client writes into the headers of tiles: the allocator cannot keep anything against
  them, so `MyFree` is only passed pointers whose marked header belongs to a live block, or that it rejects.
- The bytes of a header as they lie in memory: a header is one cell at its offset. That headers do not
  overlap is proved apart, as disjointness of the tiles and, for absorbed headers, as
  `HeapLaws.HeadersInFreeTilesAreUntouched`.
- Locking within an allocator call, and the short stretch before the lock is taken: a call is one step.
- `rio_readn` and `rio_writen`: retry loops without a buffer, which would only add easy members.
- RequestHeaders.ReadHeaders: requires that a piece that is just CR LF comes up, since the loop of the source
  does not end otherwise, which `RequestHeaders.ReadHeadersFor` proves without that requirement; and that no
  read fails, since its wrapper then ends the process.
- RequestHeaders.ReadHeadersFor: takes the source's uninitialised buffer not to hold an empty line by chance.
- Release.FreedKeepsInv: does not cover the free that reads through null, which has no defined outcome.
- HeapAllocators.HeapAllocator.InitMyMalloc: requires that rounding the size to pages stays within an `int`,
  since the overflow has no defined outcome in C.
- HeapAllocators.HeapAllocator.MyFree: requires that the free does not read through null, and that the header
  it would read lies inside the mapping, because the source's upper bound check admits one that does not.
- Parsing the request line, looking up the file, handling a request and writing the response: input and
  output around the ring. A put takes the file facts as given.
- RequestRings.RequestBuffer.TakeRequest: requires an eligible request, because the source indexes the queue
  with -1 otherwise; `ServerProtocol.TakeFindsRequest` proves that none is missing while all are eligible.
- The copy of a request's reader when it is taken or shifted: its internal pointer keeps pointing into the
  old slot, but nothing reads from it afterwards.
- Fairness of SFF and RFF: the code promises none, so under them it is bounded how many requests are taken, not
  which.
- What children compute, redirection, the capacity of a pipe and what is in it: events of the trace stand for
  them, and of the pipe only whether anything is left to read.
- ShellText.ParseCommand: requires fewer than 64 words, since the source writes past its argument array
  otherwise.
- ShellProcesses.ShellProcess.ExecuteLine: requires fewer than 64 words a command, for the same reason.
- Printing of the history and of the queue, prompts, modes and argument parsing, the memory of a dequeued
  node.
- `RoundToPages`, `HandOut`, `ReadPiece`, `SkipSpaces`, `LastKept`, `MoveDown`, `RunParsed`, `WaitForChild`,
  `OpenPipe`, `PassCharacter`, `AtSemicolon`, `AtPipe`, `LastPiece`, `EndAndExecute` and `EndBlock` are parts of
  the source's functions made methods of their own, to keep each proof small.
