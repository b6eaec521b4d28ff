# FTJ simulator: a verified model

This project models, in Dafny, the parts of the ferroelectric-memory simulator where a mistake loses data,
and proves what those parts promise. `dafny verify dfyconfig.toml` checks all of it.

| files | what they model |
|---|---|
| `Ecc.dfy` | the (72,64) Hamming code of the storage engine: encoder, decoder, and exactly which errors it survives |
| `Bits.dfy`, `MpmcRing.dfy`, `RingProgress.dfy`, `OneSlotRing.dfy` | the lock-free multi-producer multi-consumer ring, as a transition system of any number of threads: its safety, when it refuses and how a thread gets through, and what one slot can still be used for |
| `QueueBenchmark.dfy`, `BenchmarkProgress.dfy`, `RingQueue.dfy`, `RingBenchmark.dfy` | the client and worker loops over two queues, how they get to their end, and the loops over two such rings step by step |
| `Splices.dfy`, `PageStore.dfy`, `FtlMaps.dfy`, `FtlLedger.dfy`, `FtlPolicy.dfy`, `FtlSound.dfy`, `Ftl.dfy`, `FtlRuns.dfy` | the flash translation layer: pages with codes, mapping tables, its bookkeeping as a value, its choices of page and victim, allocation, garbage collection, reads and writes, whole runs |
| `FtlRewriteRun.dfy`, `FtlLosingRun.dfy` | runs that collect and lose nothing, and a run of accepted requests that reads back another page |
| `Coalescer.dfy`, `CoalescerRun.dfy` | the write-coalescing staging buffer in front of it, and the two together |
| `NameOrder.dfy`, `PathTree.dfy`, `Memfs.dfy`, `MemfsRun.dfy` | the in-memory file system's name order, its sorted map of reference-counted nodes, its operations, and whole runs of them |
| `FileData.dfy` | a file's buffer: reallocation, truncation, growth, reads and writes |
| `SubmissionQueue.dfy`, `AxiController.dfy`, `AxiTransactions.dfy`, `AxiRemapRun.dfy` | two clocked machines, the hardware FIFO and the AXI controller, the second against a watcher of its pins, and a run of it |

Code that works in place is a class with the source's fields and loops (`FTJController`, `BurstCoalescer`, `Memfs`,
`FileNode`, `SubmissionQueue`, `TopController`). Each of its methods is tied to a function of the old state, and what
the source promises is proved about those functions and the invariants. The ring and the benchmark, whose point is
interleaving, are transition systems: one event is one atomic step of one thread, a run is any sequence of events, and
a weak compare-and-swap may fail for no reason. A clocked module's `Tick` reads every register as it was before the
edge, as nonblocking assignments do.

Words and bytes are sequences and records of bits, so the code-distance arguments are combinatorial.

The storage engine's tables, free lists and write counters are one value, a `FtlLedger.Ledger`, and every method of
`FTJController`, collections included, leaves exactly the ledger that a function of the old one gives, in every state.
Two history variables say how far the bytes can be trusted. `intact`: no page that holds data has ever been handed out.
`sane`: no free page has ever been listed twice. Claims about the whole store's contents are made under `intact`.
Each survives an operation if and only if a condition on the ledger before it holds. For `intact` it is that no
allocation the operation makes takes a page marked valid (`FtlLedger.SafeTake` and what is built on it up to
`FtlLedger.SafeWrite`). For `sane` it is that every collection pass is clean: once the victim's valid pages have been
moved, none of its pages is on a free list (`FtlLedger.CleanPass` up to `FtlLedger.CleanWrite`). The second implies the
first (`FtlSound.WriteSound`).

## Findings

Where a promised property does not hold, the code is modelled as it is, a concrete case is given, and the exact
condition is proved.

- The repository's README.md line 214 promises that every single-bit error is corrected and every double-bit error
  detected. The encoder does have distance four (`Ecc.CodeDistanceFour`), but the decoder recomputes the overall parity
  from the received data. A flipped data bit is repaired exactly when its position number has an even count of ones
  (`Ecc.OneDataFlip`). For every pair of flips among the 72 bits `Ecc.TwoFlipsExactly` says when it is announced: two
  data bits when the XOR of their positions has an even count of ones; a data bit with check bit 7 when its position
  has, and with another check bit when it has not; two check bits unless one is bit 7. All other pairs are reported as
  corrected, and then the word is wrong unless no data bit was hit or the other flip was bit 7. `Ecc.SecdedFails` gives
  three failing inputs for every word. In a read, a chunk whose stored word has two flips is never returned right, and
  it is announced exactly in the first of these cases (`Ftl.FTJController.TwoFlipsSeen`).
- A ring of one slot is unsafe (`MpmcRing.OneSlotIsUnsafe`); a ring is safe on all runs exactly when it has at least
  two (`MpmcRing.SafeExactlyFromTwoSlots`). The benchmark's first queue depth, 1 (src/main.cpp:413), makes such rings.
  It gets away with it: with its one client every push begins over a quiet ring, and such runs are faithful on one slot
  (`OneSlotRing.SerialRunSafe`). At every queue depth each run of its threads over the rings is a run over atomic queues
  (`RingBenchmark.RunRefines`).
- Erasing a block lists again the pages of it that were already free. The lists stay free of duplicates exactly when
  none was (`Ftl.FTJController.EraseKeepsListsExactlyWhen`). Nothing is lost by that alone. One segment written from an
  intact store leaves every page as it should be if and only if the page it is handed holds nothing
  (`FtlMaps.SeenRightExactly`): if it is another logical page's, that one reads as the new bytes from then on, and if
  it is the written page's own, that reads as zeros, and only contents that happen to agree hide it. A run is answered
  rightly up to the first request that is handed such a page (`FtlRuns.ReplayCollecting`).
  `FtlLosingRun.LosingRun` is 499 accepted page writes to a 2 MiB store, after which a read of page 0 succeeds with the
  bytes of page 249. The 488th collects uncleanly, and only the last is handed a page in use
  (`FtlLosingRun.OnlyTheLastSteals`).
- The hot counter's saturation has no effect: the sum wraps at 32 bits before the minimum is taken
  (src/ftj_engine.cpp:522), so at 2^32 - 1 the page turns cold (`FtlLedger.HeatNeverSaturates`). Already at 2^31 - 1 the
  cast to int makes the next write lower its block's score by nearly 2^32, so the hottest page's block is collected
  first (`FtlPolicy.ScoreOfHeat`).
- A store of fewer than five blocks does not keep its zones: its first block starts on the hot list and comes back on
  the cold one (`FtlPolicy.ZonesKeptExactlyWhen`).
- `BurstCoalescer::PushWrite` is documented to refuse when the buffer is full (include/ftj_engine.hpp:336). It never
  does: a second page that falls into a dirty slot is merged into the first page's bytes and is written to the first
  page's address (`Coalescer.FlushExactly`). `CoalescerRun.CollisionRun` is such a run, for every depth: both writes
  are accepted, the first page reads back as the second's bytes and the second as zeros. A write that crosses a page is
  cut off at the page's end and reported as accepted, and a staged page whose flush fails is dropped
  (`Coalescer.FlushExactlyAccepted`).
- The benchmark's workers can leave their loop only if the number of clients divides the number of operations
  (`QueueBenchmark.WorkersLeaveExactlyWhen`). The failure is latent: the queue depths that the program runs give 1, 4
  or 8 clients, all of which divide 50000, so all its workers leave (`QueueBenchmark.BenchmarkWorkersLeave`).
- The submission queue raises `full` with one slot to spare after a push and a pop in the same clock
  (`SubmissionQueue.EarlyFullExactlyWhen`).
- The AXI controller's free-block counter is ten bits wide, so its reset value 1024 is 0. After each reset it therefore
  erases 100 times before it accepts a request and never again (`AxiController.OneResponseEach`), each time block 0
  (`AxiController.VictimIsBlockZero`). A wear remap maps the first page whose block was never programmed to the worn
  block too (`AxiController.RemapAliasesExactly`); `AxiRemapRun.ARunThatAliases` is a run of writes to address 0 after
  which pages 0 and 1 share a block.
- A ring of requested size 0 passes the power-of-two test and has no cells (`MpmcRing.RoundedSize`).
- A requested maximum file size above 2^32 - 512 rounds to 0 (`FileData.RoundedMaxFileSize`).

## Model

| member | source | states |
|---|---|---|
| Ecc.PositionsSkipPowersOfTwo | src/ftj_engine.cpp:302-311 | the data bits' position numbers rise strictly from 3 to 71 and are exactly the numbers up to 71 that are no power of two |
| Ecc.CalculateECC | src/ftj_engine.cpp:297-334 | the mask-and-parity loops compute the position code: the low seven bits are the XOR of the positions of the set data bits, the eighth is the parity of everything |
| Ecc.RowParity | src/ftj_engine.cpp:300-324 | the parity of the data under the mask of check bit i is bit i of the XOR of the set positions, for any length of data |
| Ecc.CodeOfOneBit | src/ftj_engine.cpp:297-324 | the check byte of a word with one data bit spells that bit's position, lowest digit first |
| Ecc.EncodeLinear | src/ftj_engine.cpp:297-334 | the code of an XOR of two words is the XOR of their codes |
| Ecc.MinimumWeight | src/ftj_engine.cpp:297-334 | every non-zero word has, with its code, at least four ones |
| Ecc.CodeDistanceFour | src/ftj_engine.cpp:297-334 | two different words differ, codes included, in at least four of the 72 bits |
| Ecc.DecodeAndCorrect | src/ftj_engine.cpp:336-372 | the decode loop gives the verdict and the word of the decoding function, which `Ecc.DecodeExactly` characterises on all inputs |
| Ecc.CleanExactlyOnCodewords | src/ftj_engine.cpp:341-343 | the decoder reports no error exactly when the stored check byte is the word's own code |
| Ecc.DecodeExactly | src/ftj_engine.cpp:336-372 | for any word and any check byte: uncorrectable exactly if it is no codeword though its parity bit is the word's own; a corrected word is the one that differs in one data bit and has the stored low check bits, if there is one, and else the word itself; otherwise the data is left alone |
| Ecc.FewFlipsNeverClean | src/ftj_engine.cpp:336-343 | after one, two or three flips anywhere in the 72 bits the decoder never reports a clean word |
| Ecc.DecodeSeesOnlyTheError | src/ftj_engine.cpp:336-372 | the verdict and the change made to the data depend on the error pattern only, never on the stored word |
| Ecc.OneDataFlip | src/ftj_engine.cpp:345-371 | one flipped data bit is repaired exactly when its position has an even count of ones, and is reported as uncorrectable otherwise |
| Ecc.OneCheckFlip | src/ftj_engine.cpp:345-371 | one flipped check bit leaves the data alone; it is reported as uncorrectable except for bit 7, which reads as corrected |
| Ecc.OneFlipNeverMiscorrects | src/ftj_engine.cpp:336-372 | after one flip anywhere, verdict 1 always comes with the original data |
| Ecc.TwoDataFlips | src/ftj_engine.cpp:345-371 | two flipped data bits are reported as uncorrectable exactly when the XOR of their positions has an even count of ones, and otherwise come back wrong as corrected |
| Ecc.DataAndCheckFlips | src/ftj_engine.cpp:345-371 | a flipped data bit with a flipped check bit is never clean; with bit 7 it is uncorrectable exactly when the position has an even count of ones and else right, with another bit exactly when it has not and else wrong |
| Ecc.TwoFlipsExactly | src/ftj_engine.cpp:336-372 | for every word and every received pair at distance two: never clean, uncorrectable exactly by the parity of the flipped positions and check bit 7, the data then left alone, and a corrected word right exactly if no data bit was hit or the other flip was check bit 7 |
| Ecc.SecdedFails | README.md:214 | for every word: a flipped data bit that is not corrected, and two pairs of flips, one of them with a check bit, that come back wrong as corrected |
| MpmcRing.RoundedSize | include/ftj_engine.hpp:209-217 | the ring's size is the least power of two that is at least the request, and 0 for a request of 0 |
| MpmcRing.InvStep | include/ftj_engine.hpp:227-269 | every atomic step of every thread keeps the ring invariant: positions within one lap, each slot's sequence, ticket and data tied to the one thread that may touch it |
| MpmcRing.SlotIsExclusive | include/ftj_engine.hpp:244-267 | two threads are never both between their winning swap and their sequence store on one slot |
| MpmcRing.TicketsOnce | include/ftj_engine.hpp:227-269 | each ticket is claimed by one push and one pop, and each ticket below the dequeue position is received or being copied out by exactly one thread |
| MpmcRing.EveryRunSafe | include/ftj_engine.hpp:227-269 | in every interleaving of any number of threads on two or more slots, the pop with ticket k returns exactly the entry pushed with ticket k, whole, and nothing is lost or duplicated |
| MpmcRing.SequencesNeverDecrease | include/ftj_engine.hpp:244-267 | no step lowers a slot's sequence number |
| MpmcRing.PushRefusedExactlyWhen | include/ftj_engine.hpp:230-243 | at its look at the slot Push decides for false exactly when its ticket is the next one and the pop of that ticket less the size is unfinished, and for a reload exactly when its ticket is taken; `RingProgress.RefusedOnly` shows that no other step decides for false |
| MpmcRing.PopRefusedExactlyWhen | include/ftj_engine.hpp:252-265 | Pop returns false exactly when its ticket is the next one and the push of that ticket is unfinished or not begun; it reloads only when its ticket is taken |
| RingProgress.RefusedOnly | include/ftj_engine.hpp:227-269 | whatever step is made, a Push turns to its refusal only at its own look at a slot, with its ticket the next one and the pop one lap back unfinished, and a Pop only with its ticket the next one and the push of it unfinished or not begun |
| RingProgress.RunRefusedOnly | include/ftj_engine.hpp:227-269 | the same at every step of every run of any threads on two slots or more |
| RingProgress.PushAlone | include/ftj_engine.hpp:227-248 | a thread anywhere in Push that goes on alone, with the next slot given back, is done after exactly the steps it has left: its entry is the queue's last, or where it had claimed its place, and no other thread and no pop is affected |
| RingProgress.PopAlone | include/ftj_engine.hpp:250-269 | a thread anywhere in Pop that goes on alone, with the next entry published, is done after exactly the steps it has left, with the entry at the head or the one it had claimed, and nothing else changed |
| RingProgress.PushCall | include/ftj_engine.hpp:227-248 | a Push called alone with room returns true after the entry's length and three steps, with the entry appended and published |
| RingProgress.PopCall | include/ftj_engine.hpp:250-269 | a Pop called alone with a published entry at the head returns it after the entry's length and three steps |
| RingProgress.RefusedCalls | include/ftj_engine.hpp:227-269 | called without room, or with nothing published at the head, each looks once, answers false and leaves everything as it was |
| MpmcRing.LostRaceMeansClaimed | include/ftj_engine.hpp:235-237 | a compare-and-swap that fails other than spuriously means another thread has claimed the ticket |
| MpmcRing.StepIsQueueStep | include/ftj_engine.hpp:227-269 | every step is a step of an atomic bounded queue: a winning push swap appends, a winning pop swap removes the head it will return, nothing else changes the queue |
| MpmcRing.OneSlotIsUnsafe | include/ftj_engine.hpp:234-245 | a run of two threads on one slot in which the pop of ticket 0 returns the entry of ticket 1 |
| MpmcRing.SafeExactlyFromTwoSlots | include/ftj_engine.hpp:227-269 | all runs are faithful if and only if the ring has at least two slots |
| OneSlotRing.SerialRunSafe | include/ftj_engine.hpp:227-269 | on one slot every run in which each push begins with the ring empty and no push or winning pop under way is faithful, and no push of it is refused, whatever pops are tried meanwhile |
| OneSlotRing.SerialStepIsQueueStep | include/ftj_engine.hpp:227-269 | in such runs each step is a step of an atomic queue of one entry |
| RingQueue.GoodStep | include/ftj_engine.hpp:227-269 | on a ring of any size, if pushes on one slot begin in quiet, each step of a thread is a step of an atomic queue and leaves the other threads where they are |
| QueueBenchmark.StepInv | src/main.cpp:433-511 | each atomic step of a client, a worker or the main thread keeps every request in exactly one place: a client, a queue, a worker, or reaped; a push claims its place in one step and publishes in a later one, and a pop waits for the head to be published |
| QueueBenchmark.RunInv | src/main.cpp:433-511 | that holds in every state of every run |
| QueueBenchmark.OutstandingBounded | src/main.cpp:461-498 | outstanding requests never exceed the clients, and are the requests in the two queues, in clients' hands and with workers, counted once each |
| QueueBenchmark.PushAlwaysFits | src/main.cpp:446-486 | a client about to submit and a worker about to complete find fewer requests queued than there are clients |
| QueueBenchmark.RoomToDraw | src/main.cpp:469-471 | the clients' early exit on a request number past the total is never taken |
| QueueBenchmark.ReapedOnce | src/main.cpp:488-497 | a reaped request stays reaped, and becomes so in one counting step of the client that popped it |
| QueueBenchmark.ExitOnlyWhenDrained | src/main.cpp:435-452 | a worker that has left its loop leaves both queues empty and every request reaped |
| QueueBenchmark.WorkersLeaveExactlyWhen | src/main.cpp:435-462 | once stopped, a worker's exit test succeeds if and only if the clients divide the operations evenly |
| QueueBenchmark.BenchmarkWorkersLeave | src/main.cpp:409-462 | at every queue depth that the program runs, with its 50000 operations, each stopped worker leaves |
| BenchmarkProgress.SomeThreadGoesOn | src/main.cpp:433-498 | with a worker, in every reachable state in which a client is not done some thread can make a step other than an empty-handed poll: no deadlock |
| BenchmarkProgress.CanFinish | src/main.cpp:433-498 | from every reachable state a run can be continued until every client is done, by at most as many steps as its measure of the work left |
| BenchmarkProgress.StoppedWorkerLeaves | src/main.cpp:435-462 | once stopped, with operations that the clients divide evenly, a worker leaves after at most three steps of its own, and no other thread is needed |
| BenchmarkProgress.TestsBetweenPolls | src/main.cpp:435-456 | in every run a worker makes its loop test between any two of its polls |
| QueueBenchmark.OneClientPushesInQuiet | src/main.cpp:433-511 | with one client, which is queue depth 1, a push by the client or a worker begins only when that queue is empty, no push to it is unpublished and no pop of it is unfinished |
| RingBenchmark.StepRefines | src/main.cpp:433-511 | each atomic step of a client or a worker, those inside the two rings included, is at most one enabled step of the benchmark over queues and leads to matching states: ring contents are the encoded queues, and each thread stands and holds what it should |
| RingBenchmark.RunRefines | src/main.cpp:411-511 | every run of the threads over the rings, with one slot only if there is one client, is a run over queues ending in a matching state |
| RingBenchmark.HandsHoldRequests | src/main.cpp:436-497 | in every such run what a worker serves is the whole entry of a request that was drawn, and what a client counts is the whole completion of one |
| RingBenchmark.ExitedMeansDrained | src/main.cpp:435-452 | in every such run a worker that has left its loop leaves both rings empty and every request reaped |
| PageStore.ByteOfWordOf | src/ftj_engine.cpp:443-477 | eight bytes copied into a word and taken out again one by one are the same bytes |
| PageStore.LittleEndian | src/ftj_engine.cpp:443-444 | of the word that eight bytes are copied into, the first byte is the least significant |
| PageStore.CopyPage | src/ftj_engine.cpp:538-546 | a page and its codes are copied whole, and no other page or code changes |
| PageStore.ClearPage | src/ftj_engine.cpp:548-551 | a cleared page is all zeros with codes that match, and no other page or code changes |
| PageStore.StoreBytes | src/ftj_engine.cpp:554-565 | writing into a page splices the data in, and recomputing the codes of the touched chunks alone leaves all the page's codes matching |
| PageStore.DecodeUnderNoise | src/ftj_engine.cpp:443-472 | reading a stored word with at most one flipped bit reports it or returns the stored word; with none it is clean |
| PageStore.ResidueOfFew | src/ftj_engine.cpp:443-472 | of the flips in a stored word, none is left by the decoder if there is at most one and it is not reported, and with two some always are left and they are reported exactly by the parity of the XOR of their positions |
| PageStore.SeenChunkWrong | src/ftj_engine.cpp:443-477 | eight bytes whose word has two flips are never read as they are |
| PageStore.ReadPage | src/ftj_engine.cpp:434-478 | for any flips, a read of any part of a page returns exactly the bytes with what the decoder leaves of the flips, and fails exactly if a chunk it touches is reported; so it is right whenever it succeeds and no chunk has more than one flip, and succeeds when there is none |
| FtlMaps.WholeExactly | src/ftj_engine.cpp:118-143 | the capacities admitted are exactly those for which every page lies in the buffer whole and in a block that has a counter |
| FtlMaps.MapInjective | src/ftj_engine.cpp:567-570 | with agreeing forward and reverse maps, no two logical pages share a physical page |
| FtlMaps.RemapCoherent | src/ftj_engine.cpp:567-588 | mapping a logical page to a free page and making its old page stale keeps the maps inverse, free pages empty, and the block counters below the true counts |
| FtlMaps.ProgramChecks | src/ftj_engine.cpp:535-565 | a program that leaves its own page's codes matching and other pages alone leaves the codes of every physical page matching |
| FtlMaps.UnmappedProgram | src/ftj_engine.cpp:535-565 | programming a page that nothing is mapped to changes no logical page and no mapped page's codes |
| FtlMaps.MoveSame | src/ftj_engine.cpp:671-693 | copying a mapped page elsewhere and remapping its owner changes no logical page's bytes or codes |
| FtlMaps.SeenRightExactly | src/ftj_engine.cpp:535-588 | a page of lp is programmed into any physical page, and lp mapped there: every logical page then reads as it should if and only if that page held nothing, but for the owner's bytes agreeing by chance |
| FtlMaps.EraseNoDup | src/ftj_engine.cpp:699-713 | appending an erased block's invalid pages keeps the lists duplicate-free if and only if none of the block's pages was free |
| FtlMaps.EraseCanListTwice | src/ftj_engine.cpp:699-713 | one page of a block on a free list is enough for an erase to list it a second time (as a fact about lists; `FtlLosingRun.WriteThatCollects` is a state the engine reaches) |
| FtlMaps.UnwornStep | src/ftj_engine.cpp:572-580 | programming a never-written page keeps all wear and disturb counts at most one |
| FtlMaps.FlatSplice | src/ftj_engine.cpp:515-592 | splicing one logical page splices the flat byte array at the page's address |
| FtlMaps.SumIncrement | src/ftj_engine.cpp:572-573 | one more program of one page adds one to the sum of all program counts |
| FtlLedger.VictimIsFirstLeast | src/ftj_engine.cpp:638-657 | the victim that the ledger functions use is the first block of least score below INT_MAX, and there is none exactly when no score is |
| FtlLedger.CleanBlockIsEnough | src/ftj_engine.cpp:659-713 | a pass over a victim none of whose pages is free beforehand is clean |
| FtlLedger.NothingFreeIsClean | src/ftj_engine.cpp:634-725 | a collection that starts with no page free and makes one pass at most is clean |
| FtlLedger.HeatNeverSaturates | src/ftj_engine.cpp:520-524 | the counted heat is the saturating sum that the code asks for exactly below 2^32 - 1; there it becomes 0, which is cold |
| FtlPolicy.HotZone | src/ftj_engine.cpp:153-165 | the hot zone is the first fifth of the blocks of 256 pages, rounded down but at least one, and the cold zone the rest |
| FtlPolicy.ZonesKeptExactlyWhen | src/ftj_engine.cpp:699-713 | an erase returns every page to the zone it started in if and only if there are five blocks or more |
| FtlPolicy.SegmentTakes | src/ftj_engine.cpp:515-592 | with a page free, a page's write takes the last hot page if this makes four writes of it or more and there is one, else the last cold one, else a hot one, and counts the write modulo 2^32 |
| FtlPolicy.MoveTakes | src/ftj_engine.cpp:659-693 | a collection moves a page to the last cold page, and to a hot one only with no cold one left |
| FtlPolicy.FullStoreWrites | src/ftj_engine.cpp:526-533 | with nothing free a write collects first: it fails if there is no victim or no page of the victim is stale, and succeeds if the stale ones are as many as a collection aims at |
| FtlPolicy.ScoreOfValidPage | src/ftj_engine.cpp:638-654 | one more valid page makes a block score sixteen more |
| FtlPolicy.ScoreOfHeat | src/ftj_engine.cpp:638-654 | one more write of a page makes the block that holds it score one more, but at a count of 2^31 - 1, where the score falls by 2^32 - 1 |
| FtlPolicy.CollectionIsCourse | src/ftj_engine.cpp:634-725 | a collection is a number of passes over the victims: before each too little is free and there is a victim, each but the last gains a page, and it ends exactly when enough is free, no victim is left or the last pass gained nothing |
| FtlSound.PassSound | src/ftj_engine.cpp:659-715 | a clean pass over agreeing tables and duplicate-free lists hands out no page in use and leaves such tables and lists |
| FtlSound.WriteSound | src/ftj_engine.cpp:488-602 | so does a whole write whose collections are clean |
| Ftl.InitialLists | src/ftj_engine.cpp:153-165 | the two free lists hold every page once, split by block into the hot and the cold zone, highest page first |
| Ftl.FTJController.constructor | src/ftj_engine.cpp:118-172 | a new store of any capacity has all its pages free, once each, nothing mapped and zeros in the buffer; if every page lies inside the tables it is also coherent and unworn, and reads as zeros |
| Ftl.FTJController.AllocatePhysicalPage | src/ftj_engine.cpp:605-632 | takes the last page of the preferred list, else of the other, and leaves the rest; fails exactly when both are empty; records exactly whether the page is in use; on duplicate-free lists it holds nothing and is free no more |
| Ftl.FTJController.ProgramPage | src/ftj_engine.cpp:535-565 | the new page holds the old page, or zeros, with the data spliced in, no other page changes, and the codes of every physical page match, in any state |
| Ftl.FTJController.Remap | src/ftj_engine.cpp:567-588 | the mapping update gives the ledger's one, keeps the store coherent, and physical bytes written equal to 4096 times the programs |
| Ftl.FTJController.PickVictim | src/ftj_engine.cpp:638-657 | the candidate is the first block of least score below INT_MAX; there is none exactly when every score reaches it |
| Ftl.FTJController.MoveTo | src/ftj_engine.cpp:671-693 | a page moved to any other page gives the ledger's mapping and matching codes; every logical page then reads as before if and only if the other page held nothing, but for bytes agreeing by chance |
| Ftl.FTJController.MoveValidPages | src/ftj_engine.cpp:659-697 | moving a block's valid pages changes no logical page's bytes or codes as long as no page in use is taken, even into the block itself or when space runs out, and with duplicate-free lists leaves no page of it that was valid unless the free lists are empty |
| Ftl.FTJController.EraseBlock | src/ftj_engine.cpp:699-713 | appends exactly the block's invalid pages to its zone's list, duplicate-free if and only if none was free before |
| Ftl.FTJController.EraseKeepsListsExactlyWhen | src/ftj_engine.cpp:699-713 | the same condition as a fact about any coherent store |
| Ftl.FTJController.GcPass | src/ftj_engine.cpp:659-715 | one pass gives the ledger's pass; it takes a page in use if and only if the ledger says so, and otherwise changes no logical page's bytes or codes; the lists stay duplicate-free if and only if the pass is clean, which it is when no victim page was free before; it zeroes the victim's counter, leaves every page of the victim valid or free, and from duplicate-free lists leaves none of the pages it held in place unless the free lists ran out |
| Ftl.FTJController.RunGC | src/ftj_engine.cpp:634-725 | terminates with the ledger's collection and its number of passes (whose course `FtlPolicy.CollectionIsCourse` gives), at most as many as pages are wanted, none only if enough are free or no block qualifies; no logical page's bytes or codes change as long as no page in use is taken, which the ledger before it decides exactly; the lists stay duplicate-free if and only if every pass is clean, as when nothing was free and one pass was enough |
| Ftl.FTJController.WriteSegment | src/ftj_engine.cpp:515-592 | one page's part of a write, with a collection or without, ends exactly as the ledger says: counted, given a page of the zone its heat earns or refused with none free; from an intact store, if its collection takes no page in use, every page reads as it should afterwards if and only if the page handed to the segment was not in use, but for bytes agreeing by chance; without a collection the page holds its old bytes with the data on top in any state |
| Ftl.FTJController.Write | src/ftj_engine.cpp:488-602 | success, the bytes stored and the ledger are those the ledger functions give, in every state; the data, or the part before space ran out, is spliced in at the offset as long as no page in use is handed out, which the ledger before decides exactly; out of range nothing changes, and in range it fails only with no page free; lists stay duplicate-free if and only if every collection is clean; if the pages fit the free ones it succeeds, and keeps all contents if at most one pass follows; within the page budget it collects nothing and uses one free page per page touched |
| Ftl.FTJController.Read | src/ftj_engine.cpp:395-486 | in any state and for any wear flips: returns exactly the bytes of the pages marked valid, zeros elsewhere, with what the decoder leaves of the flips, and fails exactly if a chunk it touches is reported; so on an intact store a success is the flat array's bytes if no chunk has more than one flip, and with no flip, or on an unworn store, every read in range succeeds |
| Ftl.FTJController.TwoFlipsSeen | src/ftj_engine.cpp:443-477 | in a page in use programmed more than 50000 times, or disturbed more than 100000 times, a chunk with two flips is never seen as it is, and is reported exactly by the parity of the XOR of their positions |
| Ftl.FTJController.UnwornSeen | src/ftj_engine.cpp:447-468 | a page that is neither is seen as it is, whatever the noise, and reports nothing |
| FtlRuns.LatestWriteWins | src/ftj_engine.cpp:488-602 | each byte of the reference array is that of the latest accepted write over it, or zero |
| FtlRuns.Replay | src/ftj_engine.cpp:395-602 | any run of unaligned, page-crossing reads and writes that programs at most page_count minus the low watermark pages is answered, request by request, as by a flat zero-initialised byte array |
| FtlRuns.ReplayCollecting | src/ftj_engine.cpp:395-725 | any run of reads and writes, collections and full stores included: every write is accepted or refused as the ledger says, and up to the first request that is handed a page in use each read is answered by the flat array with what each write stored, or reports failure, and without flips is always answered |
| FtlRuns.CleanRunIsSafe | src/ftj_engine.cpp:488-725 | a run whose collections are all clean is never handed a page in use |
| FtlRuns.NeverFullIsFlat | src/ftj_engine.cpp:488-602 | if no write ran out of pages those answers are the ones of a plain flat byte array |
| FtlRewriteRun.RewritesAreClean | src/ftj_engine.cpp:488-725 | up to eight million reads and rewrites of half a 1 MiB store: every write is accepted and every collection clean |
| FtlRewriteRun.RewriteCollects | src/ftj_engine.cpp:596-725 | in such a run each write after the first makes a collection of one pass |
| FtlRewriteRun.Rewrites | src/ftj_engine.cpp:395-725 | so the engine, collecting at every write, answers such a run as the flat array does |
| FtlLosingRun.WriteThatCollects | src/ftj_engine.cpp:594-725 | the 488th write of the losing run collects uncleanly: page 0 moves, and ten pages of the victim are on both lists |
| FtlLosingRun.OnlyTheLastSteals | src/ftj_engine.cpp:488-725 | of the 499 writes of that run the last alone is handed a page in use |
| FtlLosingRun.SafeUntilTheLast | src/ftj_engine.cpp:488-725 | the run is safe, so rightly answered, exactly up to its last write |
| FtlLosingRun.LosingRun | src/ftj_engine.cpp:395-725 | 499 page writes, all accepted, and then a read of page 0 without any flip succeeds with a page of zeros |
| FtlLosingRun.RightAnswer | src/ftj_engine.cpp:395-602 | the flat array answers that read with the page of ones written last |
| Coalescer.BurstCoalescer.PushWrite | src/ftj_engine.cpp:743-771 | accepts exactly sizes 1 to 4096 and else changes nothing; the bytes kept are the leading ones up to the page's end, counted, and the pushes recorded are merged with what their slot holds |
| Coalescer.SlotsShared | src/ftj_engine.cpp:749 | two addresses share a slot if and only if the depth divides the difference of their page numbers |
| Coalescer.OverlayLatest | src/ftj_engine.cpp:762-764 | each byte of a slot is that of the latest push over it, or zero |
| Coalescer.BurstCoalescer.FlushToFTL | src/ftj_engine.cpp:773-810 | writes the dirty slots in order, at most as many as the limit, and cleans them whether or not the writes succeed; the page count is that of the accepted writes, and one collection is counted exactly when pages were flushed and flash bytes exceed host bytes by more than half; as long as none is handed a page in use, which the ledger before decides, the store is the old one after exactly those writes, refused ones changing no byte; if all are accepted, it is the old one with those pages spliced in; within the page budget all are |
| Coalescer.FlushedReads | src/ftj_engine.cpp:777-795 | after a flush each dirty slot's page reads back as zeros overlaid with the accepted bytes in push order, undisturbed by the other slots |
| Coalescer.FlushDeliversEveryPage | src/ftj_engine.cpp:743-795 | if no slot was given two different pages, every page pushed to reads back as its own bytes |
| Coalescer.FlushExactly | src/ftj_engine.cpp:743-795 | after a full flush any page holds its slot's bytes if it was the first page pushed to that slot, and what it held before if not |
| Coalescer.FlushExactlyAccepted | src/ftj_engine.cpp:773-795 | the same for any flush, some writes refused: a page holds its slot's bytes if it was first in its slot and the slot's write was accepted, and what it held before if not |
| CoalescerRun.StageFlushRead | src/ftj_engine.cpp:395-810 | any writes staged, all flushed into an empty store with room, and any page read: the bytes of its slot if it was first in it, zeros if not |
| CoalescerRun.StagedReadsBack | src/ftj_engine.cpp:395-795 | if no two different pages written to lie a multiple of the depth apart, then after a full flush each byte of any page is that of the latest accepted write that reaches it, what runs over a page's end being lost, and zero where there was none |
| CoalescerRun.CollisionRun | src/ftj_engine.cpp:743-810 | for every depth, two accepted page writes that share a slot: the first page reads as the second's bytes, the second as zeros |
| Coalescer.BurstCoalescer.GetPendingPages | src/ftj_engine.cpp:819-829 | the dirty slots counted one by one are the queue depth, and none is left exactly when nothing accepted is waiting |
| Coalescer.BurstCoalescer.Reset | src/ftj_engine.cpp:843-857 | forgets everything accepted and zeroes every counter |
| NameOrder.MemfsFileNameCompare | src/win_vdisk.cpp:242-298 | the pointer loop computes the recursive comparison of separators and parts on any two strings |
| NameOrder.MemfsFileNameHasPrefix | src/win_vdisk.cpp:300-313 | the prefix test is equality of the leading part followed by an end, a root or a backslash |
| NameOrder.StrictTotalOrder | src/win_vdisk.cpp:242-298 | the order of paths is irreflexive, total, asymmetric and transitive |
| NameOrder.CompareIsPathOrder | src/win_vdisk.cpp:242-298 | on rendered paths the comparison is the lexicographic order of component lists, and zero exactly on equal paths |
| NameOrder.NamesInPlainTerms | src/win_vdisk.cpp:242-298 | on rendered paths the comparison is negative if and only if the first path is a proper prefix of the second, or at the first component where they differ its component is a proper prefix of the other's or has the smaller code unit at the first index where those differ |
| NameOrder.SeparatorsInARow | src/win_vdisk.cpp:256-260 | of several separators in a row only the last counts |
| NameOrder.ColonFirst | src/win_vdisk.cpp:256-273 | after equal parts a colon comes before a backslash |
| NameOrder.DirectoryFirst | src/win_vdisk.cpp:242-298 | a directory comes before everything below it |
| NameOrder.SubtreeContiguous | src/win_vdisk.cpp:831-846 | what lies between a directory and something below it is below it too |
| NameOrder.LessUnderPrefix | src/win_vdisk.cpp:242-298 | a common prefix does not change the order |
| NameOrder.HasPrefixIsBelow | src/win_vdisk.cpp:300-313 | on rendered paths the prefix test says exactly "at or below" |
| NameOrder.NameInjective | src/win_vdisk.cpp:242-298 | two paths with the same name string are the same path |
| NameOrder.RenamedName | src/win_vdisk.cpp:1794-1815 | replacing the leading part of a name's string is replacing the leading components of its path |
| PathTree.FirstAfterIsChild | src/win_vdisk.cpp:745-765 | if anything lies below a directory whose tree has all parents, the first stored name after the directory is a direct child |
| PathTree.MidwayStep | src/win_vdisk.cpp:1803-1825 | one turn of the rename loop keeps a half-moved map: the moved ones under new names, the rest under old, all else as it was |
| PathTree.MidwayEnd | src/win_vdisk.cpp:1803-1825 | after the last turn the map is exactly the old one with the subtree re-keyed |
| Memfs.RenamedTree | src/win_vdisk.cpp:1803-1825 | the renamed map has every parent stored as a directory and every name short enough |
| Memfs.Memfs.Dereference | src/win_vdisk.cpp:455-460 | a node is freed exactly when its last reference goes and the map does not hold it |
| Memfs.Memfs.MapInsert | src/win_vdisk.cpp:714-733 | inserts and takes a reference exactly when the name is new |
| Memfs.Memfs.MapRemove | src/win_vdisk.cpp:735-743 | erases the name and drops a reference exactly if the name is in the map; for a linked node that frees it exactly when no handle is left, and an unlinked one is left alone |
| Memfs.Memfs.UpperBound | src/win_vdisk.cpp:745-752 | finds the least stored name after the given one, if any |
| Memfs.Memfs.MapHasChild | src/win_vdisk.cpp:745-765 | looking only at the first node after a directory is true exactly when some direct child exists |
| Memfs.Memfs.EnumerateDescendants | src/win_vdisk.cpp:831-846 | collects exactly the stored names at or below a node, in order |
| Memfs.Memfs.EnumerateChildren | src/win_vdisk.cpp:767-809 | a page of a listing holds, in order, direct children after the marker, and misses one only if the page is full and everything in it comes first |
| Memfs.Memfs.ListDirectory | src/win_vdisk.cpp:1936-1998 | resuming after the last name returned lists every direct child once, in order, whatever room each call has |
| Memfs.Memfs.Create | src/win_vdisk.cpp:1117-1262 | the status by the source's checks in their order; on success exactly one node is added under its name with two references, on failure nothing changes |
| Memfs.Memfs.Open | src/win_vdisk.cpp:1280-1331 | the status by the source's checks; on success one more reference to the stored node, on failure nothing changes |
| Memfs.Memfs.Close | src/win_vdisk.cpp:1446-1453 | gives one handle back and frees the node exactly when it is unlinked and this was the last |
| Memfs.Memfs.CleanupDelete | src/win_vdisk.cpp:1429-1443 | unlinks the node exactly when it has no child; open handles keep it alive |
| Memfs.Memfs.Rename | src/win_vdisk.cpp:1757-1833 | the status by the source's checks; on success the map is the old one less a replaced file with each name at or below the old one re-keyed below the new, counts and directory bits kept, names under 512 characters, no insertion refused; on failure nothing changes |
| MemfsRun.Serve | src/win_vdisk.cpp:1117-1833 | one request by handle returns the status that the checks give in their order and does exactly what it should to names, nodes and open handles, and references stay the number of open handles |
| MemfsRun.FailureChangesNothing | src/win_vdisk.cpp:1117-1833 | a request whose status is not success changes no name, node or handle |
| MemfsRun.Run | src/win_vdisk.cpp:1117-1833 | in every run of creates, opens, closes, deletes and renames each request returns its status and takes the moment before to the moment after, a node exists exactly while it has a name or an open handle, and its count is the number of both |
| FileData.RoundedMaxFileSize | src/win_vdisk.cpp:2466-2467 | the limit is a multiple of 512 and at least the request, except that requests above 2^32 - 512 give 0 |
| FileData.FileNode.SetAllocationSize | src/win_vdisk.cpp:1684-1701 | fails exactly beyond the limit; else the buffer has the new size and the file is cut off at it if longer |
| FileData.FileNode.SetSize | src/win_vdisk.cpp:1702-1721 | succeeds exactly up to the limit; the file is then cut off, or grown with zeros whatever stale bytes the buffer holds, in whole allocation units |
| FileData.FileNode.Overwrite | src/win_vdisk.cpp:1333-1386 | up to the limit: succeeds, the file is empty and has the allocation asked for; beyond it: disk full, and bytes and allocation stay |
| FileData.FileNode.CleanupAllocation | src/win_vdisk.cpp:1420-1427 | gives back the allocation beyond the last unit and keeps the contents |
| FileData.FileNode.Read | src/win_vdisk.cpp:1475-1507 | at or past the end: end of file and no bytes; before it: exactly the file's bytes from the offset, as many as asked for or as there are up to the end |
| FileData.FileNode.Write | src/win_vdisk.cpp:1560-1607 | byte by byte, for both flags: constrained, the part before the end is replaced and the length stays; else the data goes to the offset, or to the end if asked, the file grows to hold it with zeros in between, and every other byte stays; it fails exactly when that would grow the file beyond the limit, and then changes nothing |
| FileData.WriteReadsBack | src/win_vdisk.cpp:1475-1607 | what a write transferred reads back from where it went |
| FileData.ByteKept | src/win_vdisk.cpp:1702-1721 | a byte keeps its value until written or cut off, and a byte that comes back after a cut is zero |
| FileData.RunWithin | src/win_vdisk.cpp:1686-1689 | no run takes a file beyond the limit |
| FileData.Replay | src/win_vdisk.cpp:1333-1740 | any run of writes, reads, resizes, overwrites and cleanups on one file is answered as by a plain byte sequence, while file size stays within allocation and allocation within the limit |
| SubmissionQueue.SubmissionQueue.Tick | hdl/ftj_submission_queue.v:46-81 | one clock of the pointers, flag, memory and output register is one step of the abstract FIFO, for any inputs and resets: the oldest command leaves to the output register exactly on a read with one waiting, the new one joins exactly on a write without the full flag, both together if both |
| SubmissionQueue.SubmissionQueue.Empty | hdl/ftj_submission_queue.v:42 | the empty output holds exactly at fill 0 |
| SubmissionQueue.SubmissionQueue.Full | hdl/ftj_submission_queue.v:43 | a full memory raises the full output, and the output means at most one slot is spare |
| SubmissionQueue.RunConsistent | hdl/ftj_submission_queue.v:69-78 | in every run fill n implies full, and full implies fill at least n - 1 |
| SubmissionQueue.EarlyFullExactlyWhen | hdl/ftj_submission_queue.v:69-78 | full with a slot to spare comes exactly from a push and a pop in one clock at n - 1, and lasts exactly until the next pop or reset |
| SubmissionQueue.InOrderOnce | hdl/ftj_submission_queue.v:55-67 | the delivered commands followed by the waiting ones are the accepted ones |
| SubmissionQueue.Simulate | hdl/ftj_submission_queue.v:42-81 | for every address width and every input sequence, what the pins show is delivered in order, once each, with the flags as above |
| AxiController.StepInv | hdl/ftj_top_controller.v:239-456 | each clock keeps: awready exactly in FETCH, wready exactly in COALESCE, arready exactly in a read's FTL_TRANSLATE, rvalid exactly in a read's RESPOND, bvalid only in a write's RESPOND; one-clock command strobes; requests only after 100 erases; scans hold the first least entry; the operation works on the page its address maps to |
| AxiController.OneResponseEach | hdl/ftj_top_controller.v:239-454 | in every run, accepted writes are answered once each but for the one open, reads likewise, and nothing is accepted before the hundredth erase, after which there is none |
| AxiController.ResponseHeld | hdl/ftj_top_controller.v:436-454 | a valid response stays valid with its data until the host is ready, and drops in that clock |
| AxiController.ReadResponseReady | hdl/ftj_top_controller.v:445-453 | a read that reaches RESPOND has valid data, so the branch at lines 450-451 never runs |
| AxiController.VictimIsBlockZero | hdl/ftj_top_controller.v:373-393 | the collector's victim is block 0 in every run |
| AxiController.RemapAliasesExactly | hdl/ftj_top_controller.v:418-434 | at every wear remap of every run the victim is the first block never programmed, at most 256, and its page, modulo 256, is mapped to the worn block; an injective map stays so exactly if that page is the written one, which from the identity map means page 0 with all 256 blocks programmed |
| AxiTransactions.RunFits | hdl/ftj_top_controller.v:239-456 | in every run the registers are what a watcher of the pins has noted: address, length, beats and last word of the request in hand, the clocks the flash still needs and what for, the commands given, and tables made by the write addresses |
| AxiTransactions.RequestsGoWhereMapped | hdl/ftj_top_controller.v:272-324 | in every run a write programs the block that all writes before it map its awaddr to, sampled in the clock of awready, modulo 256, with the code of the wdata beat that came with wlast; a read goes to the block that all writes map its araddr to, sampled in the clock before arready |
| AxiTransactions.ResponsesAreDue | hdl/ftj_top_controller.v:308-371 | in every run at each response one program command was given for every write accepted and one read command for every read, the flash is at rest, and rdata is the decoder's value of nand_io in the clock in which that read's 2500 clocks were over and the flash not busy |
| AxiTransactions.TablesAreKept | hdl/ftj_top_controller.v:239-270 | in every run start-up is over from the 1024th clock after reset on, between requests map and program counts are those that the accepted write addresses make, and a ready line answers a valid line of the clock before, a write's first, only after start-up and 100 erases |
| AxiTransactions.RequestsAreTaken | hdl/ftj_top_controller.v:255-270 | an idle controller past start-up and 100 erases raises awready exactly on awvalid, and arready exactly on arvalid without it |
| AxiTransactions.UnwornKept | hdl/ftj_top_controller.v:308-324 | while no page has been written more than 3001 times the map is the identity and each block's count the number of writes to its page |
| AxiRemapRun.ARunThatAliases | hdl/ftj_top_controller.v:239-434 | from any start-up a run of writes to address 0 ends with pages 0 and 1 on one block |
| AxiController.StepProgress | hdl/ftj_top_controller.v:272-454 | outside IDLE every clock in which the host and the flash do not stall brings the controller nearer to IDLE, and no clock takes it further away |
| AxiController.ReturnsToIdle | hdl/ftj_top_controller.v:239-454 | from any reachable state the controller is idle again after at most its measure of unstalled clocks |
| AxiController.TopController.Tick | hdl/ftj_top_controller.v:191-459 | one clock of the register updates is one step of the machine's function, in every state and in reset; the rows of `AxiTransactions` say what those steps come to at the pins |
| AxiController.Observe | hdl/ftj_top_controller.v:191-459 | counting from the pins alone, responses never exceed acceptances, at most one request is open, and none is when the controller is idle |

## Left out

- Ftl.FTJController.RunGC: what the store holds after a page in use has been handed out is said for one segment or one move, not for what follows; a later write may put right what it spoiled.
- Ftl.FTJController.Remap: program counts and total bytes are unbounded; the 32-bit counter wraps only after 2^32 programs of one page.
- Ftl.FTJController.PickVictim: the 32-bit overflow of the score's sum is not modelled; the cast of each hot counter to a signed number is.
- Ftl.FTJController.constructor: for a capacity whose last page lies outside the buffer or the block counters (`FtlMaps.WholeExactly`) only the new tables are described; writes to that page leave the source's tables and are not modelled.
- MpmcRing.RoundedSize: requests above 2^63, for which the doubling overflows, are not modelled.
- Memfs.Memfs.ListDirectory: is the caller's loop around the listing call, with room for at least one entry in each call.
- MpmcRing.EveryRunSafe: interleaving is sequentially consistent with unbounded positions; weak memory ordering and the 64-bit wrap of positions are not modelled.
- QueueBenchmark.StepInv: a refused push or pop is a step that changes no queue; what the workers read and write in the store, and the latency figures, are left out.
- RingBenchmark.RunRefines: entries are any injective encoding of request numbers of the rings' width, and a worker's completion any function of the entry that it serves; a client's early exit and loop tests are one step each.
- Coalescer.BurstCoalescer.FlushToFTL: the ratio test for the collection counter is exact arithmetic, not double precision.
- FileData.FileNode.Write: offsets and sizes are unbounded, so the 64-bit wrap of offset plus length is not modelled; heap allocation always succeeds.
- Memfs.Memfs.Rename: assumes what the kernel side supplies: the new name's parent is a stored directory, the new name is not inside the moved subtree, and the node is linked and not the root.
- FtlRewriteRun.RewritesAreClean: the bound keeps the victim's score below INT_MAX; beyond it the engine may find no victim.
- FtlRuns.ReplayCollecting: gives the answers to reads up to the first request that is handed a page in use; writes are covered in all runs.
- MemfsRun.Run: requests that the kernel side would not pass on (see `Memfs.Rename` and `Memfs.CleanupDelete`) are left out of the run.
- Memfs.Memfs.CleanupDelete: only called on a linked, open node other than the root; the archive bit and the timestamps are left out.
- Memfs.Memfs.Close: only called for an open handle.
- Memfs.Memfs.UpperBound: the standard map is a finite map with a search for the least later key; its balanced tree is not modelled. The node heap is a map from ids to nodes.
- NameOrder.CompareIsPathOrder: case-sensitive mode and canonical backslash paths without colons; the case-insensitive comparison calls a foreign function. The foreign path-suffix function is taken to split off the last component.
- AxiTransactions.RequestsGoWhereMapped: the source drives no address onto the flash bus, so the block that a command is meant for is seen in the controller's registers and tables only; of a burst the last word alone is kept, as in the source.
- AxiController.OneResponseEach: an acceptance is a clock with the ready output high; that the host still holds its request valid then is the bus rule's duty. Table contents before start-up are arbitrary, and the error-correction submodules are any two functions.
- AxiController.ReturnsToIdle: counts unstalled clocks; that the host and the flash do not stall for ever is their duty.
- Latency injection, switching physics, temperature and retention drift, and `InjectHeavyWear`: they are floating point and clocks. Random wear flips are a parameter of `Read`.
- The `\ftj_disk.bin` special case, security descriptors, timestamps, volume information, dot entries of a listing, and everything the file system compiles out (extended attributes, streams, reparse points, slow I/O).
- The Verilog code pair, compressors, serialisers, the flash model and the test benches.
- Command line, reports, the other benchmarks and the terminal interface.
