# A Dafny model of msopprof

A model of the algorithms and protocols at the heart of the msopprof profiler, with proofs of what they
promise. Each module stands for one component; code that changes state is a class or a method over arrays, tied by its
contract to a function whose properties are then proved for all inputs, runs or reachable states. Where a promise does
not hold of the code, the exact condition under which it does is proved instead, with an input that breaks it.

- **PacketFraming, InjectionEvents** — bytes of many clients become packets. Packets are reassembled from arbitrary
  chunks and compared with a plain parse of the byte stream that knows nothing of chunks or packet objects.
- **ThreadPool, PluginManager** — a pool of workers as a system of atomic steps that interleave freely: one step per
  section that holds the mutex, per read of the running flag, per body of a queued job. Plugins run on top of it.
- **PmuPacking, EventTables** — counter events are sorted by a table and packed into replay rounds, events of one table
  row together, in a vector of fixed size; the shipped events of vector cores on ASCEND950 as data.
- **RunningTime, SafeArithmetic** — running time as the measure of a union of tick intervals, over saturating words.
- **TruncatedIndex, BinaryText, InstrBinaries** — lookup of disassembled text by full or truncated encodings, and the
  hexadecimal text of encodings.
- **RecordLog, SlotLayout** — the bounded log that kernels write on the device, the host's reading of it, and the slots
  of the cores.
- **LaunchQuota** — which kernel launches are profiled and under which path.
- **MaskedDecode** — instruction names by masked lookup.
- **AddrMerge** — addresses merged into printed ranges.
- **PathNormal** — lexical normalisation of paths.
- **Common, Arithmetic, Sorting, Splitting, Strings** — shared notions; `Sorting` stands for `std::sort`.

Where the code and its comments or callers suggest more than the code does, the code was followed:

- A rejected packet head drops the rest of the *message*, not of the stream, so chunk boundaries are visible after it
  (`ChunkIndependence` gives the exact condition). A finished packet without a handler is neither delivered nor dropped
  and stops the listener if bytes follow (`HangsOnlyOnUnhandled`).
- Client ids are 64-bit, the packet map is indexed by 32-bit numbers: two clients are isolated from each other if and
  only if their ids differ in the low 32 bits (`IsolatedExactly`; `CollidingIdsMixStreams` shows every other pair
  mixing).
- `WaitAllTasks` alone does not wait for completion: everything is done if and only if no worker is in the middle of a
  job when it returns (`WaitAloneExactly`; `WaitAloneMayReturnEarly` is a run that breaks it). `Stop` alone drops queued
  jobs: everything is done if and only if nothing is queued at the call (`StopAloneExactly`, `StopAloneMayDropTasks`).
  Both, in this order, leave nothing undone (`WaitThenStop`).
- The comparator that sorts requested events is a strict weak order, without which `std::sort` is undefined, if and only
  if the table lists all of them or no two of them (`SortIsDefinedExactly`). On vector cores of ASCEND950 the shipped
  table does not list event 13, so selecting events is defined if and only if ResourceConflictRatio is not enabled
  (`ConflictDecides`).
- Making room for event 0 can tear the very last event away from an event of its own row: exactly if the last two
  requested places of the table are in one row (`RowsTogetherExactly`; `ZeroSplitsARow` is such an input).
- `SafeMulAll` with `returnValue` set depends on the order of its arguments (`MulAllDependsOnOrder`): all orders agree
  if and only if there is no zero or the product of the other numbers is below the largest word
  (`OrderMattersExactly`). `SafeAddAll` without it starts anew after an overflow, or ends at the largest word.
- The length of a log's header wraps after 2^63 failed attempts and then no longer tells the log (`WrapForgetsTheLog`).
- `MergeAddrRange` adds a nonzero `startPc` twice to the end of a range before comparing (`ShiftAgreesExactly`).
- Output paths repeat once a kernel has been recorded 65536 times on a device (`PathsDistinctExactly`).

`dafny verify dfyconfig.toml` checks the whole project.

## Model

| member | source | states |
|---|---|---|
| PacketFraming.Packet.ProcessMsg | csrc/op_profiling/prof_injection/packet.cpp:98-148 | one call consumes and leaves exactly what `Step` says, on every packet state and index, the index past the end included |
| PacketFraming.AcceptedExactly | csrc/op_profiling/prof_injection/packet.cpp:29-148 | on the sizes of the wire alone: a packet that comes whole succeeds, taking all its bytes, if and only if its payload has exactly the size of its type: none for CONFIG and PROF_FINISH, one of two for instruction logs, what its own header says for DBI data |
| PacketFraming.HeadInPieces | csrc/op_profiling/prof_injection/packet.cpp:101-122 | a head that comes in pieces is treated as if it came in one; with more bytes pending than a head has, the rest of the message is dropped |
| PacketFraming.PayloadInPieces | csrc/op_profiling/prof_injection/packet.cpp:133-147 | the same for a payload |
| PacketFraming.RejectedExactly | csrc/op_profiling/prof_injection/packet.cpp:150-162 | a head followed by bytes is rejected if and only if it names no known type or announces more than the type can have; exactly the maximum is let through |
| PacketFraming.ParseOfPacket | csrc/op_profiling/prof_injection/packet.cpp:98-162 | what a byte stream that begins with a head parses to, case by case on the sizes of the wire: rejected, incomplete, skipped, delivered, kept or stuck |
| PacketFraming.RunIsScan | csrc/op_profiling/prof_injection/packet.cpp:98-162 | for any message, the packets delivered and the state left are those of a plain scan of the pending bytes followed by the message; a rejected head costs the rest of the message only |
| PacketFraming.ScanAppend | csrc/op_profiling/prof_injection/packet.cpp:98-148 | scanning two byte sequences in one go or one after the other comes to the same, up to a rejected head |
| PacketFraming.FeedIsScan | csrc/op_profiling/prof_injection/injection_event.cpp:79-109 | however a stream is cut, delivered packets are its complete well-sized frames in order and the pending state is the trailing partial frame |
| PacketFraming.ChunkIndependence | csrc/op_profiling/prof_injection/packet.cpp:127-131 | chunk boundaries make no difference for a stream if and only if no rejected head is followed by bytes |
| PacketFraming.LastByteTellsChunksApart | csrc/op_profiling/prof_injection/packet.cpp:127-131 | a cut that is noticed, for every stream with bytes after a rejected head |
| PacketFraming.PacketsRoundTrip | csrc/op_profiling/prof_injection/packet.cpp:58-148 | serialised packets, joined and cut at will, are delivered one by one and leave nothing behind |
| PacketFraming.SentExactly | csrc/op_profiling/prof_injection/packet.cpp:29-56 | the packets that come back under any cut are exactly the well-sized ones |
| PacketFraming.BuffersStayBounded | csrc/op_profiling/prof_injection/packet.cpp:29-56 | after any chunks the buffer of a client holds less than a head, or at most the payload its type allows |
| PacketFraming.PendingBySize | csrc/op_profiling/prof_injection/packet.cpp:98-162 | bytes behind a head stay pending if and only if the announced length is allowed and not complete, or complete and well sized with nobody to handle it |
| PacketFraming.HangsOnlyOnUnhandled | csrc/op_profiling/prof_injection/injection_event.cpp:96-101 | a message makes the loop hang if and only if a frame without a handler is followed by bytes; never if all types have handlers |
| PacketFraming.HungPassRepeats | csrc/op_profiling/prof_injection/injection_event.cpp:96-101 | why: such a pass succeeds, consumes nothing and changes nothing |
| InjectionEvents.InjectionEvent.Pass | csrc/op_profiling/prof_injection/injection_event.cpp:82-108 | one pass of the loop changes the addressed client's packet only, delivers at most one frame and drops the packet after success or failure |
| InjectionEvents.InjectionEvent.Distribute | csrc/op_profiling/prof_injection/injection_event.cpp:79-109 | the loop keeps and delivers what the client's run over this message says; where it would spin for ever, the method stops and says so |
| InjectionEvents.InjectionEvent.DisposeAsk | csrc/op_profiling/prof_injection/injection_event.cpp:61-77 | the listening loop over a sequence of messages from any clients serves them one after the other, up to a message that hangs |
| InjectionEvents.ClientsAreIsolated | csrc/op_profiling/prof_injection/injection_event.cpp:79-109 | under any interleaving, a client whose id is alone in 32 bits is served as if its messages were the only ones |
| InjectionEvents.HangsAreSomeClientsOwn | csrc/op_profiling/prof_injection/injection_event.cpp:79-109 | if the ids of the run differ in 32 bits, it hangs if and only if some client's own stream would |
| InjectionEvents.HangsAreSomeKeysOwn | csrc/op_profiling/prof_injection/injection_event.cpp:79-109 | for any ids: a run hangs if and only if, for some 32-bit key, the messages of all clients with this key would hang one packet |
| InjectionEvents.CollidingIdsMixStreams | csrc/op_profiling/prof_injection/injection_event.h:59 | any two clients with equal low 32 bits complete each other's packets, whatever the packet type, in a run that ends: the packet is delivered as one that its receiver never sent |
| InjectionEvents.IsolatedExactly | csrc/op_profiling/prof_injection/injection_event.cpp:79-109 | given one packet that can be delivered at all: two clients are served as their own streams in all runs of both that end, if and only if their ids differ modulo 2^32 |
| ThreadPools.NextInv | csrc/utils/cpputils/thread_pool.cpp:35-148 | every enabled step of every thread keeps conservation of jobs, the thread bookkeeping and the wakeup invariant |
| ThreadPools.ExactlyOnce | csrc/utils/cpputils/thread_pool.cpp:88-148 | in every reachable state each added job is, exactly once, queued, in one worker's hands or finished, and the queue hands out the oldest first |
| ThreadPools.NoStrandedWork | csrc/utils/cpputils/thread_pool.cpp:88-138 | a running pool with jobs queued has a worker up, and if another sleeps there are as many workers on their way as jobs queued |
| ThreadPools.NoLostWakeup | csrc/utils/cpputils/thread_pool.cpp:104-138 | a waiting caller sleeps only while something is queued; stopping leaves no worker asleep |
| ThreadPools.StopExecutesWhatWasFetched | csrc/utils/cpputils/thread_pool.cpp:63-86 | when Stop has joined, exactly the fetched jobs have run, so all have if and only if the queue is empty |
| ThreadPools.WaitThenStop | csrc/utils/cpputils/thread_pool.cpp:104-110 | WaitAllTasks, then no additions, then Stop: every job has run exactly once, in every interleaving |
| ThreadPools.StopAloneMayDropTasks | csrc/utils/cpputils/thread_pool.cpp:131-137 | a run in which Stop leaves a queued job undone |
| ThreadPools.WaitAloneMayReturnEarly | csrc/utils/cpputils/thread_pool.cpp:104-110 | a run in which WaitAllTasks returns before a job is finished |
| ThreadPools.WaitAloneExactly | csrc/utils/cpputils/thread_pool.cpp:104-110 | whenever WaitAllTasks returns, every job has run exactly once if and only if no worker is in the middle of one |
| ThreadPools.StopAloneExactly | csrc/utils/cpputils/thread_pool.cpp:63-86 | Stop called on a running pool, nothing added until it has joined: every job has run exactly once if and only if the queue is empty at the call |
| ThreadPools.QuietRunsEnd | csrc/utils/cpputils/thread_pool.cpp:123-148 | without additions and spurious wakeups no schedule goes on forever |
| ThreadPools.RestIsReached | csrc/utils/cpputils/thread_pool.cpp:123-148 | from every state some such schedule ends in a state of rest |
| ThreadPools.AtRestMeansDone | csrc/utils/cpputils/thread_pool.cpp:88-148 | a running pool comes to rest only when all jobs are done and the caller is not blocked; a stopping pool only after the join |
| ThreadPools.WaitingOnAStoppedPoolIsForever | csrc/utils/cpputils/thread_pool.cpp:104-110 | with a job queued, WaitAllTasks on a pool without workers never returns |
| ThreadPools.ThreadPool.Start | csrc/utils/cpputils/thread_pool.cpp:35-61 | is the Start step if memory for the threads can be had, and changes nothing otherwise; succeeds exactly on a pool that is not running, has threads and gets the memory |
| ThreadPools.ThreadPool.StopFetching | csrc/utils/cpputils/thread_pool.cpp:63-76 | is the Stop step: fetching ends and every sleeping worker is woken |
| ThreadPools.ThreadPool.JoinThreads | csrc/utils/cpputils/thread_pool.cpp:78-86 | is the step that ends Stop once every worker has ended |
| ThreadPools.ThreadPool.AddTask | csrc/utils/cpputils/thread_pool.cpp:88-102 | is an Add step waking one sleeping worker, whichever the system picks |
| ThreadPools.ThreadPool.WaitTest | csrc/utils/cpputils/thread_pool.cpp:104-110 | is the waiting caller's test, first and after wakeups |
| ThreadPools.ThreadPool.WakeCaller | csrc/utils/cpputils/thread_pool.cpp:109 | is a spurious wakeup of the waiting caller, who will test again |
| ThreadPools.ThreadPool.FetchTest | csrc/utils/cpputils/thread_pool.cpp:123-138 | is a worker's Fetch step: the oldest job, or sleep, or giving up |
| ThreadPools.ThreadPool.WakeWorker | csrc/utils/cpputils/thread_pool.cpp:126-129 | is a spurious wakeup of a sleeping worker, who will test again |
| ThreadPools.ThreadPool.LoopTest | csrc/utils/cpputils/thread_pool.cpp:143 | is the test of the running flag at the head of a worker's loop |
| ThreadPools.ThreadPool.FinishTask | csrc/utils/cpputils/thread_pool.cpp:144-146 | is the end of the job a worker has fetched |
| PluginManagers.PluginManager.RunAllPlugins | csrc/op_profiling/parse/plugin/plugin_manager.h:59-71 | if threads are up or nothing is queued the call returns, whatever steps the threads take before, between and after its own and whoever wakes spuriously; then every code is in its place, the pool has ended and nothing is queued. Otherwise it waits for ever, and the method says so |
| PluginManagers.PluginManager.WaitForStop | csrc/op_profiling/parse/plugin/plugin_manager.h:97-104 | on a running pool, or one with nothing queued, waiting and stopping both end and every job ever added has run exactly once; otherwise it waits for ever, and the method says so |
| PluginManagers.PluginManager.Step | csrc/utils/cpputils/thread_pool.cpp:140-148 | a thread's step is one of the pool's steps and keeps the record of finished plugins |
| PluginManagers.PluginManager.Others | csrc/utils/cpputils/thread_pool.cpp:123-148 | any number of steps of any threads, spurious wakeups included, keep the record and leave the caller free, the additions as they are and an empty queue empty |
| PluginManagers.PluginManager.AddPlugin | csrc/op_profiling/parse/plugin/plugin_manager.h:49-57 | plugins keep the order in which they were added; a null plugin is not added |
| PluginManagers.ResultsAreComplete | csrc/op_profiling/parse/plugin/plugin_manager.h:59-71 | for every run of the pool in which the call returns, spurious wakeups and jobs queued earlier included: res[i] is what plugin i returned; a plugin that threw leaves its place untouched |
| PluginManagers.NoThreadsNoReturn | csrc/op_profiling/parse/plugin/plugin_manager.h:59-104 | on a pool of no threads it never gets past waiting |
| PmuPacking.GetUpNumCanDivisibleByX | csrc/op_profiling/common/prof_args.cpp:38-45 | the least multiple of x not below the number; 0 for x = 0 |
| PmuPacking.GetEventsByMetrics | csrc/op_profiling/common/prof_args.cpp:175-193 | the requested events of all enabled metrics, each once, in order of first request |
| PmuPacking.UniqueInOrder | csrc/op_profiling/common/prof_args.cpp:184-189 | events stand in the order in which they first occur among the requests |
| PmuPacking.RequestsInOrder | csrc/op_profiling/common/prof_args.cpp:178-190 | the requests of several metrics are those of each, one after the other; an unknown metric requests nothing |
| PmuPacking.GetEventIndexMap | csrc/op_profiling/common/prof_args.cpp:195-217 | the index lists exactly the table up to its first repetition; sorting leaves an order that the comparator allows, the table's order if all events are listed |
| PmuPacking.SortIsDefinedExactly | csrc/op_profiling/common/prof_args.cpp:209-215 | for any events and table: the comparator is a strict weak order if and only if the table lists all of the events or no two of them |
| PmuPacking.SortEvents | csrc/op_profiling/common/prof_args.cpp:209-215 | sorting by the comparator: the same events, none before one that is less, ties in any order |
| EventTables.ConflictDecides | csrc/op_profiling/common/defs.h:290-321 | for every selection of metrics: with the shipped tables of vector cores on ASCEND950 the selection of events is defined, and the comparator a strict weak order, if and only if ResourceConflictRatio is not enabled |
| EventTables.ConflictBreaksTheSort | csrc/op_profiling/common/defs.h:296 | with it enabled, whatever else is, events 12 and 14 are requested and listed, event 13 is requested and not listed, so the request is not sortable |
| EventTables.WholeTable | csrc/op_profiling/common/defs.h:314-321 | the shipped table repeats no event |
| PmuPacking.PackEvents | csrc/op_profiling/common/prof_args.cpp:239-258 | for events in any order, those without an index taken for index 0: the in-place loops write the rounds of the reference packing, and no write leaves the vector as long as the reference fits |
| PmuPacking.GetSortedEventsByMetrics | csrc/op_profiling/common/prof_args.cpp:219-264 | the whole operation: the requested events in an order sorting may leave, in table order if all are listed, packed, with the rule for event 0 on ASCEND950 |
| PmuPacking.RequestableExactly | csrc/op_profiling/common/prof_args.cpp:195-258 | a request is accepted by the model if and only if sorting is defined for it and no order it may leave makes the packing write beyond the vector |
| PmuPacking.NothingIsLost | csrc/op_profiling/common/prof_args.cpp:239-258 | outside event 0 the vector lists exactly the requested events, each once, in table order; its length is a whole number of rounds within the table's length |
| PmuPacking.RoundsPerRow | csrc/op_profiling/common/prof_args.cpp:243-258 | the vector is no longer than one round for every table row from which something is requested |
| PmuPacking.OrderKeepsEvents | csrc/op_profiling/common/prof_args.cpp:239-258 | packing keeps the events other than 0 in their order, for any events and indexes, groups longer than a round included |
| PmuPacking.ExactlyTheRequested | csrc/op_profiling/common/prof_args.cpp:219-258 | for any request and any order sorting may leave, an event other than 0 is in the result if and only if it was requested |
| PmuPacking.SameRowSameRound | csrc/op_profiling/common/prof_args.cpp:243-252 | events of one table row are measured in one round |
| PmuPacking.FewRounds | csrc/op_profiling/common/prof_args.cpp:248-251 | if the events could be measured in k rounds at all, at most 2k - 1 are used |
| PmuPacking.EveryRoundHasAnEvent | csrc/op_profiling/common/prof_args.cpp:230-236 | no packed round starts with event 0 |
| PmuPacking.ZeroRule | csrc/op_profiling/common/prof_args.cpp:259-262 | event 0 is in the vector if and only if there was padding, or another event is requested and a round is free; it never heads a round; nothing is lost and only the last event moves |
| PmuPacking.ZeroMovesTheLast | csrc/op_profiling/common/prof_args.cpp:259-262 | the price: the moved event leaves all others in earlier rounds |
| PmuPacking.RowsTogetherExactly | csrc/op_profiling/common/prof_args.cpp:259-262 | in the final vector events of one table row share a round if and only if no room is made for event 0 or the requested places of the table do not end with two in one row |
| PmuPacking.ZeroSplitsARow | csrc/op_profiling/common/prof_args.cpp:259-262 | a table, limits and requested events for which a row is split |
| RunningTime.CalculateRunningTime | csrc/op_profiling/parse/data_visualizer/utility.cpp:64-105 | for any list, malformed intervals included, the sum is the number of ticks covered by at least one interval and the list ends up sorted by start |
| RunningTime.CoveredIs | csrc/op_profiling/parse/data_visualizer/utility.cpp:72-99 | a tick is covered if and only if some interval of the list holds it, start included and end not |
| RunningTime.CoveredFits | csrc/op_profiling/parse/data_visualizer/utility.cpp:98 | the covered ticks fit a word, so the saturating sum never saturates |
| RunningTime.UnionAtMostTotal | csrc/op_profiling/parse/data_visualizer/utility.cpp:77-99 | covered ticks never exceed the sum of lengths, and equal it if and only if no two intervals meet |
| RunningTime.MergeNextCovers | csrc/op_profiling/parse/data_visualizer/utility.cpp:79-87 | merging or appending the next interval adds exactly its ticks |
| RunningTime.CalCycles | csrc/op_profiling/parse/data_visualizer/utility.cpp:37-50 | the sum of all lengths, malformed ones counting nothing, clamped to 2^31 - 1 |
| SafeArithmetic.DivideBackIsExact | csrc/utils/cpputils/number_operation.h:141-165 | dividing the wrapped product back finds an overflow if and only if there is one |
| SafeArithmetic.SafeMulIsExact | csrc/utils/cpputils/number_operation.h:141-165 | the true product if it fits, the overflow value otherwise |
| SafeArithmetic.SafeAddAll | csrc/utils/cpputils/number_operation.h:168-178 | the sum, saturated when returnValue is set; without it the sum of what follows the last overflow, every overflow starting anew, up to the first such sum that is the largest word |
| SafeArithmetic.SafeMulAll | csrc/utils/cpputils/number_operation.h:181-195 | the product loop returns what `MulAllSpec` says |
| SafeArithmetic.PartsTogether | csrc/utils/cpputils/number_operation.h:168-195 | the sum and product that these loops are measured by: those of a list in parts, of a single number and of none |
| SafeArithmetic.MulAllOrZero | csrc/utils/cpputils/number_operation.h:181-195 | without returnValue: the product below the largest word, 0 from there on |
| SafeArithmetic.MulAllSaturates | csrc/utils/cpputils/number_operation.h:181-195 | with returnValue: the saturated product exactly when no zero follows a prefix that reached the largest word |
| SafeArithmetic.MulAllDependsOnOrder | csrc/utils/cpputils/number_operation.h:181-195 | two orders of the same numbers with different results |
| SafeArithmetic.OrderMattersExactly | csrc/utils/cpputils/number_operation.h:181-195 | with returnValue, all orders give one result if and only if no number is 0 or the product of the others is below the largest word |
| SafeArithmetic.OrderDoesNotMatter | csrc/utils/cpputils/number_operation.h:168-195 | sum and product are the same for every order, and with them the saturated sum and the zeroing product |
| InstrBinaries.TruncationKeepsLowWords | csrc/op_profiling/instr_encoding/instr_disassembler.cpp:92-97 | truncation keeps the words of the width and clears the others |
| InstrBinaries.WordsOfHalves | csrc/op_profiling/instr_encoding/instr_disassembler.cpp:171-187 | the four words of two 64-bit halves, lowest first; what the width does not have is 0 |
| TruncatedIndex.InstrDisassembler.BuildTruncatedIndex | csrc/op_profiling/instr_encoding/instr_disassembler.cpp:99-122 | whatever the order of the hash maps, the index afterwards tells for every key whether there is no, one or more than one wider line; building twice changes nothing |
| TruncatedIndex.InstrDisassembler.FindDisassembly | csrc/op_profiling/instr_encoding/instr_disassembler.cpp:124-146 | in every reachable state the answer is that of a scan of the complete tables; an empty binary or an unknown width gives the empty text |
| TruncatedIndex.DirectExactly | csrc/op_profiling/instr_encoding/instr_disassembler.cpp:132-138 | a line of the queried width that agrees with the binary in the words of that width is found, and its text is the answer |
| TruncatedIndex.WiderExactly | csrc/op_profiling/instr_encoding/instr_disassembler.cpp:139-145 | otherwise the answer is the text of the only wider line that agrees in these words, and empty if there is none or more than one |
| TruncatedIndex.CandidatesExactly | csrc/op_profiling/instr_encoding/instr_disassembler.cpp:107-119 | the candidates of a query are exactly the wider lines with an equal lowest word at 32 bits, with two equal lowest words at 64 bits |
| TruncatedIndex.InstrDisassembler.GetDisassembly | csrc/op_profiling/instr_encoding/instr_disassembler.cpp:148-157 | the same answer; addresses without a line of the same width are collected |
| TruncatedIndex.InstrDisassembler.LogUnmatchedPcs | csrc/op_profiling/instr_encoding/instr_disassembler.cpp:159-169 | drains the collected addresses |
| TruncatedIndex.EmplaceReflects | csrc/op_profiling/instr_encoding/instr_disassembler.cpp:111-116 | putting one more line in keeps the index right: a new key refers to it, a known key becomes ambiguous |
| TruncatedIndex.IndexIsScan | csrc/op_profiling/instr_encoding/instr_disassembler.cpp:142-145 | looking a key up in the complete index is the scan for the only wider candidate |
| TruncatedIndex.AmbiguityGivesNothing | csrc/op_profiling/instr_encoding/instr_disassembler.cpp:112-116 | two or more candidates always give the empty text |
| TruncatedIndex.OwnLowBits | csrc/op_profiling/instr_encoding/instr_disassembler.h:43-53 | a line is found by its own low bits unless another wide line shares them |
| TruncatedIndex.HighBitsAreIgnored | csrc/op_profiling/instr_encoding/instr_disassembler.h:43-53 | bits above the queried width have no influence |
| TruncatedIndex.FoundTextIsReal | csrc/op_profiling/instr_encoding/instr_disassembler.cpp:124-146 | text found without a line of the same width belongs to a wider line with these low bits |
| BinaryText.ParseBinary | csrc/op_profiling/instr_encoding/instr_disassembler.cpp:189-208 | the digit loop reads what the normalized text stands for |
| BinaryText.NormalizeBinary | csrc/op_profiling/instr_encoding/instr_disassembler.cpp:210-230 | tokens in reverse order, prefixes dropped, lower case |
| BinaryText.UnderstoodExactly | csrc/op_profiling/instr_encoding/instr_disassembler.cpp:189-208 | a text is understood if and only if 8, 16 or 32 hexadecimal digits are left of it, and then prints as exactly these digits |
| BinaryText.DigitsExactly | csrc/op_profiling/instr_encoding/instr_disassembler.cpp:199-206 | the digit at place i from the end is hexadecimal place i % 8 of word i / 8, and the width follows from the number of digits |
| BinaryText.ReadsWhatWasPrinted | csrc/op_profiling/instr_encoding/instr_disassembler.cpp:171-208 | the text of any encoding reads as that encoding at all widths, with and without prefix |
| BinaryText.DecodeOfHex | csrc/op_profiling/instr_encoding/instr_disassembler.cpp:199-206 | printing and reading any encoding changes nothing |
| BinaryText.HexOfDecode | csrc/op_profiling/instr_encoding/instr_disassembler.cpp:199-206 | reading and printing any text of the right size changes nothing |
| BinaryText.TwoTokens | csrc/op_profiling/instr_encoding/instr_disassembler.cpp:212-228 | two tokens, low half first, read as the 128-bit encoding of both halves |
| BinaryText.CaseDoesNotMatter | csrc/op_profiling/instr_encoding/instr_disassembler.cpp:228-229 | texts that differ in the case of letters only read alike, in prefixes as well |
| BinaryText.PrefixDoesNotMatter | csrc/op_profiling/instr_encoding/instr_disassembler.cpp:222-226 | a token reads alike with 0x, 0X or no prefix |
| BinaryText.BlanksDoNotMatter | csrc/op_profiling/instr_encoding/instr_disassembler.cpp:213-218 | any number of blanks anywhere is as good as one |
| RecordLog.WriteData | csrc/op_profiling/plugin/memory_chart/recoder.h:35-46 | the word loop puts the whole record in place and touches nothing else |
| RecordLog.Device.RecordPreCheck | csrc/op_profiling/plugin/memory_chart/recoder.h:49-73 | lets an attempt pass if and only if the block exists, nothing has failed on it and headers, log and record together are within the data size; else counts it as failed in the length field alone, modulo 2^64; header and log agree unless that wraps |
| RecordLog.Device.DumpRecord | csrc/op_profiling/plugin/memory_chart/recoder.h:76-92 | appends the record to its block's log, byte for byte: type, magic word, body; every other block and all bytes outside the block's data area stay |
| RecordLog.Device.RecordEvent | csrc/op_profiling/plugin/memory_chart/record_load.h:28-50 | check and write together keep, for all blocks at once, header and bytes telling the log, as long as the length field does not wrap |
| RecordLog.Device.SetMte2SrcPara | csrc/op_profiling/plugin/memory_chart/record_load.h:125-136 | a check without a record: counted like one when it fails, otherwise only the setting of that block changes |
| RecordLog.OneAttempt | csrc/op_profiling/plugin/memory_chart/recoder.h:49-92 | what one attempt does to a log, by sizes alone: it fails if an earlier one has or if its record would end beyond the data size; otherwise its record is appended |
| RecordLog.BytesAre | csrc/op_profiling/plugin/memory_chart/recoder.h:82-87 | the bytes of a record: the type, lowest byte first, the magic word, the body |
| RecordLog.Device.RecordAll | csrc/op_profiling/plugin/memory_chart/recoder.h:49-92 | after any sequence of attempts by any cores on any blocks, every block's log is that of the attempts on it, and header and bytes tell it |
| RecordLog.OtherBlockKept | csrc/op_profiling/plugin/memory_chart/recoder.h:58-59 | writes inside one block leave every other block's log alone |
| RecordLog.AppendedBlock | csrc/op_profiling/plugin/memory_chart/recoder.h:78-91 | the record ends within the block's data size and extends the log by itself |
| RecordLog.OverflowBit | csrc/op_profiling/plugin/memory_chart/recoder.h:61-66 | the top bit of the length is set exactly after the first failure |
| RecordLog.WrapForgetsTheLog | csrc/op_profiling/plugin/memory_chart/recoder.h:61-62 | after one more failure header and bytes still tell the log if and only if the length field does not wrap |
| RecordLog.PrefixIsAccepted | csrc/op_profiling/plugin/memory_chart/recoder.h:49-92 | in any run of attempts of mixed sizes, the first failure is the first attempt whose record would end beyond the data size behind those accepted; the records before it are the log, in order, and all attempts from it on are counted as failed |
| RecordLog.AfterAllSnoc | csrc/op_profiling/plugin/memory_chart/recoder.h:49-92 | a run of attempts and one more come to the same as the longer run |
| RecordLog.NothingAfterOverflow | csrc/op_profiling/plugin/memory_chart/recoder.h:61-70 | once overflowed, nothing is accepted and every attempt is counted |
| RecordLog.ParseMemoryChart | csrc/op_profiling/profiling/device/data_parse/dbi_parser.cpp:65-113 | the host's loop reads what `ReadFrom` says on any bytes, and processed plus dropped is the count |
| RecordLog.ReadsWhatWasWritten | csrc/op_profiling/profiling/device/data_parse/dbi_parser.cpp:74-103 | reading returns exactly the written records, in order, whatever bytes follow |
| RecordLog.NextExactly | csrc/op_profiling/profiling/device/data_parse/dbi_parser.cpp:74-103 | byte for byte, what is read next: no more than a header, no magic word or an unknown type end the reading; a record cut short counts and ends it; any other is read and reading goes on behind it |
| RecordLog.ReadsUpToDamage | csrc/op_profiling/profiling/device/data_parse/dbi_parser.cpp:80-98 | from a damaged log exactly the records in front of the damage are read, however many are counted |
| RecordLog.RunReadsBack | csrc/op_profiling/plugin/memory_chart/recoder.h:49-92 | after any run on a block the host reads the records wanted before the first that did not fit, and length without its top bit minus count is the number of attempts lost |
| SlotLayout.TryGetBlockIdx | csrc/op_profiling/plugin/utils.h:228-261 | the slot of a core by kind and architecture, and whether it is within the blocks |
| SlotLayout.EverySlotOnce | csrc/op_profiling/plugin/utils.h:245-249 | cores and slots correspond one to one in both directions |
| SlotLayout.QuotientAndRest | csrc/op_profiling/plugin/utils.h:311-312 | slot / 3 and slot % 3 give back mixed block and place |
| SlotLayout.CoresDoNotMeet | csrc/op_profiling/plugin/memory_chart/recoder.h:78-79 | different cores never address the same byte |
| LaunchQuota.DeviceProcess.GetOutputPath | csrc/op_profiling/prof_injection/device_process_manager.h:29-41 | the directory with the current number of the kernel, whose number then grows modulo 2^16 |
| LaunchQuota.DeviceProcessManager.ProcessKernelEvent | csrc/op_profiling/prof_injection/device_process_manager.cpp:23-55 | every launch is answered as its history says: skipped, refused or given the next path |
| LaunchQuota.ProfiledExactly | csrc/op_profiling/prof_injection/device_process_manager.cpp:23-45 | a launch is profiled if and only if its client has made profSkipTimes launches on the device, its name is selected, and fewer than profMaxTimes of the client's later launches there had a selected name |
| LaunchQuota.PathExactly | csrc/op_profiling/prof_injection/device_process_manager.h:38-39 | the answer, spelled out: directory, device, kernel and running number in decimal, "dump" |
| LaunchQuota.RecordedExactly | csrc/op_profiling/prof_injection/device_process_manager.h:32-37 | the running number of a kernel on a device is how many of its earlier launches there, by any client, were given a path |
| LaunchQuota.DeviceProcessManager.ProcessCtrl | csrc/op_profiling/prof_injection/device_process_manager.cpp:57-68 | termination is sent if and only if completion is reported and the quota is met |
| LaunchQuota.DeviceProcessManager.CheckKernel | csrc/op_profiling/prof_injection/device_process_manager.cpp:70-85 | a name passes if there is no selection, or it is not empty and some pattern fits |
| LaunchQuota.SelectedExactly | csrc/op_profiling/prof_injection/device_process_manager.cpp:70-85 | one fitting pattern is enough, a further pattern never takes a kernel out, an empty name or one that fits no pattern is refused |
| LaunchQuota.DeviceProcessManager.SetProfConfig | csrc/op_profiling/prof_injection/device_process_manager.cpp:87-95 | a new configuration starts from an empty history |
| LaunchQuota.QuotaIsMet | csrc/op_profiling/prof_injection/device_process_manager.cpp:31-53 | per client and device exactly the first profMaxTimes selected launches after the first profSkipTimes launches of any name are given a path |
| LaunchQuota.KeysDoNotInterfere | csrc/op_profiling/prof_injection/device_process_manager.cpp:29-41 | other clients and devices make no difference to who is profiled |
| LaunchQuota.KeyInjective | csrc/op_profiling/prof_injection/device_process_manager.cpp:29 | the textual keys of different clients or devices differ |
| LaunchQuota.PathInjective | csrc/op_profiling/prof_injection/device_process_manager.h:38-39 | a path tells device, kernel name and number, for every name, empty or with separators |
| LaunchQuota.PathsDistinctExactly | csrc/op_profiling/prof_injection/device_process_manager.h:36-37 | all paths of a run are distinct if and only if no kernel is recorded more than 65536 times on one device |
| MaskedDecode.MaskOrder | csrc/op_profiling/instr_encoding/instr_encoding.h:294-312 | all masks, each once, by number of bits and then value, descending, whatever the hash order |
| MaskedDecode.BeforeExactly | csrc/op_profiling/instr_encoding/instr_encoding.h:300-310 | the order of 64-bit masks by their bits: more bits set first, then the larger |
| MaskedDecode.PopCountIs | csrc/op_profiling/instr_encoding/instr_encoding.h:303-306 | the count of bits is the number of places below the width that are set |
| MaskedDecode.UpdateEncoding | csrc/op_profiling/instr_encoding/instr_encoding.cpp:194-223 | finds nothing exactly if no pattern matches, else the entry of the most specific matching mask |
| MaskedDecode.AndBits | csrc/op_profiling/instr_encoding/instr_encoding.cpp:213 | a bit of a masked encoding is set if and only if it is set in encoding and mask |
| MaskedDecode.BitsDecide | csrc/op_profiling/instr_encoding/instr_encoding.cpp:213 | and bits decide which number it is |
| MaskedDecode.MatchesExactly | csrc/op_profiling/instr_encoding/instr_encoding.cpp:212-215 | bit by bit: a mask matches if and only if a table of its group lists a key without bits outside the mask with which the encoding agrees in every bit of the mask |
| MaskedDecode.MatchGives | csrc/op_profiling/instr_encoding/instr_encoding.cpp:214-218 | a matching mask gives pipe and name of the first such table |
| MaskedDecode.FoundExactly | csrc/op_profiling/instr_encoding/instr_encoding.cpp:214-218 | the first table that lists a key is found, with its pipe and the name it lists |
| MaskedDecode.UpdateEncoding32 | csrc/op_profiling/instr_encoding/instr_encoding.cpp:194-208 | the same at 32 bits, where the entry's pipe is renamed for display |
| MaskedDecode.InstrUpdate | csrc/op_profiling/instr_encoding/instr_encoding.cpp:240-254 | flow control shows as the pipe a special instruction names, or as scalar; SIMD shows as vector, also when named |
| MaskedDecode.ShownExactly | csrc/op_profiling/instr_encoding/instr_encoding.cpp:240-270 | which pipe is shown for every kind: flow control as the pipe that a special instruction names in bits 10 to 13, or as SCALAR; SIMD as VECTOR, also when named; all others unchanged |
| MaskedDecode.PipeBits | csrc/op_profiling/instr_encoding/instr_encoding.cpp:262 | the bits that name a pipe are bits 10 to 13 |
| MaskedDecode.GetSpecialInstrPipeByEncoding | csrc/op_profiling/instr_encoding/instr_encoding.cpp:257-270 | in whatever order: the pipe named by the encoding if it is a special instruction and names one |
| MaskedDecode.InternalPipesAreHidden | csrc/op_profiling/instr_encoding/instr_encoding.cpp:240-254 | SIMD never shows, nor does flow control unless the table of pipes names it |
| MaskedDecode.MostSpecificIsUnique | csrc/op_profiling/instr_encoding/instr_encoding.h:300-310 | there is one most specific match only |
| MaskedDecode.ExtensionComesFirst | csrc/op_profiling/instr_encoding/instr_encoding.h:300-310 | a mask that looks at more bits is tried before every mask it extends |
| MaskedDecode.NoMatchExtendsTheChosen | csrc/op_profiling/instr_encoding/instr_encoding.cpp:194-223 | the chosen mask is not a mere widening of another matching one |
| MaskedDecode.UpdateEncoding128 | csrc/op_profiling/instr_encoding/instr_encoding.cpp:225-239 | in whatever order: nothing exactly if no pattern matches, else the entry of some match |
| MaskedDecode.Matches128Exactly | csrc/op_profiling/instr_encoding/instr_encoding.cpp:227-230 | a 128-bit mask matches if and only if a table of its group lists both halves of the encoding under the mask |
| MaskedDecode.ShippedMatchesExactly | csrc/op_profiling/instr_encoding/instr_encoding.h:203-213 | the shipped table matches exactly the encodings that meet a listed pattern and have the lowest bit of the high half |
| MaskedDecode.PatternsAreApart | csrc/op_profiling/instr_encoding/instr_encoding.h:203-213 | for all 64-bit low halves, the listed patterns of two masks never both fit |
| MaskedDecode.TableHoldsPatterns | csrc/op_profiling/instr_encoding/encodingA5/VectorInstrTableA5.h:110-223 | every match in the 128-bit table is a match with a listed pattern |
| MaskedDecode.OrderDoesNotMatter | csrc/op_profiling/instr_encoding/instr_encoding.cpp:225-239 | so the unsorted 128-bit lookup does not depend on the hash order |
| AddrMerge.MergeAddrRange | csrc/utils/cpputils/pc_process.cpp:25-60 | the printed ranges are the cut of the addresses at all neighbours that are not near; nothing comes out exactly for no addresses or an overflow |
| AddrMerge.HexRoundTrip | csrc/utils/cpputils/ustring.h:199-204 | every 64-bit value printed in hexadecimal parses back |
| AddrMerge.TextExactly | csrc/utils/cpputils/ustring.h:199-204 | the printed text: prefix, zeros up to the size, digits without a leading zero, of which the last is the remainder by 16 and the others print the quotient |
| AddrMerge.ReadsExactly | csrc/utils/cpputils/ustring.cpp:81-98 | digits read as their value if it is a 64-bit word, alike without prefix, with 0x and with 0X; a digit more multiplies by 16 |
| AddrMerge.RefusedExactly | csrc/utils/cpputils/ustring.cpp:92-102 | empty text, and text with anything but digits behind the prefix, is refused |
| AddrMerge.DigitExactly | csrc/utils/cpputils/ustring.cpp:91 | which characters are hexadecimal digits, and of what value |
| AddrMerge.RangesUnshifted | csrc/utils/cpputils/pc_process.cpp:50-57 | at startPc = 0 ranges ascend, end in addresses, hold neighbours at most 4 apart and are more than 4 apart |
| AddrMerge.NeverFailsUnshifted | csrc/utils/cpputils/pc_process.cpp:32-49 | at startPc = 0 no set of addresses overflows |
| AddrMerge.NoOverflowExactly | csrc/utils/cpputils/pc_process.cpp:32-49 | nothing overflows if and only if every address plus startPc, and every address but the last plus twice startPc, is a 64-bit word |
| AddrMerge.EveryAddressCovered | csrc/utils/cpputils/pc_process.cpp:38-58 | every address lies in a range |
| AddrMerge.CutIsUnique | csrc/utils/cpputils/pc_process.cpp:38-58 | addresses and startPc leave one way to cut |
| AddrMerge.ShiftAgreesExactly | csrc/utils/cpputils/pc_process.cpp:45-50 | a nonzero startPc changes the ranges exactly if some gap is at most 4 and below startPc, or above 4 but between startPc and startPc + 4 |
| AddrMerge.PairsWhenShifted | csrc/utils/cpputils/pc_process.cpp:45-50 | two addresses share a range if and only if their distance is between startPc and startPc + 4 |
| PathNormal.GetAbsolutePath | csrc/utils/cpputils/filesystem.cpp:293-328 | the scanning loop computes the walk of the components from the root, after home and working directory are put in front |
| PathNormal.NormalExactly | csrc/utils/cpputils/filesystem.cpp:297-309 | where a path starts: an absolute one at the root, one with ~ in the home directory, any other in the working directory, put in front with a slash |
| PathNormal.NameEnters | csrc/utils/cpputils/filesystem.cpp:320-322 | a name at the end adds one directory to those reached before it |
| PathNormal.ParentLeaves | csrc/utils/cpputils/filesystem.cpp:316-319 | a name and ".." after any path change nothing |
| PathNormal.ParentOfRoot | csrc/utils/cpputils/filesystem.cpp:316-319 | ".." at the root stays there |
| PathNormal.SelfStays | csrc/utils/cpputils/filesystem.cpp:313-323 | "." and additional slashes change nothing |
| PathNormal.RelativeName | csrc/utils/cpputils/filesystem.cpp:304-309 | a name under a working directory is one more directory behind those of the working directory |
| PathNormal.ResultIsCanonical | csrc/utils/cpputils/filesystem.cpp:311-327 | a result starts with a slash, has no empty, "." or ".." component, single separators, and names the directories reached |
| PathNormal.Idempotent | csrc/utils/cpputils/filesystem.cpp:293-328 | normalising a result again changes nothing, whatever home and working directory are |
| PathNormal.PrefixFirst | csrc/utils/cpputils/filesystem.cpp:311-327 | a leading part may be normalised first |
| PathNormal.FailsExactly | csrc/utils/cpputils/filesystem.cpp:298-309 | it fails if and only if the home or working directory it needs is missing |
| Strings.Join | csrc/utils/cpputils/ustring.h:34-47 | joins the parts that are not empty |
| Strings.DecimalIsValue | csrc/op_profiling/prof_injection/device_process_manager.h:38 | a number in decimal stands for that number and has no leading zero |

## Left out

- PacketFraming.Packet.ProcessMsg: the union of decoded payloads and the flag for the second instruction-log layout are not modelled; sizes and head decoding are parameters because Protocol.h is not part of this model; message lengths are unbounded, so the overflow guards on lengths never fire except where an index or buffer is really too long.
- InjectionEvents.InjectionEvent.Distribute: handler bodies and replies are not modelled, handlers do not change during a run, and allocation of packets succeeds.
- ThreadPools.ThreadPool.Start: an exception while a thread is created and the destructor are not modelled.
- ThreadPools.ThreadPool.WaitTest: one thread calls Start, WaitAllTasks and Stop; several callers in WaitAllTasks at once are not modelled, of which one could be left asleep because a fetch notifies one only.
- PluginManagers.PluginManager.RunAllPlugins: a plugin is the code its run returns or an exception; a wait sees finitely many spurious wakeups and the threads share the processor, or it would not end; the variant that does not block is left out.
- PmuPacking.GetUpNumCanDivisibleByX: the quotient in double precision is a real quotient.
- PmuPacking.GetEventIndexMap: what `std::sort` does with a comparator for which it is undefined is not modelled; `SortIsDefinedExactly` tells when that is.
- PmuPacking.GetSortedEventsByMetrics: the limits of the chips are parameters that fit the table: at least two counters, whole rows, room for the table, fewer than 65534 events.
- EventTables.ConflictDecides: the tables of other cores and chips are not modelled as data.
- RunningTime.CalculateRunningTime: the result is the number of cycles; the conversion to microseconds in floating point is left out.
- SafeArithmetic.SafeMulIsExact: unsigned words only; signed and floating-point instances and SafeMulAddAll are left out.
- TruncatedIndex.InstrDisassembler.FindDisassembly: the tables are given; running objdump and reading its lines is left out, and the mutex makes each call one step.
- BinaryText.ParseBinary: characters beyond ASCII have no case.
- RecordLog.Device.RecordEvent: an attempt is one step; attempts on one block at the same time, as threads of one core could make, are not modelled.
- RecordLog.Device.RecordAll: fewer than 2^62 attempts per block, so that no length field wraps (`WrapForgetsTheLog`).
- RecordLog.Device.RecordPreCheck: what a device does after a length field has wrapped is not followed further; the pointer is not null; cache flushing is not modelled, and headers are fields instead of bytes because their layout is defined elsewhere.
- RecordLog.ParseMemoryChart: the per-type evaluation of a record and the counters of the failure kinds are left out.
- LaunchQuota.DeviceProcessManager.ProcessKernelEvent: pattern matching is a given relation between names and patterns, and a configuration gives its set of patterns already split.
- MaskedDecode.UpdateEncoding: the tables for 32 and 64 bits are given, not modelled as data.
- AddrMerge.MergeAddrRange: the set of addresses is its ascending sequence; the overload for textual addresses is left out.
- AddrMerge.StoullConverter: radix 16 and the strict conversion only; signs and leading blanks are left out.
- PathNormal.GetAbsolutePath: reading the environment and the working directory are parameters.
- Process control, sockets, files, configuration parsing, argument checks, charts and driver calls: foreign calls or branch-by-branch checks.
