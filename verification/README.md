# Verification of the Hero runtime and device scheduler

Hero is a query-runtime prototype. Below its OpenCL layer lie a small runtime library (memory pools,
barriers, hash tables, containers, SQL types) and a scheduler that lets several devices share one
query plan. This project models the parts of that code whose correctness rests on an argument rather
than on inspection, and proves the argument.

* **Concurrent protocols** are transition systems: every load, store, compare-exchange, lock operation
  or atomic add of the source is one step, any number of threads (devices, work items) take steps in
  any order, and a compare-exchange may fail for no reason. Atomics are sequentially consistent. The
  theorems are about every state of every run. `GlobalPool` is the lock-free bump allocator,
  `BarrierTree`, `BarrierProtocol` and `BarrierBuild` are the hierarchical round barrier and its
  construction, `HashmapProtocol` is the tagged compare-exchange push, `Exchange` the multi-device
  scheduler, `PrefixSum` the two-level scan kernel.
* **Data structures that the source changes in place** are classes or work on arrays, and their methods
  are proved against what a simple map, list or log would say: `Hashmap`, `HashmapSmall`, `MmapTable`,
  `Allocator`, `Chunks`, `Stack`, `PartitionedDeque`, and the kernels of `ColumnKernels`. The building and
  freeing of barriers in `BarrierBuild` is of this kind too.
* **Arithmetic and text** are functions on words with their wrap-around written out, next to loops proved
  equal to parsing functions: `JulianDay`, `Decimal`, `DateText`, `Numeric`. `Bits`, `TaggedWord`, `Sizing` and
  `Common` hold the word arithmetic and the small definitions the others share.

The hash function is arbitrary throughout. Addresses, sizes and counts are unbounded naturals unless
the width is the point (dates, numerics, hashes, barrier rounds, kernel words).

What the proofs turned up:

* The scheduler's work queue has room for 20 operators and the result of `push` is not looked at
  (`runtime_layer/morsel_driven/exchange.cpp:56`, `runtime_layer/morsel_driven/exchange.hpp:78`): a plan is executed
  completely if and only if it has at most 20 kernels (`Exchange.WholePlanIffItFits`); of 21 independent kernels
  the last one is never executed (`Exchange.TwentyFirstKernelIsLost`, `Exchange.LostInEveryRun`).
* A null `Timestamp` prints `NULL` followed by a date, which `castString` rejects
  (`TPCH/common/runtime/Types.cpp:319-331`, `DateText.NullDoesNotRoundTrip`).
* `Numeric` overflows while printing at precision 18 for large fractions and for the least integer, and does
  not read back numbers of 19 digits at precision 0; `Numeric.NumericRoundTrip` has the exact condition.
* `Numeric::castString` rescales in 64 bits without a check: an accepted text yields the number it spells if and
  only if the rescaled number is below 2^63 (`Numeric.CastIsExactIff`). At precision 2 the text
  999999999999999999 is accepted and yields another number (`Numeric.RescalingWraps`).
* No step of `mergeJulianDay` wraps up to year 9999 (`JulianDay.NoMergeStepWraps`). `splitJulianDay` splits without a
  wrapping step exactly the days from 1 March of year 0 to day 1073709779 (`JulianDay.NoSplitStepWraps`): for
  January and February of year 0 the year passes through -1 and back (`JulianDay.FirstDayWraps`). The
  result is right all the same (`JulianDay.SplitIsExact`).
* The fields of dates and times are kept in 32 bits while they are read, and only then checked for their range:
  the year 4294967296 is read as year 0 (`DateText.YearsWrap`).

Choices where the code leaves room or differs from its purpose:

* `HashmapSmall::clearByMemset` passes `INT_MAX` to `memset`, whose byte fill reads back as -1
  (`TPCH/common/runtime/HashmapSmall.hpp:18`, `TPCH/common/runtime/HashmapSmall.hpp:58`). The model writes `empty` to every slot.
* `process_in_device` ignores a failed `pop` (`runtime_layer/morsel_driven/exchange.cpp:94`), which would run the previous
  operator again. The model leaves the loop.
* The load factors 0.7 and 0.3 are 7/10 and 3/10. A power of two times 7/10 or 3/10 is never an integer, so
  that the comparisons and floors agree with the doubles.
* The plan's vertex order is taken to be topological, as `boost::topological_sort` promises, and the display vertex
  to have no outgoing edges, as its constructor says.

## Model

| member | source | states |
|---|---|---|
| GlobalPool.StartNeverRepeats | TPCH/common/runtime/MemoryPool.cpp:47-60 | A value of `start` identifies its chunk: no address belongs to the data of one chunk and the end of another. |
| GlobalPool.StartNeverComesBack | TPCH/common/runtime/MemoryPool.cpp:31-67 | Over every run `start` never comes back to a value it has left: a thread whose exchange finds the value it read knows that the word has not moved in between. |
| GlobalPool.MixedSnapshotIsHarmless | TPCH/common/runtime/MemoryPool.cpp:31-36 | A `start` read earlier and an `end` read now that pass the availability check cannot lead to a block outside the chunk: if the exchange can still succeed, the block fits. |
| GlobalPool.StepPreservesInv | TPCH/common/runtime/MemoryPool.cpp:26-70 | Every atomic step of every thread, including both store orders of the refill, keeps the invariant. |
| GlobalPool.BlocksAreDisjointAndInsideOneChunk | TPCH/common/runtime/MemoryPool.cpp:26-70 | In every run of any number of threads all blocks returned are pairwise disjoint and each lies in the data area of one chunk. |
| GlobalPool.CallHandsOutItsRequest | TPCH/common/runtime/MemoryPool.cpp:26-70 | Every call of `allocate(n)`, from the request to the return and whatever it goes through, records one block of exactly n bytes at the address it returns; `start` was there and moved on by n. |
| GlobalPool.CallIsInsideOneChunk | TPCH/common/runtime/MemoryPool.cpp:26-70 | The n bytes from the returned address on lie behind the header of one chunk and before its end. |
| GlobalPool.CallsAreDisjoint | TPCH/common/runtime/MemoryPool.cpp:26-70 | For any two calls of a run, with requests n and n' and results a and a': [a, a+n) and [a', a'+n') are disjoint. |
| GlobalPool.ClosedOnlyWhenShort | TPCH/common/runtime/MemoryPool.cpp:38-46 | A chunk is drained only while the request at hand reaches the end of what is left of it. |
| GlobalPool.ChunksDouble | TPCH/common/runtime/MemoryPool.cpp:47-49 | A new chunk has twice the size of the last one, or the size of the request if that is larger. |
| GlobalPool.AloneItReturns | TPCH/common/runtime/MemoryPool.cpp:26-70 | A thread that runs alone, without spurious failures, returns within 17 steps, also when it has to add a chunk. |
| GlobalPool.ThreadCanGoOn | TPCH/common/runtime/MemoryPool.cpp:35-36 | Only the lock can hold a thread up. |
| BarrierProtocol.StepPreservesInv | TPCH/common/runtime/Barrier.hpp:21-39 | Every atomic step of `wait` on any node of any well-formed tree keeps the invariant. |
| BarrierProtocol.ByteComparisonIsExact | TPCH/common/runtime/Barrier.hpp:22-31 | At every point of every run: for a thread spinning inside `wait` the true round is the one it arrived in or the next, and the wrapping 8-bit `round` differs from `prevRound` exactly when it is the next. |
| BarrierProtocol.CounterIsQuietUntilRoundEnds | TPCH/common/runtime/Barrier.hpp:24-29 | From the arrival of the last caller of a barrier to its `round++`, the time its leader spends waiting at the parents included, every other thread at that barrier spins: nobody decrements `cntr`. |
| BarrierProtocol.NobodyLeavesEarly | TPCH/common/runtime/Barrier.hpp:111-120 | In every run, when a thread has left its k-th `wait` all threads have arrived at theirs. |
| BarrierProtocol.FinalizerRunsInBetween | TPCH/common/runtime/Barrier.hpp:111-120 | At every point of every run the finalizer has run at least as often as any thread has left `wait` and at most as often as any has arrived, and once for every completed round of the root, plus at most once for the round being completed. |
| BarrierProtocol.FinalizerIsAlone | TPCH/common/runtime/Barrier.hpp:111-120 | While a thread is about to run the finalizer all threads have arrived for that round, none has left it, and no other thread is about to run it. |
| BarrierProtocol.ExactlyOneReturnsTrue | TPCH/common/runtime/Barrier.hpp:21-39 | Of the results of one round exactly one is true. |
| BarrierProtocol.SomeThreadCanProceed | TPCH/common/runtime/Barrier.hpp:30-36 | While all threads are inside `wait`, some thread is not spinning in vain. |
| BarrierProtocol.RoundsGoOn | TPCH/common/runtime/Barrier.hpp:21-39 | The steps of a run other than vain spins are bounded by the rounds completed at the root: no run stays in a round for ever but by spinning. |
| BarrierBuild.Arena.Create | TPCH/common/runtime/Barrier.hpp:57-91 | `create(n)` terminates, returns the ceil(n/8) leaves and leaves exactly the nodes of the tree for n callers, all live. |
| BarrierBuild.Arena.CreateLevel | TPCH/common/runtime/Barrier.hpp:74-90 | The loops push full barriers and the rest barrier, eight to a parent, in order. |
| BarrierBuild.Arena.Destroy | TPCH/common/runtime/Barrier.hpp:93-102 | `destroy` frees every barrier of every level, each while it is still live, hence once, and nothing else. |
| BarrierBuild.LeafCounts | TPCH/common/runtime/Barrier.hpp:65-89 | Each leaf's count is the number of threads `run` assigns to it. |
| BarrierBuild.LeavesCountAll | TPCH/common/runtime/Barrier.hpp:65-89 | For every n >= 1 the counts of the ceil(n/8) leaves sum to n. |
| BarrierBuild.GroupTreeIsWellFormed | TPCH/common/runtime/Barrier.hpp:57-91 | For every n the tree has one root, parents before children, and every barrier counts exactly its callers, threads or child barriers. |
| BarrierBuild.AssignWorkers | TPCH/common/runtime/Concurrency.hpp:81-113 | Worker t gets leaf t / 8, the calling thread the last leaf. |
| BarrierBuild.RunGroup | TPCH/common/runtime/Concurrency.hpp:78-123 | Building, assigning and destroying the barriers of a group: the tree handed out is the well-formed tree of the group, made of the arena's nodes, and at the end no barrier of the arena is live. |
| BarrierBuild.CreatedBarriersAreSafe | TPCH/common/runtime/Barrier.hpp:57-120 | For the trees `create` makes, for every number of workers: nobody leaves early, the finalizer runs once per round between the arrivals and the departures, exactly one worker is told true, and not all are stuck. |
| BarrierBuild.CreatedBarriersStayInStep | TPCH/common/runtime/Barrier.hpp:21-39 | In them the byte comparison is exact for every spinning worker, and no worker but its leader is about to touch the counter of a led barrier. |
| TaggedWord.UpdateBit | TPCH/common/runtime/Hashmap.hpp:99-104 | What every bit of an updated slot word is. |
| TaggedWord.WordArithmetic | TPCH/common/runtime/Hashmap.hpp:85-97 | The slot is the hash modulo the directory size, the tag is 2^(48 + the four highest bits of the hash), the pointer is the word modulo 2^48. |
| TaggedWord.UpdatePointer | TPCH/common/runtime/Hashmap.hpp:95-104 | The pointer part of an updated word is the new entry. |
| TaggedWord.UpdateFilter | TPCH/common/runtime/Hashmap.hpp:85-104 | The filter of an updated word gains exactly the bit of the entry's hash. |
| TaggedWord.MatchIsShows | TPCH/common/runtime/Hashmap.hpp:133-142 | The filter test of `find_chain_tagged` asks for exactly that bit. |
| TaggedWord.ChainIsUnique | TPCH/common/runtime/Hashmap.hpp:106-109 | A chain is determined by its start, so that walking it ends. |
| TaggedWord.PushKeepsFilter | TPCH/common/runtime/Hashmap.hpp:99-104 | A push keeps the filter exact: a bit is set if and only if some entry of the chain has it. |
| HashmapProtocol.StepPreservesInv | TPCH/common/runtime/Hashmap.hpp:153-172 | Every load, link and exchange of any thread keeps the invariant, which holds every chain and filter against the log. |
| HashmapProtocol.ChainsHoldWhatWasInserted | TPCH/common/runtime/Hashmap.hpp:153-172 | In every run each slot's chain is finite, without repetition, and holds exactly the entries of that slot whose exchange succeeded, newest first; the filter is exactly the OR of their tags. |
| HashmapProtocol.InsertsAreKept | TPCH/common/runtime/Hashmap.hpp:153-172 | What was inserted at some point of a run is still inserted at every later point. |
| HashmapProtocol.FilterHidesNothing | TPCH/common/runtime/Hashmap.hpp:133-142 | At every point of a run tagged lookup starts at a chain that holds every inserted entry with the hash. |
| HashmapProtocol.EveryInsertLands | TPCH/common/runtime/Hashmap.hpp:153-172 | An entry that a thread was asked to insert is, at every later point, still with that thread or in the log of inserted entries. |
| HashmapProtocol.FinishedInsertIsFound | TPCH/common/runtime/Hashmap.hpp:133-172 | Once that insert has returned, at every later point of the run, tagged lookup of the entry's hash starts at the chain of its slot, the filter shows its tag, and following the links meets the entry. |
| HashmapProtocol.OnlyRequestsLand | TPCH/common/runtime/Hashmap.hpp:153-172 | Whatever is in the table was requested to be inserted before. |
| HashmapProtocol.OwnStepGetsNearer | TPCH/common/runtime/Hashmap.hpp:158-164 | Each step of the thread itself, spurious failures aside, brings its return nearer, from at most four steps away. |
| Hashmap.PushIsGood | TPCH/common/runtime/Hashmap.hpp:111-131 | A push puts the entry on top of its slot's chain and leaves the other chains alone, with and without tags. |
| Hashmap.NoMatchBehindFilter | TPCH/common/runtime/Hashmap.hpp:133-142 | If the filter turns a hash away, no entry of the chain has it. |
| Hashmap.FirstIsNewest | TPCH/common/runtime/Hashmap.hpp:321-333 | The first match of a chain is the entry inserted last among all with the hash and key. |
| Hashmap.Hashmapx.SetSize | TPCH/common/runtime/Hashmap.hpp:193-208 | The capacity is the least power of two whose 7/10 load limit, returned, is at least the size asked for; the table is empty. |
| Hashmap.Hashmapx.Clear | TPCH/common/runtime/Hashmap.hpp:210-214 | The table is empty. |
| Hashmap.Hashmapx.Push | TPCH/common/runtime/Hashmap.hpp:153-172 | The single-threaded push changes exactly the entry's link and its slot's word. |
| Hashmap.Hashmapx.Insert | TPCH/common/runtime/Hashmap.hpp:264-273 | The log of inserted entries grows by the entry; every chain agrees with the log. |
| Hashmap.Hashmapx.InsertAll | TPCH/common/runtime/Hashmap.hpp:280-289 | The log grows by the entries in order. |
| Hashmap.Hashmapx.FindChain | TPCH/common/runtime/Hashmap.hpp:133-142 | Tagged or not, the chain of the hash's slot is returned, or nothing, and then no entry of the chain has the hash. |
| Hashmap.Hashmapx.FindOne | TPCH/common/runtime/Hashmap.hpp:321-333 | The first entry of the slot's chain with the hash and key, which is the last one inserted of all entries with them, or none if no entry has them; the same with and without tags. |
| Hashmap.Hashmapx.FindOrCreate | TPCH/common/runtime/Hashmap.hpp:371-384 | With keys stored under their hashes the table represents a map from key to cell; the call returns the key's cell and extends the map by a new cell only for a new key. |
| Hashmap.Hashmapx.FindOrCreateAll | TPCH/common/runtime/Hashmap.hpp:371-384 | Over any sequence of calls the table keeps one cell per key and every answer is the cell the key was given first. |
| Exchange.FormProcessingQueue | runtime_layer/morsel_driven/exchange.cpp:32-58 | The queue holds the first 20 kernels of the order; an edge is ready if and only if its source is a scan of the plan. |
| Exchange.ExecuteGraph | runtime_layer/classes/primitive_graph.cpp:136-162 | The sequential execution runs the kernels of the plan in its order. |
| Exchange.KernelsAreAll | runtime_layer/morsel_driven/exchange.cpp:32-58 | A vertex of the order is queued for execution if and only if it is a kernel. |
| Exchange.SequentialOrder | runtime_layer/classes/primitive_graph.cpp:136-162 | It runs an operator after everything the operator reads. |
| Exchange.KernelsKeepOrder | runtime_layer/classes/primitive_graph.cpp:38-52 | A kernel earlier in the plan is earlier in the queue. |
| Exchange.StepPreservesInv | runtime_layer/morsel_driven/exchange.cpp:87-231 | Every step of every main and worker thread keeps the invariant. |
| Exchange.ExecutedInOrder | runtime_layer/morsel_driven/exchange.cpp:139-231 | In every run an operator executes only after everything it reads, no operator executes twice, and no two devices hold the same operator. |
| Exchange.OneOperationPerHandOff | runtime_layer/morsel_driven/exchange.cpp:92-119 | A popped operator has executed if and only if the hand-off of the one device that popped it has reached the execution. |
| Exchange.SomeStepMakesProgress | runtime_layer/morsel_driven/exchange.cpp:163-172 | While a device has not finished, some step other than a spin on missing inputs is enabled. |
| Exchange.RunsAreBounded | runtime_layer/morsel_driven/exchange.cpp:87-231 | The steps of a run other than spins are bounded by a number fixed at its start. |
| Exchange.AllOfTheQueueIsExecuted | runtime_layer/morsel_driven/exchange.cpp:60-78 | When all devices have finished, the operators executed are those of the queue, each once. |
| Exchange.WholePlanIffItFits | runtime_layer/morsel_driven/exchange.cpp:56-57 | They are the operators of the sequential execution, each once, if and only if the plan has at most 20 kernels. |
| Exchange.TwentyFirstKernelIsLost | runtime_layer/morsel_driven/exchange.hpp:78 | A plan of 21 kernels without edges, in order, is a plan the queue does not hold: kernel 20 is not in it. |
| Exchange.LostInEveryRun | runtime_layer/morsel_driven/exchange.cpp:53-78 | In every run on that plan in which all devices finish, with any number of devices, kernel 20 is never executed. |
| HashmapSmall.HashmapSmall.constructor | TPCH/common/runtime/HashmapSmall.hpp:40-51 | A valid empty table with storage for `size` entries and a directory that can grow to hold them at 7/10 load. |
| Sizing.DirectoryFits | TPCH/common/runtime/HashmapSmall.hpp:41-43 | The power of two chosen holds the size at 7/10 load, and half of it would not. |
| Sizing.DirectoryIsInt | TPCH/common/runtime/HashmapSmall.hpp:41-46 | Up to 751619276 entries that power of two fits into an int. |
| HashmapSmall.RoomToDouble | TPCH/common/runtime/HashmapSmall.hpp:91-94 | While at most `size` entries are inserted, a directory over its limit can double within `maxCapacity`. |
| HashmapSmall.DoublingIsEnough | TPCH/common/runtime/HashmapSmall.hpp:91-94 | One doubling restores `storageUsed <= capLimit`. |
| HashmapSmall.HashmapSmall.Insert | TPCH/common/runtime/HashmapSmall.hpp:76-109 | The list of inserts grows by the entry; the directory doubles exactly when the entries pass 7/10 of it. |
| HashmapSmall.HashmapSmall.Grow | TPCH/common/runtime/HashmapSmall.hpp:91-108 | The directory doubles and links the same entries again. |
| HashmapSmall.OneSlotIsEnough | TPCH/common/runtime/HashmapSmall.hpp:68-75 | When `comp` implies the hash, the newest match in the hash's slot is the newest match of all. |
| HashmapSmall.HashmapSmall.FindFirst | TPCH/common/runtime/HashmapSmall.hpp:68-75 | The newest match since the last clear; the walk goes down in index at every step. |
| HashmapSmall.StoredSlotsAreAll | TPCH/common/runtime/HashmapSmall.hpp:60-66 | Clearing the slots of the stored entries empties the whole directory. |
| HashmapSmall.HashmapSmall.Clear | TPCH/common/runtime/HashmapSmall.hpp:60-66 | By either path the table is empty and valid. |
| MmapTable.RecordsAreApart | TPCH/common/runtime/Mmap.hpp:83-92 | Records overlap neither each other nor the directory. |
| MmapTable.AddRecord | TPCH/common/runtime/Mmap.hpp:83-92 | Writing one more record keeps all earlier ones readable and makes its slot lead to it; the next offset lies right behind it. |
| MmapTable.WriteBinary | TPCH/common/runtime/Mmap.hpp:64-95 | The image holds every entry of the map behind its slot; the final offset equals the space computed; the directory has at least 3/2 and fewer than 3 slots per key (or two slots). |
| MmapTable.WriteRecord | TPCH/common/runtime/Mmap.hpp:84-90 | A record's fields and values can be read back and nothing outside the record changes. |
| MmapTable.DirectoryFormat | TPCH/common/runtime/Mmap.hpp:31-34 | The mask lies at byte 0 and the word of slot p at byte 8 + 8p. |
| MmapTable.Format | TPCH/common/runtime/Mmap.hpp:36-46 | A record holds its count of values at byte 0, the link at byte 8, the key at byte 16 and value j at valuesAt + j * sizeof(V). |
| MmapTable.Places | TPCH/common/runtime/Mmap.hpp:81-92 | The first record lies right behind the directory, each further one right behind the one before. |
| MmapTable.LinksGoDown | TPCH/common/runtime/Mmap.hpp:88-89 | A record's link is a smaller offset than its own. |
| MmapTable.Lookup | TPCH/common/runtime/Mmap.hpp:121-130 | Looking up a key in the image of a map gives exactly the values of the entry with that key, or nothing if there is none. |
| JulianDay.SplitNumber | TPCH/common/runtime/Types.cpp:108-131 | Splitting the number of any real date from year 0 on gives the date back. |
| JulianDay.NumberSplit | TPCH/common/runtime/Types.cpp:108-131 | Every number from 1721060 on splits into a real date whose number it is. |
| JulianDay.NextDayNumber | TPCH/common/runtime/Types.cpp:108-116 | The day after a date, leap rule included, has the next number. |
| JulianDay.KnownDays | TPCH/common/runtime/Types.cpp:108-116 | Five published Julian day numbers, among them 2440588 for 1 January 1970. |
| JulianDay.MergeIsExact | TPCH/common/runtime/Types.cpp:108-116 | On words, `mergeJulianDay` of a date up to year 9999 is its day number, within the days of the years 0 to 9999. |
| JulianDay.NoMergeStepWraps | TPCH/common/runtime/Types.cpp:108-116 | For every date up to year 9999 each intermediate of `mergeJulianDay` fits into 32 bits. |
| JulianDay.MergeFitsIsExact | TPCH/common/runtime/Types.cpp:108-116 | The intermediates listed are all there are: where they fit, the word computation equals the unbounded one. |
| JulianDay.SplitIsExact | TPCH/common/runtime/Types.cpp:118-131 | From day 1721060, the first of year 0, to day 1073709779 the word computation of `splitJulianDay` equals the unbounded one. |
| JulianDay.NoSplitStepWraps | TPCH/common/runtime/Types.cpp:118-131 | For every word, the intermediates of `splitJulianDay` all fit into 32 bits if and only if the day lies from 1 March of year 0 to day 1073709779. |
| JulianDay.SplitFitsIsExact | TPCH/common/runtime/Types.cpp:118-131 | The intermediates listed are all there are: where they fit, the word computation equals the unbounded one. |
| JulianDay.FirstDayWraps | TPCH/common/runtime/Types.cpp:130 | On 1 January of year 0 a step wraps, and the result is right. |
| JulianDay.MergeAndSplitAreInverse | TPCH/common/runtime/Types.cpp:108-131 | On the real dates of the years 0 to 9999 the 32-bit split undoes the 32-bit merge. |
| JulianDay.SplitAndMergeAreInverse | TPCH/common/runtime/Types.cpp:108-131 | On their numbers the merge undoes the split. |
| JulianDay.SplitTimeMerges | TPCH/common/runtime/Types.cpp:102-106 | Merging the time split from the milliseconds of a day gives them back. |
| JulianDay.MergeTimeSplits | TPCH/common/runtime/Types.cpp:307-314 | Splitting the merged milliseconds of a time of day gives it back. |
| JulianDay.MergeTimeIsExact | TPCH/common/runtime/Types.cpp:102-106 | The merged time is the milliseconds since midnight, without wrap-around. |
| Decimal.ReadField | TPCH/common/runtime/Types.cpp:163-172 | The field loop of the parsers reads what the parsing function says, on every input, errors included. |
| Decimal.TrimBlanks | TPCH/common/runtime/Types.cpp:157-161 | The two loops cut off blanks only, and what is left is empty or neither begins nor ends with a blank. |
| Decimal.ReadPadded | TPCH/common/runtime/Types.cpp:147-148 | A printed number, padded or not, reads back as the number. |
| Decimal.DigitCharacters | TPCH/common/runtime/Types.cpp:169 | The digits are the characters 0 to 9, and their values are 0 to 9. |
| Decimal.PlaceValue | TPCH/common/runtime/Types.cpp:163-172 | The i-th character from the right of a text of digits is the digit of 10^i in the number read. |
| Decimal.PrintedPlaces | TPCH/common/runtime/Types.cpp:147-148 | The i-th character from the right of a printed number is its digit of 10^i; there is no leading zero. |
| Decimal.FieldSplits | TPCH/common/runtime/Types.cpp:163-172 | Whatever a field loop accepts are digits up to the stop or the end, and the value is the number they spell modulo 2^32. |
| DateText.CastDate | TPCH/common/runtime/Types.cpp:154-199 | `castString` of dates computes the parsing function on every text. |
| DateText.CastTimestamp | TPCH/common/runtime/Types.cpp:201-297 | `castString` of timestamps computes the parsing function on every text. |
| DateText.CastDateIff | TPCH/common/runtime/Types.cpp:154-199 | The texts read as dates are, between blanks, exactly Y-M-D of digits with values in range, and the result is the number of that day. |
| DateText.CastTimestampIff | TPCH/common/runtime/Types.cpp:201-297 | The texts read as timestamps are NULL and, between blanks, exactly a date, a blank and H:M:S with optional milliseconds; the result is the milliseconds up to that instant. |
| DateText.YearsWrap | TPCH/common/runtime/Types.cpp:163-172 | The year 4294967296 is accepted and read as year 0. |
| DateText.PrintedDate | TPCH/common/runtime/Types.cpp:141-150 | A date of the years 0 to 9999 prints as four, two and two digits with hyphens, which spell its year, month and day. |
| DateText.PrintedTime | TPCH/common/runtime/Types.cpp:316-332 | A time of day prints as its hour, :MM:SS and, unless zero, .mmm. |
| DateText.PrintedTimestamp | TPCH/common/runtime/Types.cpp:316-332 | A timestamp of these years prints as its date, a blank and its time of day. |
| DateText.DateRoundTrip | TPCH/common/runtime/Types.cpp:141-199 | Printing and parsing a date returns it if and only if it is a day of the years 0 to 9999. |
| DateText.TimestampRoundTrip | TPCH/common/runtime/Types.cpp:201-332 | Printing and parsing a timestamp returns it if and only if it is an instant of the years 0 to 9999. |
| DateText.NullDoesNotRoundTrip | TPCH/common/runtime/Types.cpp:316-331 | `NULL` parses as null, and null prints as a text that does not parse. |
| Numeric.Print | TPCH/common/runtime/Types.hpp:661-692 | The output operator writes sign, integer part, point and the fraction padded to the precision, or overflows, exactly when the number is not printable. |
| Numeric.PrintedNumeric | TPCH/common/runtime/Types.hpp:661-692 | The printed text is a minus sign for negative numbers, the digits of |v| / 10^precision, a point and as many digits as the precision says, which spell |v| modulo 10^precision. |
| Numeric.CastString | TPCH/common/runtime/Types.hpp:592-648 | `castString` computes the parsing function on every text: signs, trailing zeros, rejections and overflows. |
| Numeric.CastNumericIff | TPCH/common/runtime/Types.hpp:592-648 | The texts read are, between blanks, exactly an optional sign, at most 18 digits, and a point with digits and zeros, no more than `precision` without the zeros, whose digits stay below 2^63; the result is the signed 64-bit word of their number in units of 10^-precision, negated after a minus. |
| Numeric.DigestIff | TPCH/common/runtime/Types.hpp:614-636 | The digit loop succeeds exactly on digits with at most one point whose number, without trailing zeros of the fraction, fits into 63 bits, and gathers that number and its places. |
| Numeric.CastIsExactIff | TPCH/common/runtime/Types.hpp:592-648 | Which texts are accepted, and that an accepted text yields the number it spells if and only if that number in units of 10^-precision is below 2^63. |
| Numeric.RescalingWraps | TPCH/common/runtime/Types.hpp:638-647 | 999999999999999999 at precision 2 is accepted and yields 7766279631452241820. |
| Numeric.DigestPoint | TPCH/common/runtime/Types.hpp:628-632 | Cutting trailing zeros off the fraction and rescaling keeps the number. |
| Numeric.PrintableIff | TPCH/common/runtime/Types.hpp:666-688 | Below precision 18 everything but the least integer prints; at precision 18 also ten times the fraction must fit. |
| Numeric.NumericRoundTrip | TPCH/common/runtime/Types.hpp:592-692 | Printing and casting back is the identity for all magnitudes below 2^63 at precisions 1 to 17, below 10^18 at precision 0, and at precision 18 when the number prints; and for no others. |
| Numeric.PrecisionEighteenOverflows | TPCH/common/runtime/Types.hpp:684-687 | 0.95 at precision 18 overflows while printing. |
| Allocator.CutIsApart | TPCH/common/runtime/MemoryPool.hpp:69-72 | A block cut at or after `start` meets none handed out before. |
| Allocator.Allocator.SetSource | TPCH/common/runtime/MemoryPool.cpp:72-80 | The pool's block becomes the block in use, all of it free. |
| Allocator.Allocator.Allocate | TPCH/common/runtime/MemoryPool.hpp:55-74 | The new block starts at the next multiple of 64, lies in the pool's latest block and is apart from all earlier ones; `free` stays the bytes remaining. |
| Stack.Stack.EmplaceBack | TPCH/common/runtime/Stack.hpp:99-106 | The contents grow by the element; chunks left from before a clear are used again. |
| Stack.Stack.NewChunk | TPCH/common/runtime/Stack.hpp:108-122 | The next chunk of the chain, or a new one, becomes the last; the contents stay. |
| Stack.CapacityIs | TPCH/common/runtime/Stack.hpp:108-122 | Chunk j has room for 1024 * 2^j elements. |
| Stack.Stack.Clear | TPCH/common/runtime/Stack.hpp:84-90 | The contents are empty; the chunks are kept. |
| Stack.Stack.Back | TPCH/common/runtime/Stack.hpp:81-83 | The element pushed last. |
| Stack.Stack.Size | TPCH/common/runtime/Stack.hpp:95-97 | The number of elements since the last clear. |
| Stack.Stack.Empty | TPCH/common/runtime/Stack.hpp:92-94 | Whether there are none. |
| Stack.Stack.Iterate | TPCH/common/runtime/Stack.hpp:128-151 | Walking the chunks yields exactly the elements since the last clear, in order. |
| PartitionedDeque.Partition.PushBack | TPCH/common/runtime/PartitionedDeque.hpp:125-144 | The partition's contents grow by the element. |
| PartitionedDeque.Partition.Read | TPCH/common/runtime/PartitionedDeque.hpp:146-155 | Reading the chunks, as much of each as `size` says, yields the pushes in order. |
| PartitionedDeque.PartitionedDeque.constructor | TPCH/common/runtime/PartitionedDeque.hpp:98-108 | The partitions number the power of two above the number asked for. |
| PartitionedDeque.PartitionedDeque.Position | TPCH/common/runtime/PartitionedDeque.hpp:119-123 | `hash >> shift` is hash / 2^shift, always the number of a partition. |
| PartitionedDeque.RoutedByQuotient | TPCH/common/runtime/PartitionedDeque.hpp:119-123 | A partition is sent exactly the pushes whose hash / 2^shift is its number, in order. |
| PartitionedDeque.PartitionedDeque.PushBack | TPCH/common/runtime/PartitionedDeque.hpp:119-123 | The log of pushes grows by the push; every partition holds the pushes routed to it. |
| PartitionedDeque.PartitionedDeque.ReadAll | TPCH/common/runtime/PartitionedDeque.hpp:146-155 | Every partition reads back as its pushes in order. |
| PartitionedDeque.NothingIsLost | TPCH/common/runtime/PartitionedDeque.hpp:119-144 | The partitions together hold every pushed element exactly as often as it was pushed. |
| ColumnKernels.Select | kernels/selection_less_than_block.cl:2-13 | In any order of work items, bit r of the bitmap is set if and only if row r is below the limit. |
| ColumnKernels.RowIsBit | kernels/selection_less_than_block.cl:2-13 | Row r is bit r % 32, counted from the lowest, of word r / 32. |
| ColumnKernels.Conjoin | kernels/logical_block.cl:1-4 | In any order, also in place, the bitmap is the conjunction of the two. |
| ColumnKernels.Materialize | kernels/materialize.cl:1-6 | In any order, a row keeps its value if its bit is set and becomes zero otherwise. |
| ColumnKernels.Multiply | kernels/arith_mul.cl:1-4 | In any order, each row is the product modulo 2^32. |
| ColumnKernels.AnyOrder | kernels/aggregate_block.cl:3-10 | Every order of the work items adds up to the same sum. |
| ColumnKernels.SumOfParts | kernels/aggregate_block.cl:3-10 | The sum of two columns joined is the sum of their sums, and of one cell the cell. |
| ColumnKernels.Aggregate | kernels/aggregate_block.cl:1-11 | In any order of work items a zeroed cell ends as the sum of the column modulo 2^32. |
| ColumnKernels.Query | kernels/aggregate_block.cl:1-11 | Selecting, conjoining, materialising, multiplying and aggregating gives the sum modulo 2^32 of the products over the rows that satisfy all predicates. |
| PrefixSum.LocalStep | kernels/partial_prefix_sum.cl:12-19 | A step of the first loop keeps every block's partial sums equal to the zero boundaries counted from the block's start. |
| PrefixSum.AddStep | kernels/partial_prefix_sum.cl:21-24 | An atomic add keeps every offset equal to the totals of the work items that have added to it. |
| PrefixSum.PrefixSumIsCount | kernels/partial_prefix_sum.cl:9-24 | In every run of any number of work items, when all have finished, the partial sum of row i plus the offset of the block before is the number of rows from 1 to i whose boundary is zero. |
| PrefixSum.EveryRunEnds | kernels/partial_prefix_sum.cl:9-24 | A run of n work items has at most n * (33 + n) steps, and until all have finished one of them can take a step. |

## Left out

- OpenCL calls, device discovery, kernel compilation, buffer dictionaries, the kernel wrappers and the transfer of data between devices: foreign calls and plumbing.
- Weak memory ordering: all atomics are taken to be sequentially consistent.
- The protocols of `GlobalPool`, `Barrier`, `insert_tagged`, the scheduler and the prefix-sum kernel are transition systems over values: the steps of one method body cannot be interleaved with those of another, so their update in place is not modelled as such.
- ColumnKernels.Query: runs the work items of a launch one after the other in an arbitrary order; the steps of different work items are not interleaved, since they write disjoint cells or add atomically.
- System calls (`mmap`, `open`, `posix_fallocate`, huge pages): memory obtained is taken to be apart from memory in use, and new directories to be zeroed.
- The termination of `GlobalPool::allocate` and of `insert_tagged` among other threads: a thread may lose every exchange. That it returns when it runs alone is proved.
- `GlobalPool::~GlobalPool`, pinning of workers, and the swapping of the calling worker's fields around `run`.
- SIMD lookup and the hash mixing functions: the hash is an arbitrary function.
- `nrEntries` under concurrent inserts: a plain increment, counted only sequentially.
- `HashmapSmall.FindFirst` returns the index of the entry; callers that write through the pointer to the value are not modelled.
- `ResetableAllocator`: its accounting lacks the slack of `Allocator` and holds only for bounded requests.
- `boost::topological_sort` and `boost::lockfree::queue` themselves: the order is taken to be topological, push and pop to be atomic.
- `mapper-additional/data_parallelism.h`, `kernels/hashBuild.cl`, `kernels/hashProbe.cl`, the between selections and the CPU primitives: no clear contract to prove.
- `SmallStringView`, `BlockRelation`, `Varchar`, `Char`, `Integer`, the `Numeric` operators and casts between precisions, and the algebra operators: easy members.
