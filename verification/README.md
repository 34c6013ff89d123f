# blockbench: a verified model of iofill and ioload

blockbench has two tools for block devices. iofill prefills a range of a device with many
threads; ioload runs a mix of reads, writes and sleeps in stages of growing load and reports
throughput and latency percentiles. This project models the parts of both in which threads,
64-bit arithmetic and statistics interact, and proves what each part is relied on for.

* **Fill.** `FillGeometry` is the offset arithmetic of one block number; `FillSetup` the
  set-up of a thread and the steps of its loop; `NumberTheory` and `FillCoverage` decide which
  bytes one pass over the block numbers writes; `ClaimProtocol` is the loop in which threads
  take numbers from a shared counter, `StreamClaims` the same with a second counter for each
  stream; `FillTheorem` joins them: whatever the interleaving, an
  undisturbed run writes every byte exactly once, exactly under a condition a caller can check.
* **Barriers.** `FillBarrier` is iofill's two-level start and stop barrier, `StageBarrier`
  ioload's staged barrier, `Injection` iofill's stop-the-world protocol and `Segments` the
  shuffled list and the cursors of the injected writes.
* **Statistics.** `LatencyHistogram`, `LoadStats`, `LoadReport` and `LoadTheorems` tie every
  number of an ioload report to the log of raw completions, `StaleLimit` is a run in which
  they mislead, `FillTallies` does so for iofill's
  own tallies and tables, and `DetailsLog` is the bounded log that all threads share.
* **I/O and data.** `LoadIo` is one ioload operation from its random numbers to its pieces;
  `DataGen` fills buffers in place and bounds how many different sectors there can be.
* `Words` writes out 32- and 64-bit words on unbounded integers; `Options` is a value that may be missing.

The concurrent parts are state machines: a step is one access of one thread to a semaphore or
a shared word (or one whole I/O where nothing is shared), a run is any interleaving, and
fields that only record history are named in the comment of the state. Memory is sequentially
consistent and the atomic operations are those of the GCC branches. Code that works step by
step on fields, arrays and counters is written as classes and methods and proved against
functions, about which the lemmas speak. Random numbers, clock readings and the outcome of
device calls are inputs.

## What the proofs found

Where the code does not do what its documentation or its own check intends, the model keeps
the code and the exact condition is proved.

* The documentation warns that a badly chosen `skip` leaves blocks out
  (doc/blockbench.tex:117-120). It does so exactly when `1 + skip` and the number of blocks have
  a common factor (`FillCoverage.StrideCoverage`). An exact fill also needs the header to be
  shorter than a block and the seek a multiple of the range, because the header write is not
  clipped (`FillTheorem.EveryRunFillsExactly`); one odd configuration of two blocks covers the
  range all the same (`FillCoverage.CoveringFillIff`).
* iofill's window can end past `maxoff`, as for the sample options of
  doc/blockbench.tex:124-132 (`FillGeometry.WindowInsideIff`).
* Injection can hang, whatever the count, as soon as a file has two threads: a thread that has
  left its loop never posts, and thread 0 waits for it (`Injection.InjectionHangsIff`). No
  option of the command line turns injection on (src/iofill/iof_main.c:37-120), nor streams or
  partitioning, so this concerns the code, not its users.
* Partitioned threads do not always write bytes of their own: neighbouring windows overlap
  exactly when the offsets, modulo the block size, say so (`FillSetup.PartitionsDisjointIff`).
* ioload can hang when `initthreads` is 0, which option parsing accepts
  (`StageBarrier.HangsIff`).
* ioload's check that the range holds the largest I/O and the header wraps, and passes, when
  the largest size is larger than the range (`LoadIo.AcceptedIff`); a sleep's time counts as a
  size. Then even small I/Os leave the range (`LoadIo.HeaderInsideIff`). Without a header, I/Os
  can reach past the range unless their size divides it (`LoadIo.PlainInsideIff`). The
  reduction of the header size at src/ioload/iol_init.c:57-59 never changes it, since a number
  below the largest size is its own remainder.
* A summary halts the program when a 90th percentile is over the limit
  (doc/blockbench.tex:156-157). When only the system is printed that is always the stage's own
  percentile (`LoadReport.Report.Output`, `LoadTheorems.HaltIsStageLatency`). With `-v` the
  files are printed through the same table, and a stage without an operation of a type is
  judged by the last file that had one in an earlier stage (`LoadTheorems.LastFileCarries`): a
  run of two files in which that halts the program is `StaleLimit.HaltsOnStale`.
* A latency of about twelve hours or more can fall into a low bucket (`LatencyHistogram.BucketWraps`, `LatencyHistogram.BucketRightIff`).
* The figure that the ioload summary calls unique pages bounds the different sectors; the
  bound on pages is an eighth of it (`DataGen.DedupBound`, `DataGen.PageBound`), and agrees
  with doc/blockbench.tex:126-128.
* With a long-latency limit, ioload resets the shared log after each status report, while I/Os
  run; records can then end up in the wrong place (`DetailsLog.ResetSafeIff`).
* In iofill's table of seconds an I/O can stand in an earlier second than its own, since each
  I/O moves the second on by at most one (`FillTallies.IoThread.Finish`).

## Model

| member | source | states |
|---|---|---|
| NumberTheory.StepPeriod | src/iofill/iof_iotest.c:204-206 | a stride repeats modulo the block count exactly at multiples of the count over the gcd |
| FillSetup.IoThread.constructor | src/iofill/iof_init.c:110-186 | a thread's own parameters, range, header size, seed and stream counter after set-up; injection and flush parameters are cleared in all threads but the first; it is its own stream head |
| FillSetup.IoThread.SetRange | src/iofill/iof_init.c:150-158 | the block and range fields, step by step, are those of the geometry |
| FillSetup.IoThread.Grant | src/iofill/iof_iotest.c:188-222 | the writes a thread issues for a block number: unclipped header before block 0, then the body clipped at the end of the range, with start and seek of the stream head; start, length and clip are also given in plain arithmetic for every multiplier |
| FillSetup.IoThread.RunAlone | src/iofill/iof_iotest.c:140-234 | the loop of a lone thread issues exactly the writes of grants 0 to totalio-1, in order |
| FillSetup.GrantsInOrder | src/iofill/iof_iotest.c:164-222 | the writes of every grant stand together in that list, after those of all earlier grants |
| FillSetup.SetStreamhead | src/iofill/iof_init.c:82-94 | the search sets the head to the thread with the given number |
| FillSetup.InitThreads | src/iofill/iof_init.c:65-78 | the list is in thread order, each thread set up, heads shared out only when there are fewer streams than threads |
| FillSetup.OwnParameters | src/iofill/iof_init.c:120-149 | only thread 0 keeps injection and flush, and everything else but range, header and seed is as given |
| FillSetup.SeedsDiffer | src/iofill/iof_init.c:141-145 | threads below 2^32 have the same seed if and only if they are the same thread, whether the seed is given or comes from one reading of the clock |
| FillSetup.HeadsShared | src/iofill/iof_init.c:73-77 | with fewer streams than threads two threads have the same head if and only if the number of streams divides the difference of their numbers; otherwise each is its own |
| FillSetup.PartitionsDisjointIff | src/iofill/iof_init.c:146-158 | partitioned threads write windows without a common byte if and only if each window fits before the next, a condition on offsets modulo the block size |
| FillSetup.PartitionsOverlap | src/iofill/iof_init.c:146-158 | parameters for which two neighbouring threads write the same byte |
| FillSetup.EffectiveIsThreadLayout | src/iofill/iof_init.c:110-187 | a plain thread uses the layout that the coverage theorems are about |
| FillGeometry.PlainThread | src/iofill/iof_init.c:150-158 | when parameters without multiplier give a dense window of n blocks with no wrap |
| FillGeometry.HeaderKeptIff | src/iofill/iof_init.c:183-185 | a header is kept as given if and only if it is at most a block long |
| FillGeometry.WindowInsideIff | src/iofill/iof_init.c:150-158 | where the window ends, and that it ends within maxoff if and only if maxoff is in a later block than minoff and no less far into it |
| FillGeometry.HeaderAt | src/iofill/iof_iotest.c:188-203 | the header write starts at the seek reduced by the range and has its full length |
| FillGeometry.BodyAt | src/iofill/iof_iotest.c:204-213 | where block bno starts, and that exactly the last place of the window is clipped |
| FillGeometry.HeaderSpread | src/iofill/iof_iotest.c:188-203 | for every multiplier the header starts at minoff + multiplier * (seekoff % rangeoff), with its full length |
| FillGeometry.BodySpread | src/iofill/iof_iotest.c:204-213 | for every multiplier block bno starts at minoff + multiplier * ((seekoff + headersz + size * (1 + skip) * bno) % rangeoff) and is clipped at minoff + multiplier * rangeoff |
| FillGeometry.SparseDistance | src/iofill/iof_iotest.c:204-206 | starts of blocks differ by the distance of their places times multiplier times size |
| FillGeometry.SparseMeetIff | src/iofill/iof_iotest.c:204-213 | for every multiplier two blocks have a byte in common if and only if they start at the same place, and then they are the same write |
| FillGeometry.HitsPermutation | src/iofill/iof_iotest.c:164-222 | how often a byte is written does not depend on the order of the writes |
| FillGeometry.HitsPasses | src/iofill/iof_init.c:106 | nrep repetitions write every byte nrep times as often as one |
| FillCoverage.SlotsRepeat | src/iofill/iof_iotest.c:204-206 | two block numbers start at the same place if and only if n/gcd(1+skip,n) divides their distance |
| FillCoverage.SlotReached | src/iofill/iof_iotest.c:204-206 | every place at a multiple of the gcd from the first is reached, with the block number that reaches it |
| FillCoverage.StrideCoverage | src/iofill/iof_iotest.c:204-206 | however many numbers are granted, n/gcd places are visited; all of them if and only if the gcd is 1 |
| FillCoverage.WindowHits | src/iofill/iof_iotest.c:185-222 | how often each byte of the window is written by a pass: by the header, and by the bodies at its place |
| FillCoverage.OutsideHits | src/iofill/iof_iotest.c:188-213 | outside the window only the unclipped header writes |
| FillCoverage.ExactFillIff | src/iofill/iof_iotest.c:164-213 | one thread writes each byte of the window exactly nrep times and no other byte if and only if gcd is 1 and header and seek fit |
| FillCoverage.CoveringFillIff | src/iofill/iof_iotest.c:164-213 | one thread leaves no byte of the window out if and only if the covering condition holds, including the one odd case |
| FillCoverage.SparseBodiesMeetIff | src/iofill/iof_iotest.c:204-213 | for every multiplier two block numbers write a common byte if and only if n/gcd(1+skip,n) divides their distance |
| FillCoverage.SparsePassOnce | src/iofill/iof_iotest.c:164-213 | without a header a pass up to that period writes each byte once or not at all, whatever the multiplier |
| ClaimProtocol.RunInv | src/iofill/iof_iotest.c:164-187 | in every state of every run the 64-bit counter is the sum of all additions, also of those for injected writes, and issued plus pending writes are those of one thread |
| ClaimProtocol.GrantsFillPrefix | src/iofill/iof_iotest.c:164-187 | granted numbers are 0,1,2,... each once, and all below totalio when everybody left without a stop |
| ClaimProtocol.RunRefinesOneThread | src/iofill/iof_iotest.c:140-234 | the writes of any finished run are a permutation of those of one thread alone |
| ClaimProtocol.StopIsSticky | src/iofill/iof_iotest.c:403-440 | after one stop nothing is granted any more and at most two pending writes a thread are issued |
| ClaimProtocol.RunsEnd | src/iofill/iof_iotest.c:140-234 | no interleaving runs longer than five actions a number, one a thread and one an injected stop |
| ClaimProtocol.NeverStuck | src/iofill/iof_iotest.c:140-234 | until all threads have left, some thread can take a step |
| StreamClaims.HeadsCountClaims | src/iofill/iof_iotest.c:164-184 | in every state the counters of the stream heads sum to the granted claims that have taken a stream number |
| StreamClaims.NumbersAreDistinct | src/iofill/iof_iotest.c:175-184 | each head gives out 0, 1, 2, ... in that order, so no number twice, and threads that head no stream none |
| StreamClaims.NumbersFromOwnHead | src/iofill/iof_iotest.c:164-184 | in every interleaving each thread works on a number that its own stream head gave out, and no two threads of a head on the same one |
| StreamClaims.StreamsShareAll | src/iofill/iof_iotest.c:140-187 | when all threads have left without a stop the counters of the heads sum to totalio |
| StreamClaims.OnlyHeadsCount | src/iofill/iof_init.c:73-77 | with fewer streams than threads only the first streams counters are ever used |
| FillTheorem.Completed | src/iofill/iof_iotest.c:140-234 | every run without a stop can be carried on until all threads have left, so complete runs exist |
| FillTheorem.EveryRunFillsExactly | src/iofill/iof_iotest.c:164-213 | for any number of threads and every interleaving without a stop: exact fill if and only if the condition holds |
| FillTheorem.OptionsFillExactly | src/iofill/iof_init.c:106-158 | the same from the command parameters through thread set-up |
| FillTheorem.SampleOptions | src/iofill/iof_init.c:106-158 | parameters and a run to which all of this applies, filled exactly |
| FillTheorem.EveryRunCovers | src/iofill/iof_iotest.c:164-213 | for every interleaving without a stop: no byte left out if and only if the covering condition holds |
| FillTheorem.EveryRunStaysInside | src/iofill/iof_iotest.c:204-213 | in every run, stopped or not, every body write lies inside the window |
| FillBarrier.RunInv | src/iofill/iof_iotest.c:46-104 | in every state each semaphore holds the posts to it less the waits on it, for all files and threads |
| FillBarrier.StartsTogether | src/iofill/iof_iotest.c:46-104 | no io thread passes its start wait before every io thread of every file has reported ready |
| FillBarrier.ReportAfterAll | src/iofill/iof_iotest.c:64-68 | the report is written only after every io thread has finished |
| FillBarrier.SemaphoresAreBinary | src/iofill/iof_iotest.c:56-66 | no semaphore exceeds one, although stop serves both phases |
| FillBarrier.NeverDeadlocks | src/iofill/iof_iotest.c:46-104 | until main ends some thread can take a step |
| FillBarrier.RunsEnd | src/iofill/iof_iotest.c:46-104 | every run of the barrier is bounded |
| Injection.RunInv | src/iofill/iof_iotest.c:243-271 | the invariant of stop, inject and restart over every run and any number of rounds |
| Injection.InjectionIsAlone | src/iofill/iof_iotest.c:342-395 | while thread 0 injects every peer is parked, having posted in this round, with nothing left in its semaphores |
| Injection.SemaphoresAreBinary | src/iofill/iof_iotest.c:151-154 | iostop and iostart of a peer together never exceed one |
| Injection.PostIsFresh | src/iofill/iof_iotest.c:248-254 | the post that thread 0 takes was made in the current round by a peer that is parked |
| Injection.InjectorNeverParks | src/iofill/iof_iotest.c:151-154 | thread 0 never waits for itself |
| Injection.StalledForever | src/iofill/iof_iotest.c:164-166 | once an awaited peer cannot post, thread 0 stays in io_stop in every continuation |
| Injection.InjectionStartsIff | src/iofill/iof_iotest.c:142-167 | waiting in io_stop can end if and only if no awaited peer has left and there are numbers for all that must claim first |
| Injection.InjectionHangsIff | src/iofill/iof_iotest.c:142-167 | from any count of block numbers there is a run that hangs in io_stop if and only if the file has a second thread |
| Segments.ArrangePermutes | src/iofill/iof_init.c:169-181 | with its groups in any order the list holds every offset once and keeps its tail |
| Segments.OrderPermutes | src/iofill/iof_init.c:173-176 | whatever is drawn, the order of the groups stays a permutation |
| Segments.OrderNext | src/iofill/iof_init.c:173-176 | each pair of random numbers exchanges the two groups it names and leaves the other groups where they were |
| Segments.ArrangedAt | src/iofill/iof_init.c:169-181 | the list holds, group after group, the offsets of the group that stands there |
| Segments.SwapArranged | src/iofill/iof_init.c:174-180 | exchanging two groups element by element is exchanging them in the order |
| Segments.ExchangeSwaps | src/iofill/iof_init.c:176-180 | two runs change places and every other entry stays |
| Segments.SwapGroups | src/iofill/iof_init.c:176-180 | the in-place loop exchanges two runs of the array and changes nothing else |
| Segments.Shuffle | src/iofill/iof_init.c:170-181 | the array after all swaps, as a function of the random numbers |
| Segments.SeatInsideIff | src/iofill/iof_iotest.c:367-370 | a selected segment lies in the range if and only if the range holds one |
| Segments.EverySeat | src/iofill/iof_iotest.c:367-370 | each segment of the range is selected by some random number, and the random number modulo the number of segments says which |
| Segments.EveryBurst | src/iofill/iof_iotest.c:361-365 | a burst has the given length, or with randinject any length from one to twice that, as the random number says |
| Segments.Injector.constructor | src/iofill/iof_init.c:159-182 | the shuffled list and the cursors after set-up |
| Segments.Injector.Write | src/iofill/iof_iotest.c:366-385 | one injected write: reseats exactly when the list is used up, then takes the next offset of the list |
| Segments.Injector.Inject | src/iofill/iof_iotest.c:361-386 | one injection adds one burst to each cursor's log, from seats its own random numbers selected, and keeps the log a sequence of passes |
| Segments.PassCoversIff | src/iofill/iof_iotest.c:376-384 | a pass writes every byte of the segment once and no other if and only if the write size divides the segment size |
| Segments.EverySegmentCovered | src/iofill/iof_iotest.c:361-385 | however writes are spread over injections, those from one seat to the next cover the segment exactly, under the same condition |
| StageBarrier.RunInv | src/ioload/iol_iotest.c:40-117 | the invariant of the staged barrier over every run, also when a summary halts the program |
| StageBarrier.OnlyActiveThreadsWork | src/ioload/iol_iotest.c:106-112 | a thread does I/O only inside a stage and only if its number is below the stage's count |
| StageBarrier.EveryFileWorksInStage | src/ioload/iol_iotest.c:106-112 | thread j of any file does I/O only inside a stage, and only if j is below initthreads plus the stages so far times incrthreads |
| StageBarrier.SummaryIsAlone | src/ioload/iol_iotest.c:82-88 | while a summary is written every io thread is at rest and all semaphores are zero |
| StageBarrier.ReportsAreTheStages | src/ioload/iol_iotest.c:60-88 | the reports are the stages initthreads, plus incrthreads, and so on, all up to maxthreads unless a summary halts the program, and in each exactly the threads below the count did I/O, once |
| StageBarrier.EveryFileDidItsStage | src/ioload/iol_iotest.c:60-108 | in report k, counted from 0, thread j of every file did its I/O once if j is below initthreads + k * incrthreads, and not at all otherwise |
| StageBarrier.SemaphoresAreBinary | src/ioload/iol_iotest.c:69-111 | start and stop of a thread together never exceed one over all stages |
| StageBarrier.NeverDeadlocks | src/ioload/iol_iotest.c:49-96 | with a non-empty first stage some thread can always go on until the program ends |
| StageBarrier.HungForever | src/ioload/iol_iotest.c:82-112 | main never gets past a thread that has left its loop |
| StageBarrier.HangsIff | src/ioload/iol_iotest.c:60-112 | the program can hang if and only if it has io threads and initthreads is 0 |
| StageBarrier.RunsEnd | src/ioload/iol_iotest.c:60-96 | with a positive increment every run is bounded |
| LatencyHistogram.BucketRightIff | src/ioload/iol_iotest.c:237-240 | the bucket is the latency's own if and only if the cast does not wrap or wraps past the last bucket |
| LatencyHistogram.BucketWraps | src/ioload/iol_iotest.c:237-240 | the 32-bit cast puts some longer latency into a lower bucket |
| LatencyHistogram.PrefixIsBelow | src/ioload/iol_output.c:333-335 | the running total of the scan counts the latencies in the buckets scanned, in the end all of them |
| LatencyHistogram.ThresholdMonotone | src/ioload/iol_output.c:324-327 | a stricter percentile has a higher threshold, so one pass serves all five |
| LatencyHistogram.ThresholdIsCeiling | src/ioload/iol_output.c:324-327 | the threshold is the least whole number not below the wanted share of all operations |
| LatencyHistogram.ScanPercentiles | src/ioload/iol_output.c:328-344 | the one-pass scan with shared cursors leaves for each threshold the upper edge of the bucket in which the total reaches it, or the old value |
| LatencyHistogram.ScanIsOrderStatistic | src/ioload/iol_output.c:324-344 | that value is the upper edge of the bucket of the k-th smallest raw latency |
| LatencyHistogram.ScannedEdge | src/ioload/iol_output.c:333-344 | the value left is the edge if the total reaches the threshold, and the old one otherwise |
| LoadStats.TallyConcat | src/ioload/iol_output.c:66-90 | the statistics of a union of logs is the sum of the statistics |
| LoadStats.TallyHistogram | src/ioload/iol_iotest.c:236-244 | the buckets of a type hold exactly its recorded latencies and sum to their number |
| LoadStats.AddBuckets | src/ioload/iol_output.c:77-84 | the bucket loop adds every bucket and totals the source's rows |
| LoadStats.StatsDiff | src/ioload/iol_output.c:124-141 | for a snapshot that has not shrunk, the difference adds back to the current one, counter by counter |
| LoadStats.AddCancels | src/ioload/iol_output.c:124-141 | a difference is determined by the sum, so it is the fresh part |
| LoadStats.QuantileIsOrderStatistic | src/ioload/iol_output.c:324-344 | what the scan finds for a set of latencies is the bucket edge of their order statistic |
| LoadReport.IoThread.Finish | src/ioload/iol_iotest.c:215-249 | one completion keeps the counters equal to the tally of the log; sleeps and I/Os outside the window do not count |
| LoadReport.Report.AddThread | src/ioload/iol_output.c:68-88 | a thread's statistics are added to its file and to the system |
| LoadReport.Report.Aggregate | src/ioload/iol_output.c:65-90 | afterwards every file and the system hold the tally of exactly their threads' logs |
| LoadReport.Report.TakeUse | src/ioload/iol_output.c:91-101 | a status report shows exactly the completions since the last one, a summary all of the stage |
| LoadReport.PrintedValue | src/ioload/iol_output.c:313-344 | for a block of completions the scan leaves the quantile of their latencies, or without any the old value |
| LoadReport.ValueIsOrderStatistic | src/ioload/iol_output.c:313-344 | the value for each of the tails 0.5, 0.1, 0.01, 0.001 and 0.0001 is 10000 ns times one more than the tens of microseconds of the matching sorted latency, at most one second |
| LoadReport.AllLinesRight | src/ioload/iol_output.c:225-354 | the first block is the system's and then come the files in order; the first column holds the order statistics of the read latencies and the second those of the writes, in microseconds |
| LoadReport.Report.Scan | src/ioload/iol_output.c:324-344 | thresholds and scan of one block |
| LoadReport.Report.PrintBuckets | src/ioload/iol_output.c:305-364 | the five percentile lines of a block, what the table holds afterwards, the zero-to-one rewrite of the shown block, the second line repeated in the summary, and the latency flag |
| LoadReport.Report.PrintFiles | src/ioload/iol_output.c:256-261 | the lines of all files in order through the same table |
| LoadReport.Report.PrintBlocks | src/ioload/iol_output.c:225-261 | the rewrite reaches only the blocks that are printed; the system's values decide the limit |
| LoadReport.Report.PrintAll | src/ioload/iol_output.c:225-261 | the lines of the system and the files, and what the table holds, in terms of the logs; AllLinesRight says what these lines are |
| LoadReport.Report.Tell | src/ioload/iol_output.c:91-101 | the differences taken so far add up to the current sums |
| LoadReport.Report.Settle | src/ioload/iol_output.c:104-120 | snapshots move up after a status report; a summary clears counters, snapshots and logs |
| LoadReport.Report.Output | src/ioload/iol_output.c:52-122 | one whole report in terms of the raw logs: the blocks shown; on all lines of system and files, reads first, the bucket edge in microseconds of the matching order statistic, or the old value; what the table holds afterwards; exactly when the program halts, with and without verbose, and for which type; and what is left for the next report |
| LoadReport.Report.Complete | src/ioload/iol_iotest.c:215-249 | a completion of any thread keeps all of this true |
| LoadReport.Report.RunStage | src/ioload/iol_output.c:91-109 | over any sequence of completions and status reports of a stage the differences sum to the current statistics of the last report, for the system and every file, and the zero-to-one rewrite reaches only what is shown |
| LoadReport.Report.BeginStage | src/ioload/iol_iotest.c:63-68 | a new window starts with nothing counted, so no completion counts in two stages |
| LoadReport.SeenPlusFreshAll | src/ioload/iol_output.c:91-95 | what was reported plus what is fresh is everything, over all files |
| LoadTheorems.ReportedIsOrderStatistic | src/ioload/iol_output.c:66-344 | each of the five percentiles of a block is the order statistic of its threads' raw latencies, for at least one operation |
| LoadTheorems.HaltIsStageLatency | src/ioload/iol_output.c:356-364 | the condition on which Output halts without verbose holds if and only if some type with operations in the stage has its own 90th percentile over the limit |
| LoadTheorems.StalePercentile | src/ioload/iol_output.c:318-344 | blocks without operations of a type leave what the table holds for it |
| LoadTheorems.LastFileCarries | src/ioload/iol_output.c:254-261 | with verbose the last file with operations of a type decides what the table holds, whatever the system's value |
| StaleLimit.SetUp | src/ioload/iol_main.c:40-66 | two files with verbose and the default limit, before anything has happened |
| StaleLimit.HaltsOnStale | src/ioload/iol_output.c:224-287 | from there, a run whose second summary halts although its stage has no write and reads far below the limit |
| LoadTheorems.FilesSumToSystem | src/ioload/iol_output.c:91-101 | what is shown for the system is the sum of what is shown for the files |
| LoadTheorems.OutsideWindow | src/ioload/iol_iotest.c:231-236 | I/Os that begin outside the window, and sleeps, contribute nothing |
| LoadTheorems.OneMore | src/ioload/iol_iotest.c:231-246 | a read or write that began inside the window adds one operation, its end minus start, its bytes and one entry of the bucket of its latency to its own type, and nothing to the other |
| LoadTheorems.GatherSplits | src/ioload/iol_output.c:65-74 | the completions of a file are those of its threads one after the other |
| LoadTheorems.GatherAllSplits | src/ioload/iol_output.c:65-90 | the completions of the system are those of its files one after the other |
| FillTallies.IoThread.Finish | src/iofill/iof_iotest.c:397-471 | one completion: count, second and one latency bucket go up by one and nothing else, the second is moved on by at most 10^9 ns, all tallies stay those of the log, when it stops or ends the run, and that its row is its own second if and only if it is before the next boundary |
| FillTallies.TalliesAgree | src/iofill/iof_iotest.c:424-469 | the count, the seconds up to nseconds and all latency buckets agree, and nseconds stays below NSEC |
| FillTallies.ClockedNext | src/iofill/iof_iotest.c:425-431 | no I/O is ever put into a later second than its own |
| FillTallies.OutputSeconds | src/iofill/iof_output.c:187-219 | the table has a row for every second used, its cells are the counters, the total of each row is the sum of its own cells, and the totals sum to all I/Os counted |
| FillTallies.GroupRows | src/iofill/iof_output.c:348-377 | the rows divide the buckets without a gap into 200 groups of 5 and 99 of 1000, and the group index stays in its table |
| FillTallies.RowsAre | src/iofill/iof_output.c:348-377 | row k is labelled 50 * (k + 1) microseconds and counts five buckets up to 10 ms, then ten milliseconds each and counts a thousand, up to a second |
| DetailsLog.PathInv | lib/iob_stats.c:88-107 | the invariant of the log over every interleaving of claims and copies |
| DetailsLog.QuietLogIsRight | lib/iob_stats.c:88-107 | once all copies are done slot i holds the record of the i-th claimer with its latency, end minus start, for all slots within capacity, each written once |
| DetailsLog.NeverTwice | lib/iob_stats.c:100-105 | at no time is a slot written twice, nor one beyond the claims |
| DetailsLog.Scan | lib/iob_stats.c:152-156 | the report reads exactly the first claims up to capacity |
| DetailsLog.ResetSafeIff | lib/iob_stats.c:77-86 | with two threads or more, the log is right after a reset in every continuation if and only if no copy was under way |
| LoadIo.MaxSize | src/ioload/iol_init.c:51-56 | the largest size of all types |
| LoadIo.RangeIs | src/ioload/iol_init.c:115-120 | the range in closed form on 64-bit words, with and without a header |
| LoadIo.AcceptedIff | src/ioload/iol_init.c:60-71 | exactly when the set-up check passes, with and without a header, including the wrapped case |
| LoadIo.TooSmallAccepted | src/ioload/iol_init.c:60-71 | parameters that pass although the largest I/O exceeds the range, and an I/O outside |
| LoadIo.LoadThread.Start | src/ioload/iol_iotest.c:145-148 | the start offset, step by step, on wrapping words |
| LoadIo.LoadThread.Operation | src/ioload/iol_iotest.c:137-169 | one operation: the type its draw selects, and its pieces or its sleep |
| LoadIo.OffsetAligned | src/ioload/iol_iotest.c:145-148 | every start offset is sector aligned although the sum may wrap at 2^64 |
| LoadIo.OffsetSpread | src/ioload/iol_iotest.c:145-148 | for every multiplier, without wrap, an operation starts at minoff + multiplier * ((rand - rand % size + headersz) % range) |
| LoadIo.HeaderInsideIff | src/ioload/iol_iotest.c:145-148 | with a header the I/Os of any one type stay in the range, for all draws, if and only if it holds the largest size of all types |
| LoadIo.PlainInsideIff | src/ioload/iol_iotest.c:145-148 | without a header the I/Os of a type stay in the range if and only if their size divides it |
| LoadIo.Transfer | src/ioload/iol_iotest.c:149-168 | the splitting loop issues the pieces of the specification in order |
| LoadIo.SplitTiles | src/ioload/iol_iotest.c:152-168 | the pieces reach each byte of the operation exactly once and fit the buffer |
| LoadIo.SplitInOrder | src/ioload/iol_iotest.c:152-168 | piece k starts k piece sizes on, and all but the last are full |
| LoadIo.EveryPieceInside | src/ioload/iol_iotest.c:145-168 | from the random number to the device, with a header or without: every piece lies in the range, fits the buffer and is aligned |
| LoadIo.SleepPieces | src/ioload/iol_iotest.c:192-199 | although every piece is replaced by a random one, a sleep ends and totals the wanted time rounded up to 50 microseconds |
| LoadIo.NapIs | src/ioload/iol_iotest.c:192-199 | a piece of a sleep lasts the random number reduced by the piece, rounded down to a multiple of 50 and moved on by 50 |
| LoadIo.SelectType | src/ioload/iol_iotest.c:138-144 | the walk selects the first type whose cumulated share exceeds the draw, or the last |
| DataGen.HeaderDecodes | lib/iob_lib.c:284-287 | type and number are recovered from the first eight bytes of a sector |
| DataGen.TypeIsEighthByte | lib/iob_lib.c:284-287 | the type stands in the eighth byte of a sector and the number begins with the first |
| DataGen.ImageEqualIff | lib/iob_lib.c:283-287 | sectors are equal if and only if type, number and the visible template bytes are |
| DataGen.FillPage | lib/iob_lib.c:283-287 | one page in place: template bytes, a header over each sector, nothing else changed |
| DataGen.Iodata | lib/iob_lib.c:244-291 | exactly the buffer is overwritten; for each of the eight template types every byte below the headers is that of its own template at the drawn page, every header holds type and drawn number, and the other types give drawn bytes, 255 or 0 |
| DataGen.IoBytesAre | lib/iob_lib.c:262-289 | the byte at i is byte i % 4096 of the page that draw number i / 4096 selects, from the template the type names |
| DataGen.ProducedIff | lib/iob_lib.c:277-288 | the sectors that calls can produce are exactly the numbered ones |
| DataGen.DedupBound | lib/iob_lib.c:277-288 | over any run the different sectors are at most the figure the tools report |
| DataGen.PageBound | src/ioload/iol_output.c:192-195 | the different whole pages are at most dedupblks times 1000 |
| DataGen.DedupExactIff | lib/iob_lib.c:277-288 | the figure is reached if and only if no two template sectors agree below their headers |
| DataGen.Dedupdata | lib/iob_lib.c:390-430 | in place, for all types: below the headers sector k is slice (srcbno + k) % 8000 of the template the type names, its header holds type and block number, and nothing else changes; the types without a template as in Iodata |
| DataGen.DedupBytesAre | lib/iob_lib.c:407-427 | the same byte by byte for each type, the block number wrapping at 2^64 |
| DataGen.DedupSplit | lib/iob_lib.c:422-427 | one call yields what any split into consecutive calls yields |
| DataGen.DedupEqualIff | lib/iob_lib.c:422-427 | sectors are equal if and only if type and block number are, below 2^56 |
| DataGen.SectorsEqualIff | lib/iob_lib.c:422-427 | for all types and numbers sectors are equal if and only if their header words are and the templates agree below |
| DataGen.SectorsCollideIff | lib/iob_lib.c:422-427 | from 2^56 on the number runs into the type; sectors are then equal if and only if the templates agree below the header |

## Left out

- System calls, the clock, sleeping and errno: results and clock readings are inputs, and the clock does not go back. That error logging ends the program is the outcome `Exit`, the exit on the latency limit `halted`.
- Weak memory, and the read-then-add branches for other compilers. A status report reads the counters in one piece; torn reads are not modelled.
- Counters of statistics are unbounded integers, and so are the claims of the shared log; only offsets, the claim counter, casts and generated headers are words.
- Percentiles and shares are exact reals; rounding of doubles is not modelled.
- LatencyHistogram.ScanIsOrderStatistic: only for latencies below about twelve hours, where the cast to 32 bits does not wrap; BucketWraps shows what happens beyond.
- FillTheorem.EveryRunFillsExactly: only for writes, without multiplier (which leaves gaps; FillCoverage.SparsePassOnce is about one pass with it), and while offsets and counter stay below 2^64; the counter's bound counts two stops for each thread and one for each injected write that fails or is late, whose number is a parameter.
- Injection.InjectionHangsIff: `left` stands for the distance of the claim counter to the total, which ClaimProtocol models as a word.
- LoadIo.Transfer: needs a positive maxiosize; with 0 the loop of the source never ends. The repetition of writes, and the pause that limits the rate, are not modelled.
- LoadIo.LoadThread.Operation: sizes are below 2^31, as the signed loop variable needs, and an operation ends below 2^64.
- LoadReport.Report.Output: average latencies, rates and the optional latency rows are not in the contract; latency buckets are kept by type and then by bucket, the transpose of the source's array; ignored I/O errors are completions like others.
- StageBarrier.ReportsAreTheStages: status reports during a stage touch no semaphore and are part of LoadReport only.
- DetailsLog.ResetSafeIff: clearing the array and resetting the counter are one step.
- iofill options that no command line sets: alternating sizes, reads and random block numbers in the claim loop, the write offset. The writes of a run with streams are not modelled, only the numbers: how many each stream gets depends on the interleaving, so such a fill has no fixed extent.
- Cache flushes around injection, and post-flush recovery runs: fixed loops around device calls.
- Report text, CSV layout, averages, resource usage, option parsing, name tables, `lib/iob_scsi.c` and the generation of the template contents: they would only add easy members. Templates are arbitrary bytes.
