# A verified model of the cadeloop substrate

cadeloop is an event loop for Python with a Rust core. This project models the parts of it
that other code trusts without looking, and proves what they promise over every run, every
interleaving or every input:

- **Kernel operations** (`OpLifecycle`, `OpHistories`, `OpSlabs`): op slots in pinned chunks, generation-tagged
  ids, the freelist, and the address screen for completions.
- **Receive buffers** (`BufferRefs`, `BufferPools`, `ReceiveSize`): reference-counted slots in
  three size classes, which free memory stays with the process, and how a connection's buffer
  size follows its reads.
- **Cross-thread handoff** (`Handover`, `CrossThread`): callbacks and timers from any thread,
  with one wakeup per flag clear.
- **HTTP/1.1 assembly** (`HttpEvents`, `HttpTheorems`, `HttpReasons`, `HttpMeaning`, `HttpParser`): from
  llhttp's callbacks to queued requests.
- **Latency histograms** (`Buckets`, `Histogram`, `SharedHistograms`, `Report`): log-linear buckets against the
  order statistics of the samples, and the report that adds dumps up.
- **Worker handoff** (`Handoff`, `SpawnWorkers`, `FrameChannel`, `Adoptions`, `HandoffChannel`): who owns an accepted
  connection, when STOP goes out, and the frames on the channel.
- **Pipe writer** (`PipeStream`, `PipeWriter`): a byte stream over short writes, and its close.
- **WebSocket client and socket addresses** (`WsFrames`, `WsClient`, `SockAddrs`).

Each component that changes state in place comes in two parts. A *specification* module gives
its abstract state and steps as functions and predicates, and proves lemmas over whole runs of
steps. A *class* (or a method with a loop) follows the code statement by statement, and each
method's contract says which step of the specification it takes. Code that several threads run
is a sequence of atomic actions recorded in a ghost log; between any two of its own actions a
method lets all other threads do anything they may (`Interfere`).

`Words` and `Binary` hold machine integers and big-endian numbers. `dafny verify dfyconfig.toml`
checks everything.

## Model

| member | source | states |
|---|---|---|
| OpLifecycle.StepKeepsExact | crates/core/src/opslab.rs:150-273 | one post, cancel, reap or release keeps "the kernel's ops are exactly the Posted and Cancelled slots" |
| OpLifecycle.KernelExact | crates/core/src/opslab.rs:150-258 | over every run, with any ids passed in, the Posted and Cancelled slots are exactly the ops the kernel holds, and a completion is accepted if and only if its op is outstanding |
| OpLifecycle.HeldSlotNotReissued | crates/core/src/opslab.rs:150-162 | a post never hands out a slot whose op the kernel still holds |
| OpLifecycle.OpProgress | crates/core/src/opslab.rs:216-273 | after its post an op is in flight, or reaped, or reaped and later recycled; nothing else can happen to it |
| OpLifecycle.ReissueFollowsReapAndRelease | crates/core/src/opslab.rs:235-273 | between two posts of one slot the first op was reaped and then released, in that order |
| OpLifecycle.GenerationCountsRecycles | crates/core/src/opslab.rs:268-272 | a slot's generation is its starting one plus its recycles, modulo 2^32 |
| OpLifecycle.UnrecycledStaysLive | crates/core/src/opslab.rs:164-170 | until its slot is recycled an id resolves |
| OpLifecycle.IdResolvesIff | crates/core/src/opslab.rs:164-170 | an id resolves if and only if its slot is occupied and was recycled a multiple of 2^32 times since the post; below 2^32 recycles, if and only if it was not recycled |
| OpHistories.ReapAnswers | crates/core/src/opslab.rs:235-258 | over every run, until an op is reaped and released: the first completion through its id answers the kind it was posted with, and "cancelled" if and only if a cancel of it answered true in between; later completions answer None |
| OpHistories.CancelAnswers | crates/core/src/opslab.rs:216-230 | a cancel answers true if and only if it is the first through its id and the op was not reaped |
| OpHistories.OpStateIs | crates/core/src/opslab.rs:150-273 | the slot's kind is the posted one, and its state says exactly which of reap and cancel were called through the id |
| OpHistories.RecycledIff | crates/core/src/opslab.rs:261-273 | an op's slot is recycled if and only if the op was reaped and then released through its id |
| OpHistories.ResolvesUntilReturned | crates/core/src/opslab.rs:167-273 | so below 2^32 recycles an id resolves exactly until its op was reaped and released |
| Words.FreshIndicesExact | crates/core/src/opslab.rs:113-126 | the 32-bit indices a new block is given name its own slots if and only if fewer than 2^32 slots existed before; with exactly 2^32 they start at zero again |
| Words.BlockFits | crates/core/src/opslab.rs:124-126 | adding a slot number to the truncated base never overflows 32 bits |
| OpSlabs.PartitionPoint | crates/core/src/opslab.rs:120 | binary search finds the exact boundary of the entries below (or at most at) an address |
| OpSlabs.IndexInsert | crates/core/src/opslab.rs:119-122 | inserting a chunk at its partition point keeps the index strictly sorted and naming every chunk with its address |
| OpSlabs.OffsetTest | crates/core/src/opslab.rs:198-208 | inside a chunk the two offset tests accept exactly the payload addresses of its 256 slots, when a payload starts inside its slot |
| OpSlabs.DataPtrIs | crates/core/src/opslab.rs:187-188 | a payload address is the chunk's base plus the slot number times the stride plus the offset of the data |
| OpSlabs.FreesGrow | crates/core/src/opslab.rs:123-126 | after growing, the freelist is the free indices, each once, lowest on top |
| OpSlabs.PostFrom | crates/core/src/opslab.rs:150-162 | what the freelist offers is a step that keeps kernel and freelist exact while there is room, and otherwise slot 0, which is occupied |
| OpSlabs.OpSlab.constructor | crates/core/src/opslab.rs:99-101 | a new slab has no slots and holds nothing |
| OpSlabs.OpSlab.Grow | crates/core/src/opslab.rs:111-127 | appends one chunk of 256 free slots at any disjoint address, puts their indices on the freelist highest first, keeps the address index sorted and complete, changes no other slot; the slab stays sound if and only if it had fewer than 2^32 slots |
| OpSlabs.OpSlab.Post | crates/core/src/opslab.rs:150-162 | takes a free slot, grows only when there is none, counts one more in flight; it is the post step of OpLifecycle if and only if there was a free slot or fewer than 2^32 of them, and otherwise hands out an id that still resolves |
| OpSlabs.OpSlab.Get | crates/core/src/opslab.rs:167-170 | answers exactly the ids that resolve, with their slot; stale and out-of-range ids get nothing |
| OpSlabs.OpSlab.MarkCancelled | crates/core/src/opslab.rs:219-230 | true only on the edge from Posted to Cancelled; anything else changes nothing |
| OpSlabs.OpSlab.Complete | crates/core/src/opslab.rs:235-258 | reaps an outstanding op with its kind and whether it was cancelled; a stale, foreign or second completion answers None and changes nothing |
| OpSlabs.OpSlab.Release | crates/core/src/opslab.rs:261-273 | recycles exactly a current Completed slot and leaves everything else alone |
| OpSlabs.OpSlab.InFlightIds | crates/core/src/opslab.rs:282-292 | lists exactly the kernel's ops, each once |
| OpSlabs.OpSlab.ContainsDataPtr | crates/core/src/opslab.rs:189-209 | true if and only if the pointer is base + i * stride + data offset for some chunk and some i below 256; a payload without size at the very end of its slot is never found |
| BufferRefs.AlwaysSound | crates/core/src/buffers.rs:407-534 | over every run live ids are current, positively counted, and name different slots |
| BufferRefs.GenerationCountsFrees | crates/core/src/buffers.rs:517 | a slot's generation is its starting one plus the times it was freed, modulo 2^32 |
| BufferRefs.CountIsBalance | crates/core/src/buffers.rs:482-534 | until its slot is freed an acquired id is live with count one plus its retains less its releases, and a release frees exactly when that count is one |
| BufferRefs.IdLiveIff | crates/core/src/buffers.rs:404-410 | an id is live if and only if its slot is held and was freed a multiple of 2^32 times since; below that, if and only if it was never freed |
| BufferRefs.StaleCountsRefused | crates/core/src/buffers.rs:482-534 | over every run the rejection count is the number of retains and releases through ids that were not live, none of which changed anything else |
| BufferPools.RunsTake | crates/core/src/buffers.rs:469-475 | taking the freelist's back entry takes a paged-out slot only when no resident one is free, and keeps the two runs |
| BufferPools.RunsFree | crates/core/src/buffers.rs:518-527 | a freed slot pushed at the back extends the resident run, at the front the paged-out run |
| BufferPools.NewIndices | crates/core/src/buffers.rs:398-401 | a region's indices are pushed highest first |
| BufferPools.WarmBudget | crates/core/src/buffers.rs:522-532 | over any releases into pageable regions with the system agreeing, the resident free slots never exceed 256 or what they were at the start; below 256 a freed slot stays committed, from there on it is paged out |
| BufferPools.ClassPool.constructor | crates/core/src/buffers.rs:364-377 | a new class pool has no regions and no live ids |
| BufferPools.AcquireFrom | crates/core/src/buffers.rs:469-479 | what the freelist offers is an acquire step that keeps runs, ids and committed slots while there is room, and otherwise an id that is live |
| BufferPools.ClassPool.AddRegion | crates/core/src/buffers.rs:383-402 | a grown class has one more region of free slots, on the freelist highest first, resident and committed if the region came committed and paged out otherwise; it stays sound if and only if it had fewer than 2^32 slots |
| BufferPools.ClassPool.Acquire | crates/core/src/buffers.rs:461-480 | a fresh id with count one, unless all of 2^32 slots are in use, when it hands out a live one; never pages in while a resident slot is free; a paged-out slot is committed before it is handed out |
| BufferPools.ClassPool.Retain | crates/core/src/buffers.rs:482-489 | one more reference for a live id and nothing else; a stale id only counts a rejection; it stays sound if and only if this is not the 2^32nd reference, which leaves the slot neither live nor free |
| BufferPools.ClassPool.Release | crates/core/src/buffers.rs:493-534 | true exactly when the last reference went; the slot then leaves the committed ones if and only if its region is pageable (neither registered nor of large pages), at least 256 slots were resident and the system agrees, and no other slot does; a stale id only counts a rejection |
| BufferPools.ClassPool.Register | crates/core/src/buffers.rs:616-625 | filling a region's cookie changes nothing else, and its slots are paged out no more |
| BufferPools.ClassPool.Refcount | crates/core/src/buffers.rs:536-543 | the count of a live id, zero for any other |
| BufferPools.ClassPool.SlotPtrIs | crates/core/src/buffers.rs:416-421 | slot j of region r lies at the region's start plus j times the slot size, 2 MiB divided by the slot size to a region |
| BufferPools.ClassPool.SlotsApart | crates/core/src/buffers.rs:416-421 | two different slots of a class never share a byte |
| BufferPools.BufferPool.LiveApart | crates/core/src/buffers.rs:416-421 | the buffers of two different live ids, of any classes, never share a byte |
| BufferPools.ClassPool.HeldExact | crates/core/src/buffers.rs:570-581 | the saturating subtraction never saturates: regions less cold free slots is in use plus resident free |
| BufferPools.ClassPool.BytesHeld | crates/core/src/buffers.rs:570-581 | (in use + resident free) * size, which is exactly the committed slots |
| BufferPools.BufferPool.Acquire | crates/core/src/buffers.rs:461-480 | an acquire step of its class exactly while that has room; the other classes are unchanged; growth sets the dirty flag |
| BufferPools.BufferPool.Retain | crates/core/src/buffers.rs:482-489 | a retain step of the id's own class, exactly short of the 2^32nd reference |
| BufferPools.BufferPool.Release | crates/core/src/buffers.rs:493-534 | a release step of the id's own class, with the same exact condition for paging out; bytes in use drop by a slot exactly when it was freed |
| BufferPools.BufferPool.BytesHeld | crates/core/src/buffers.rs:570-581 | summed over the classes, the bytes in use plus those of resident free slots, which is what is committed |
| BufferPools.BufferPool.TakeRegionsDirty | crates/core/src/buffers.rs:612-614 | answers and clears the growth flag |
| ReceiveSize.Fitting | crates/core/src/buffers.rs:44-51 | the smallest class that holds n bytes, None exactly above 64 KiB |
| ReceiveSize.Receive | crates/core/src/buffers.rs:110-128 | the receive loop, reading min(remaining, class size), agrees with the recursive description Received |
| ReceiveSize.LargestStays | crates/core/src/buffers.rs:65-82 | the largest class stays for long messages and reads them in ceil(m / 65536) reads |
| ReceiveSize.TwoMessagesSettle | crates/core/src/buffers.rs:65-82 | from any class and any history, two messages of a size reach a settled class |
| ReceiveSize.Converges | crates/core/src/buffers.rs:55-82 | for every message size and start, from the third message on the class never changes, every message takes ceil(m / 65536) reads, and small sizes end on small classes, large ones on large |
| ReceiveSize.SettlesOn | crates/core/src/buffers.rs:65-82 | and the class it settles on, exactly, by message size and starting class |
| Handover.AlwaysInv | crates/core/src/ready.rs:121-178 | in every interleaving every queued item is announced by the flag, about to be announced, or about to be popped, and a raised flag is never overlooked |
| Handover.NoLostWakeup | crates/core/src/ready.rs:121-178 | a parked consumer with a finished push still queued has a wakeup outstanding or owed by a producer |
| Handover.QuietMeansDelivered | crates/core/src/ready.rs:121-178 | when producers are idle, no wakeup is outstanding and the consumer is parked, everything pushed was delivered, in order |
| Handover.QuietIsReached | crates/core/src/ready.rs:121-178 | once producers are between calls, the consumer has a step until it is parked with no wakeup outstanding, gets there within a bounded number of steps whichever it takes, and then everything pushed was delivered |
| Handover.ConservedAndCollapsed | crates/core/src/ready.rs:121-178 | delivered ++ queued is the enqueue history, for callbacks and timers; pushes that returned true number the flag clears plus at most one |
| Handover.DrainIsBounded | crates/core/src/ready.rs:156-176 | from one length read to the next a drain delivers no more than had been pushed by the read, whatever producers do |
| Handover.OthersKeep | crates/core/src/ready.rs:94-101 | what a thread may rely on while any others run: its own place, what it alone changes, histories that only grow |
| CrossThread.ReadyQueue.Push | crates/core/src/ready.rs:48-50 | appends to the loop's FIFO |
| CrossThread.CrossThreadQueue.constructor | crates/core/src/ready.rs:110-116 | starts empty with the flag down |
| CrossThread.CrossThreadQueue.Push | crates/core/src/ready.rs:121-124 | enqueues, then swaps the flag, as two atomic steps; true exactly when it now owes the wakeup |
| CrossThread.CrossThreadQueue.PushTimer | crates/core/src/ready.rs:128-131 | the same for a timer and its deadline |
| CrossThread.CrossThreadQueue.DrainInto | crates/core/src/ready.rs:136-178 | delivers callbacks and timers in queue order, counts them, takes everything pushed before a drain that saw the flag, and does nothing when the flag was down |
| HttpTheorems.ExecPairs | crates/core/src/http.rs:207-268 | any headers, in any cut into spans, are committed whole, under the names HttpMeaning.LowerMeans describes in the head and dropped in the trailers, or refused, exactly when they overflow the limits and for the reason OverflowReason gives |
| HttpTheorems.HeadOverflow | crates/core/src/http.rs:245-257 | the reason of a head that overflows is decided at the first header too many, by whether the bytes still fit with its first span |
| HttpTheorems.TrailerOverflow | crates/core/src/http.rs:245-257 | and that of trailers at the first one, if the head left no room |
| HttpTheorems.ExecHead | crates/core/src/http.rs:236-310 | a head in any cut is accepted or refused exactly by its verdict: 414, 431, 400 for other than one Host from HTTP/1.1 on, 413 for a declared length over the cap |
| HttpTheorems.ExecMessage | crates/core/src/http.rs:207-354 | one message in any cut is queued exactly, or refused with its verdict, and the accumulator then holds nothing of it |
| HttpTheorems.ExecPipeline | crates/core/src/http.rs:207-354 | pipelined messages queue exactly those before the first refused one, in order, whole bodies, no trailers, nothing of one in another |
| HttpTheorems.SplittingIndependence | crates/core/src/http.rs:207-354 | two cuts of the same messages queue the same requests and are refused with the same status |
| HttpReasons.ReasonDependsOnCut | crates/core/src/http.rs:245-257 | two cuts of the same messages are refused for different reasons if and only if, in the first message refused, the bytes before the first header past the limit (or the first trailer behind a full head) fit and do not fit with its name; stated with and without empty name spans |
| HttpReasons.AffectedIff | crates/core/src/http.rs:92-116 | some message with a target and named headers is such a one if and only if targets are allowed and max_headers one-byte names and the shortest span more fit max_header_bytes, as by default |
| HttpTheorems.QueuedAt | crates/core/src/http.rs:323-354 | stopped after any number of events, the queue holds exactly the accepted ones among the messages seen whole, before the first refused |
| HttpTheorems.WholeMessagesFit | crates/core/src/http.rs:323-354 | the number of messages seen whole, characterised by event counts |
| HttpTheorems.QueuedWithinLimits | crates/core/src/http.rs:236-354 | at every event of every pipelined stream in any cut, every request in the queue is within the url, header byte, header count and body limits and, from HTTP/1.1 on, has exactly one host header |
| HttpTheorems.AlwaysBounded | crates/core/src/http.rs:236-354 | after any callbacks at all, in any order, refused or not, the url, header, pending and body bytes retained stay within the limits, and a continue owed implies a body expected |
| HttpTheorems.QueueAlwaysBounded | crates/core/src/http.rs:236-354 | nor does anything queued exceed the byte limits, on any stream of callbacks |
| HttpMeaning.LowerMeans | crates/core/src/http.rs:227 | lowercasing adds 32 to the bytes from 65 to 90, leaves every other, and is idempotent |
| HttpMeaning.LowerIff | crates/core/src/http.rs:227 | two names lowercase to the same if and only if they differ in ASCII case alone |
| HttpMeaning.OneHostMeans | crates/core/src/http.rs:286-289 | the Host test passes if and only if exactly one header is called host in some casing |
| HttpMeaning.AnyCasingOfHost | crates/core/src/http.rs:286-289 | a message with one header spelling host in any mix of cases is never refused with 400 |
| HttpMeaning.FirstNamedMeans | crates/core/src/http.rs:189-192 | the value of the first header of a name, if there is one |
| HttpMeaning.TrimMeans | crates/core/src/http.rs:189-204 | what is left of a value is the value without blanks at its ends |
| HttpMeaning.TrimmedOnce | crates/core/src/http.rs:189-204 | there is one way only to take blanks off the ends |
| HttpMeaning.ParseMeans | crates/core/src/http.rs:189-192 | a number is read if and only if the bytes are a numeral for it below 2^64: an optional plus sign and decimal digits, the most significant first |
| HttpMeaning.DeclaredMeans | crates/core/src/http.rs:189-192 | a head declares n bytes if and only if its first content-length header, in any casing, holds a numeral for n between blanks |
| HttpMeaning.ListsContinueMeans | crates/core/src/http.rs:194-205 | a value asks for an interim response if and only if some item between its commas is 100-continue, in any case, between blanks |
| HttpMeaning.ExpectsMeans | crates/core/src/http.rs:194-205 | a head does if and only if some expect header, in any casing, has such a value |
| HttpMeaning.OwesMeans | crates/core/src/http.rs:275-310 | after an accepted head the interim response is owed if and only if it is HTTP/1.1 or later and some expect header asks for it |
| HttpMeaning.VerdictMeans | crates/core/src/http.rs:236-321 | the verdict on every message, in its own bytes and numbers: 414, then 431, then 400, then 413, then 431 for trailers without room, else accepted |
| HttpMeaning.QueuedMeans | crates/core/src/http.rs:323-354 | a queued request has the message's target, values, body and tail, its names with every upper-case byte lowered, and nothing of its trailers |
| HttpMeaning.QueueHoldsMessages | crates/core/src/http.rs:207-354 | at every event of every pipelined stream each queued request is such a one, no name of it has an upper-case byte, and from HTTP/1.1 on its message had exactly one host |
| HttpTheorems.TakenOncePerHead | crates/core/src/http.rs:495-506 | between two interim responses taken, another head was completed |
| HttpTheorems.TakingChangesNothingElse | crates/core/src/http.rs:495-506 | when the caller takes the flag changes no request and no refusal |
| HttpParser.Accumulator.constructor | crates/core/src/http.rs:411-433 | a parser starts with nothing collected |
| HttpParser.Accumulator.CommitHeader | crates/core/src/http.rs:207-229 | takes the pending pair; keeps it, lowercased, only in the head |
| HttpParser.Accumulator.MessageBegin | crates/core/src/http.rs:270-273 | a head is under way |
| HttpParser.Accumulator.Url | crates/core/src/http.rs:236-243 | appends the span, or 414 and the url untouched |
| HttpParser.Accumulator.HeaderField | crates/core/src/http.rs:245-257 | commits the pair before, counts the span, and appends it or fails with 431 |
| HttpParser.Accumulator.HeaderValue | crates/core/src/http.rs:259-268 | counts the span, and appends it or fails with 431 |
| HttpParser.Accumulator.HeadersComplete | crates/core/src/http.rs:275-310 | commits the last pair, ends the head, and checks Host, declared length and expectation |
| HttpParser.Accumulator.Body | crates/core/src/http.rs:312-321 | appends the span, or 413 and the body untouched |
| HttpParser.Accumulator.MessageComplete | crates/core/src/http.rs:323-354 | queues the request and clears everything collected, a pending trailer included |
| HttpParser.Accumulator.Feed | crates/core/src/http.rs:439-471 | the callbacks of one buffer up to the first that fails, whose error is the answer, to this and every later buffer |
| HttpParser.Accumulator.TakeOwesContinue | crates/core/src/http.rs:504-506 | answers the flag and clears it, nothing else |
| HttpParser.Accumulator.NextRequest | crates/core/src/http.rs:483-485 | the oldest request not yet taken |
| Buckets.BucketLe | bench/loadgen/hist.go:28-48 | a sample is in bucket i or below if and only if it is at most bucket i's upper bound, for every bucket but the open-ended last |
| Buckets.BucketMono | bench/loadgen/hist.go:28-38 | larger samples never land in smaller buckets |
| Buckets.UpperInBucket | bench/loadgen/hist.go:28-48 | bucketOf(upperOf(i)) = i for every bucket |
| Buckets.UpperIncreases | bench/loadgen/hist.go:41-48 | bucket bounds strictly increase |
| Buckets.UpperWithin64th | bench/loadgen/hist.go:9-18 | a bucket bound is not below the sample and at most a 64th of it above, if and only if the sample is below 2^46 |
| Buckets.BucketShape | bench/loadgen/hist.go:28-38 | below 64 a bucket for each value; from 64 * 2^e to 128 * 2^e, for e below 40, 64 buckets of 2^e values each; from 2^46 on the last bucket, 2623 |
| Buckets.UpperIsLargest | bench/loadgen/hist.go:28-48 | a bucket's upper bound is the largest value of the bucket, for every bucket below 2^46 |
| Buckets.RankBucket | bench/loadgen/hist.go:88-98 | the bucket where the running count reaches rank r is the bucket of the r-th smallest sample |
| Buckets.RankIsSortedEntry | bench/loadgen/hist.go:79-80 | the r-th smallest, as counted, is the r-th entry of any sorted permutation of the samples, and only that |
| Buckets.RankExists | bench/loadgen/hist.go:79-100 | a rank has its sample if and only if it is from 1 to the number of samples |
| Buckets.CountInConcat | bench/loadgen/hist.go:66-68 | bucket counts of two lists together are the sums of theirs |
| Buckets.ExtremesConcat | bench/loadgen/hist.go:69-74 | minimum and maximum of two lists together, from theirs |
| Buckets.ReportedWithin64th | bench/loadgen/hist.go:79-100 | for every rank with sample x the reported value u is at most the maximum, and x <= u and 64 (u - x) <= x if and only if x is below 2^46 |
| Histogram.Hist.constructor | bench/loadgen/hist.go:20-26 | no samples |
| Histogram.Hist.Record | bench/loadgen/hist.go:50-60 | counts, n, min and max are now those of the samples with this one |
| Histogram.Hist.Merge | bench/loadgen/hist.go:62-77 | counts, n, min and max are now those of both sample lists together; also when merged with itself |
| Histogram.Hist.Quantile | bench/loadgen/hist.go:79-100 | for every rank up to n, the bucket bound of the rank-th smallest sample, which exists, clamped to the maximum; zero when empty; the maximum past the last rank |
| Histogram.Hist.Sparse | bench/loadgen/hist.go:109-119 | a dump of exactly the samples: each non-empty bucket once, increasing, with its count |
| SharedHistograms.AtomicHist.Record | bench/loadgen/hist.go:128-131 | two atomic adds with any other recorders between them: the sample is counted, and n lags behind the counts by the recorders between their adds |
| SharedHistograms.AtomicHist.Snapshot | bench/loadgen/hist.go:133-150 | while others record: the counts, in each bucket at least those before and at most those after, of samples really recorded; their total; the bound of the largest, and as minimum the bound of the smallest that is not zero |
| SharedHistograms.SnapshotMinimumIff | bench/loadgen/hist.go:142-144 | that minimum is the bound of the smallest sample if and only if none is zero or all are |
| Report.AddDump | bench/suite/report.py:116-117 | adding a dump adds its counts and its keys, nothing else |
| Report.Aggregate | bench/suite/report.py:114-117 | the dictionary's keys are those of some dump, its counts the sums over all dumps |
| Report.SummedDumpsHold | bench/suite/report.py:114-117 | a dictionary summed from dumps counts exactly the samples of all of them together |
| Report.Quantile | bench/suite/report.py:87-97 | in microseconds, for every rank up to n, the bucket bound of the rank-th smallest sample, which exists, unclamped |
| Report.GroupQuantile | bench/suite/report.py:114-117 | the quantile over summed dumps is that of all the runs' samples together, for every rank up to their number, which is the merged histogram's before its clamp |
| Handoff.AlwaysInv | python/cadeloop/server.py:2036-2102 | in every interleaving of offers, stop requests and the writer: ownership, wire order, STOP behind the backlog, never blocked on an empty queue |
| Handoff.Ownership | python/cadeloop/server.py:2036-2102 | accepted = sent ++ closed unsent ++ in hand ++ queued, in that order, so each accepted connection is in exactly one place |
| Handoff.StopIsLast | python/cadeloop/server.py:2068-2087 | STOP is written at most once, last, behind the connections accepted before the first stop request, and never on a broken channel |
| Handoff.StopTerminates | python/cadeloop/server.py:2059-2087 | once a stop is requested and the callers are done, the writer always has a step until it has exited, and every step brings its exit nearer |
| Handoff.ExitExplained | python/cadeloop/server.py:2085-2093 | a writer that left its loop wrote STOP or marked the channel broken, exactly one of the two |
| Handoff.OthersKeep | python/cadeloop/server.py:2036-2102 | what a thread may rely on while others run: its own place, flags that only rise, and that only the writer takes, sends and closes |
| SpawnWorkers.SpawnWorker.constructor | python/cadeloop/server.py:2015-2025 | nothing queued, nothing requested, not broken |
| SpawnWorkers.SpawnWorker.Offer | python/cadeloop/server.py:2036-2057 | true exactly when the connection was queued, last among the accepted; false on a broken worker or once a stop was requested; true when the worker was whole, no stop is requested by then and fewer than 256 are queued |
| SpawnWorkers.SpawnWorker.RequestStop | python/cadeloop/server.py:2059-2066 | raises the flag, then leaves something on the queue for the writer to wake on, without blocking |
| SpawnWorkers.SpawnWorker.WriterPass | python/cadeloop/server.py:2068-2093 | one pass takes the oldest entry if there is one; a connection ends up sent and closed, or closed unsent on a broken channel, as the send went; the loop ends exactly by sending STOP or marking the channel broken |
| SpawnWorkers.SpawnWorker.SendAndClose | python/cadeloop/server.py:2074-2084 | our copy is closed whether the send succeeds or raises; a raise marks the channel broken |
| SpawnWorkers.SpawnWorker.StopIfDrained | python/cadeloop/server.py:2085-2092 | STOP is sent when one is asked for and the queue is empty, and only then does the loop end |
| SpawnWorkers.SpawnWorker.DropPass | python/cadeloop/server.py:2095-2102 | closes the oldest queued connection unsent; ends when it finds none |
| Binary.BigRoundTrip | python/cadeloop/server.py:2136 | a number survives its writing if and only if it fits the width |
| Binary.ToBigAt | python/cadeloop/server.py:2136 | byte i of a number written in w bytes is the number divided by 256^(w-1-i), modulo 256: the most significant byte is first |
| Binary.FromBigAt | python/cadeloop/_winworker.py:108 | and byte i of what is read is that digit of the number |
| Binary.ReadThenWrite | python/cadeloop/_winworker.py:108 | every byte string is the writing of the number it reads as |
| FrameChannel.Frame | python/cadeloop/server.py:2126-2144 | a payload has a frame, four bytes longer, if and only if its length is below 2^32 |
| FrameChannel.FrameBytes | python/cadeloop/server.py:2126-2144 | a message's frame byte by byte: four bytes of length, the most significant first, the command, and behind a space the body |
| FrameChannel.SplitExact | python/cadeloop/_winworker.py:110-112 | splitting at the first space recovers command and body if and only if the command has no space; bodies are arbitrary |
| FrameChannel.RecvFrame | python/cadeloop/_winworker.py:97-112 | a whole frame at the front of a stream is received as sent and nothing behind it is touched |
| FrameChannel.RecvCut | python/cadeloop/_winworker.py:88-112 | a frame cut short gives the end of the stream inside its prefix and one empty command inside its payload, and nothing is left |
| FrameChannel.RoundTrip | python/cadeloop/_winworker.py:97-112 | any sequence of messages is delivered exactly and in order, and what follows is read as if alone |
| FrameChannel.WholeFramesFit | python/cadeloop/_winworker.py:88-112 | the number of frames wholly before a cut, characterised by lengths |
| FrameChannel.CutStream | python/cadeloop/_winworker.py:88-112 | a stream cut anywhere delivers exactly the whole frames before the cut, then one empty command if and only if the cut is inside a payload, then its end |
| FrameChannel.BrokenChannelHandsPrefix | python/cadeloop/server.py:1381-1390 | a worker on a broken channel is handed exactly the connections sent whole before the break, a prefix of those sent |
| FrameChannel.HandedFirst | python/cadeloop/server.py:1384-1390 | the word STOP ends the handover, the word CONN hands over its body, and any other command is passed over |
| FrameChannel.Channel.Read | python/cadeloop/_winworker.py:91 | the stream hands out its next bytes in pieces of its own choosing, none only at its end |
| FrameChannel.Channel.ReadExact | python/cadeloop/_winworker.py:88-95 | the next n bytes, or none at the end of the stream, in any chunking |
| FrameChannel.Channel.RecvFrame | python/cadeloop/_winworker.py:97-112 | one frame, depending only on the bytes and never on their chunking |
| FrameChannel.Channel.Pump | python/cadeloop/server.py:1381-1413 | the connections handed over until STOP, the end or a closed loop, each adopted or closed as Adoptions says, independent of chunking |
| Adoptions.Accounted | python/cadeloop/server.py:1376-1413 | however the loop keeps up, at most 1024 adoptions wait, every connection met is adopted, turned away or unusable and only one of these, adoptions keep the order of arrival, and none is passed over unless the loop closed |
| Adoptions.MeetMeans | python/cadeloop/server.py:1391-1413 | a connection that makes no socket is unusable; one that meets 1024 waiting adoptions or a closed loop is turned away; any other is adopted; only a closed loop ends it |
| Adoptions.NoneTurnedAwayIff | python/cadeloop/server.py:1376-1413 | no connection is turned away if and only if each usable arrival finds fewer than 1024 waiting and an open loop; then every usable one is adopted, in order |
| HandoffChannel.WorkerHandedPrefix | python/cadeloop/server.py:2068-2102 | in every interleaving at the supervisor, and wherever the bytes break off, even inside a frame being sent, the worker is handed whole connections that are a prefix of those accepted, in order |
| HandoffChannel.WorkerAdoptsAccepted | python/cadeloop/server.py:1376-1413 | and however its loop keeps up, what it adopts are accepted connections in the order of acceptance; with those it turned away or could not use they are a prefix of the accepted ones, each met once |
| HandoffChannel.WorkerHandedAllWritten | python/cadeloop/server.py:2068-2102 | over an unbroken channel it is handed all that were written, and with STOP every one accepted before the first stop request |
| HandoffChannel.BegunByWriter | python/cadeloop/server.py:2074-2084 | the connection the writer holds or failed to send is the oldest one not sent |
| PipeStream.Conserved | python/cadeloop/_winpipes.py:80-142 | over every run of calls, short writes and failures: reported ++ posted ++ buffer is all accepted bytes in order unless a step dropped some, the reported size is the unwritten length, connection_lost runs at most once, exactly once when a closing pipe has nothing in flight and nothing scheduled, and then everything was written if and only if no step dropped any |
| PipeStream.ClosedIsFinal | python/cadeloop/_winpipes.py:266-268 | over every run nothing is accepted once closing, although only the connection-lost counter is tested |
| PipeStream.StepKeepsInv | python/cadeloop/_winpipes.py:80-317 | every call, completion and scheduled callback keeps fields, bytes and ending consistent |
| PipeStream.AcceptedIsWritten | python/cadeloop/_winpipes.py:257-279 | the accepted bytes are the data of every write before the close and outside a drain, in order |
| PipeStream.RuinedIff | python/cadeloop/_winpipes.py:106-125 | bytes are dropped by exactly these steps: an abort or a failed write with bytes unwritten, and a post the kernel refuses |
| PipeStream.CloseEnds | python/cadeloop/_winpipes.py:281-305 | a closing pipe always has a completion to wait for or connection_lost scheduled, and each brings connection_lost nearer |
| PipeStream.Advance | python/cadeloop/_winpipes.py:288-299 | a completed write of any length moves bytes from the posted write to the reported ones, in order |
| PipeWriter.WritePipe.constructor | python/cadeloop/_winpipes.py:41-61 | nothing accepted, nothing in flight |
| PipeWriter.WritePipe.Write | python/cadeloop/_winpipes.py:257-279 | accepts, ignores or refuses exactly as the state says; accepted bytes are posted or line up behind the write in flight |
| PipeWriter.WritePipe.Post | python/cadeloop/_winpipes.py:307-317 | hands bytes to the kernel; its refusal is fatal |
| PipeWriter.WritePipe.WriteDone | python/cadeloop/_winpipes.py:281-317 | after any short write the rest goes out next, ahead of the buffer; an error ruins the stream; the completion of a cancelled write changes nothing |
| PipeWriter.WritePipe.WriteRest | python/cadeloop/_winpipes.py:300-315 | the short remainder, or else the buffer, is posted; when nothing is left a closing pipe schedules connection_lost |
| PipeWriter.WritePipe.Close | python/cadeloop/_winpipes.py:80-90 | stops accepting and keeps every unwritten byte |
| PipeWriter.WritePipe.ForceClose | python/cadeloop/_winpipes.py:106-125 | drops everything unwritten and schedules connection_lost, unless it already ran |
| PipeWriter.WritePipe.Abort | python/cadeloop/_winpipes.py:325-326 | the abort step of PipeStream |
| PipeWriter.WritePipe.CallConnectionLost | python/cadeloop/_winpipes.py:127-136 | calls connection_lost the first time and never again |
| PipeWriter.WritePipe.GetWriteBufferSize | python/cadeloop/_winpipes.py:138-142 | the length of the unwritten part: accepted less reported while the stream is not ruined |
| PipeWriter.WritePipe.MakeEmptyWaiter | python/cadeloop/_winpipes.py:328-334 | one waiter at a time, done at once exactly when nothing is unwritten |
| PipeWriter.WritePipe.ResetEmptyWaiter | python/cadeloop/_winpipes.py:336-337 | no waiter |
| WsFrames.XorTwice | bench/loadgen/main.go:628-630 | masking a byte twice with one key byte gives it back |
| WsFrames.XorAt | bench/loadgen/main.go:628-630 | each bit of a masked byte is set if and only if just one of the byte and the key byte has it set |
| WsFrames.MaskedTwice | bench/loadgen/main.go:625-630 | masking twice with one key gives the payload back |
| WsFrames.LengthRoundTrip | bench/loadgen/main.go:613-621 | each of the three length forms reads back as the length it carries |
| WsFrames.ClientFrameParses | bench/loadgen/main.go:609-632 | a client frame parses, in front of anything, to a final frame with its opcode, key and unmasked payload |
| WsFrames.ClientFrameBytes | bench/loadgen/main.go:609-632 | a client frame byte by byte: final bit and opcode; mask bit and the shortest length form, the most significant byte first; the key; and each payload byte with exactly the bits flipped that its key byte has set |
| WsFrames.ClientFrameShortest | bench/loadgen/main.go:613-621 | no masked frame carrying the same payload is shorter |
| WsClient.MaskInPlace | bench/loadgen/main.go:627-630 | masks everything behind the header where it lies and nothing else |
| WsClient.WsFrame | bench/loadgen/main.go:609-632 | builds exactly the client frame of WsFrames.ClientFrameBytes, under a fresh key |
| WsClient.TakeFrame | bench/loadgen/main.go:639-677 | a server frame up to 64 MiB in any length form is taken off the front whole, and nothing behind it is touched |
| WsClient.TakenWasFrame | bench/loadgen/main.go:639-677 | whatever was taken was the bytes of a frame in some length form |
| WsClient.TakeCut | bench/loadgen/main.go:640-676 | a frame cut anywhere is an end of file |
| WsClient.TakeMeans | bench/loadgen/main.go:639-677 | what any bytes give, in their own values: a masked frame from a second byte of 128 on, else the length in one, two or eight bytes, the most significant first, too big above 67108864, an end of file when bytes are missing, else the frame |
| WsClient.KindsOfFrames | bench/loadgen/main.go:680-694 | opcode 8 closes, 9 is answered, 10 is passed over, and any other carries data, ending the message if and only if its first byte has the top bit |
| WsClient.ReadsMessage | bench/loadgen/main.go:635-695 | a message in any fragments, with pings and pongs anywhere, is read as its data in order; exactly its frames are consumed and counted and its pings answered |
| WsClient.MessageWasSent | bench/loadgen/main.go:635-695 | conversely, whatever bytes a message was read from were such a message's frames with that data |
| WsClient.CutMessage | bench/loadgen/main.go:640-676 | a message cut short is an end of file, never a shorter message |
| WsClient.PongCarriesPing | bench/loadgen/main.go:683-686 | a pong parses to opcode 10 and the ping's own payload |
| WsClient.Conn.ReadFull | bench/loadgen/main.go:640-676 | n bytes, or an error with everything left used up |
| WsClient.Conn.ReadLength | bench/loadgen/main.go:649-665 | the length in the form its lead byte says, or an end of file, with the header bytes counted |
| WsClient.Conn.ReadFrame | bench/loadgen/main.go:639-677 | one frame off the stream, or end of file, a masked frame or one over the cap, with the bytes counted so far |
| WsClient.Conn.Answer | bench/loadgen/main.go:683-686 | writes one pong for the ping |
| WsClient.Conn.WsRead | bench/loadgen/main.go:635-695 | the read loop agrees with ReadFrom and writes one pong for each ping, in order |
| SockAddrs.CopyInto | crates/core/src/netsys.rs:34-36 | copies a part into the buffer and touches nothing else |
| SockAddrs.BuildSockaddr | crates/core/src/netsys.rs:27-62 | 128 bytes: the family in the machine's order, the port as port / 256 and port % 256, the address, flow info and scope byte by byte, NULs to the end; length 16 or 28 |
| SockAddrs.InternetRoundTrip | crates/core/src/netsys.rs:27-121 | every IPv4 and IPv6 address, port, flow info and scope comes back from its buffer, whatever follows it, in either native byte order |
| SockAddrs.ParsedWasBuilt | crates/core/src/netsys.rs:103-121 | what parses as an Internet address holds exactly that address's bytes |
| SockAddrs.ParsesIff | crates/core/src/netsys.rs:77-121 | a buffer parses as an IPv4 address if and only if it has 8 bytes and family 2, as IPv6 if and only if it has 28 and the platform's family, as AF_UNIX if and only if its family is 1 |
| SockAddrs.NulEndsPath | crates/core/src/netsys.rs:90-91 | a padded path comes back if and only if it has no NUL; otherwise it ends at its first |
| SockAddrs.TrimmedEnds | crates/core/src/netsys.rs:86-89 | trimming an abstract name removes exactly the NULs at its end |
| SockAddrs.UnixRoundTrip | crates/core/src/netsys.rs:77-101 | with any padding an AF_UNIX path, behind the two bytes of its family, comes back if and only if it is empty, NUL-free, or an abstract name not ending in NUL |
| SockAddrs.UnixNeverInternet | crates/core/src/netsys.rs:95-121 | no buffer parses both as AF_UNIX and as an Internet address |
| SockAddrs.UnixParseIsPlain | crates/core/src/netsys.rs:81-93 | every parsed path is one that comes back, and only NULs were cut from it when it is abstract |

## Left out

- The payload of an op slot (`D`), and writes through `get_mut`: a slot's payload is the caller's; only its address matters here.
- OpSlabs.OpSlab.ContainsDataPtr: the `stride == 0` branch (opslab.rs:191) is not modelled, because a slot always holds its state and generation.
- OpLifecycle.KernelExact: covers runs of slabs with up to 2^32 slots, and BufferRefs.AlwaysSound runs in which no count reaches 2^32; OpSlabs.OpSlab.Post, BufferPools.ClassPool.Acquire and BufferPools.ClassPool.Retain say exactly what happens at those limits, but not what follows.
- Debug builds: `debug_assert` failures and buffer poisoning; the release behaviour is modelled.
- Counters that are 64 bits or pointer-sized in the source (in-flight and rejection counts, histogram counts, sizes) are unbounded here.
- Where regions lie is the allocator's promise: a new one is taken to be apart from all others.
- `Region::alloc`, `page_in` and `page_out` themselves: which region the allocator supplies and whether the system takes pages back are parameters; `committed` records the effect. Registration of regions with the kernel only sets a flag (BufferPools.ClassPool.Register).
- Weak memory: the handoff queue is modelled on sequentially consistent atomic steps, and its two lock-free queues as FIFOs.
- CrossThread.CrossThreadQueue.Push: posting the wakeup it asks for is the caller's step, and appears only as an action of Handover.
- llhttp, the upgrade pause of `feed`, and malformed input: the callbacks are the input of the model, in the order llhttp makes them.
- HttpTheorems.SplittingIndependence: covers the refusal's status; when the reason is independent too is HttpReasons.ReasonDependsOnCut.
- Non-ASCII white space around a `Content-Length` value, which `str::trim` would also remove, and values that are not UTF-8; llhttp passes neither.
- The histogram's `sum` and mean, and the floating-point product that gives a rank: the rank is a parameter.
- Report.Quantile: microseconds are exact rationals here, not floating point.
- `_SpawnWorker.close` and its `_closing` flag, exceptions other than OSError and ValueError from a send, and how long an offer with a timeout waits.
- SpawnWorkers.SpawnWorker.WriterPass: a blocking `get` is a pass that finds nothing and changes nothing; Handoff.StopTerminates rules out waiting for ever after a stop request.
- FrameChannel.Frame: the sequenced-packet side of the channel, with descriptors attached, is not modelled, nor a write to stdin that fails part-way other than as a cut stream.
- FrameChannel.Channel.Pump: whether a blob makes a socket, how many waiting adoptions the loop has run and whether it is closed are parameters; logging and descriptors are left out.
- The read side of pipe transports and the close probe (which only calls the close path), flow-control callbacks, argument type checks, `_eof_written` (never set), and calls back into the transport from connection_lost.
- PipeStream.Conserved: bytes of a write that a forced close cancelled may still reach the pipe; "reported" is what the transport was told.
- WsClient.Conn.WsRead: reuse of the caller's buffer capacity, deadlines and errors other than end of file are left out; a pong that could not be written is still counted as answered, as its error is ignored.
- The WebSocket handshake, and everything in the repository not named above: reactor, timers, transports, TLS, DNS, subprocess start-up, benchmarks' runners and charts.
