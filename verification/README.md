# Verified models of the silicon bring-up exercises

The programs under `solutions/` are small C models of hardware mechanisms. Each asserts a few
sample outcomes in its `main`. This project models the ones with a non-trivial protocol,
data structure or bit trick, and proves for all inputs, runs and interleavings what those
samples illustrate.

| file | models |
|---|---|
| `SpscRing.dfy` | the lock-free single-producer/single-consumer ring, one atomic access per step |
| `SpscMemory.dfy` | the same ring over C11 memory: an access log, happens-before, slot reads that may return stale writes |
| `SpscProgress.dfy` | infinite schedules of the ring: its two retry loops make progress |
| `AsyncFifo.dfy` | the dual-clock FIFO with Gray-coded pointers, and the peak backlog of a schedule |
| `CdcSync.dfy` | the toggle synchroniser and the two-phase request/acknowledge transfer |
| `CacheSim.dfy` | the set-associative cache with age-based replacement |
| `TlbIommu.dfy` | the four-entry translation buffer in front of the page walk |
| `FsmDetect.dfy` | the brute-force and shift-register sequence detectors and the 101 machine |
| `CycleDetect.dfy` | slow/fast pointer cycle detection on a heap of nodes |
| `EnumWalker.dfy` | the recursive bus enumeration and the bridge window |
| `ClockReset.dfy` | ordered reset release and the clock divider |
| `BitOps.dfy`, `BitScan.dfy`, `XorSearch.dfy` | bit counts, reversal and zero counts, rounding to powers of two, XOR searches |
| `Words.dfy`, `Pigeonhole.dfy` | shared arithmetic of unsigned words; shared counting arguments |

Conventions:

- A `uint32_t` or `unsigned` is a number below 2^32 and every wrap-around is written as
  `% TWO_32`. Bitwise operators are defined digit by digit in `Words.dfy`. A C `int` is an
  integer; where its range matters the contract or the last section says so.
- Structures that the C code updates in place are classes, and buffers it writes are arrays.
  Each method is tied to a function on values (`Access`, `Translate`, `Write`, ...), and the
  results about runs are proved for that function. Buffers that are only read are sequences.
- A run is a sequence of operations in any order. Runs start from the state the C program
  starts from; the ring starts at any index value, so that wrap-around is covered.

## Memory model of the ring

An atomic index is its modification order, the sequence of values stored to it (sections
5.1.2.4 and 7.17.3 of ISO/IEC 9899:2011). An acquire load may return any entry that is not
older than the one the same thread acquired before.

`SpscRing` reads slots as last written. `SpscMemory` drops that assumption: each access is
logged, happens-before is the transitive closure of program order and of release stores with
the acquire loads that return their entry, and a slot read may return any earlier write to the
slot, or the initial contents, unless a later write that happens before the read hides it.
Writes that race with the read may be returned. `ReadsOldest` proves that only the value due
remains, `RaceFreeByLog` that accesses of one slot are always ordered, and `ExecutionRefines`
that every execution over this memory is a run of `SpscRing`, so its results hold here too.

## Model

| member | source | states |
|---|---|---|
| SpscRing.Fifo | solutions/s09_spsc_acqrel.c:22-38 | in every state reachable by interleaved atomic steps with stale acquire loads, from any equal start index: the popped values are a prefix of the pushed ones, 0 to 8 are in flight, and the stored indices are the counts modulo 2^32 |
| SpscRing.SlotExclusive | solutions/s09_spsc_acqrel.c:25-37 | while each thread is between its check and its release store, the two are on different slots |
| SpscRing.RaceFree | solutions/s09_spsc_acqrel.c:23-36 | any write and any read of the same slot, including those not yet released, are ordered by happens-before through an acquired index |
| SpscRing.PushFailsExactlyWhenFull | solutions/s09_spsc_acqrel.c:24-25 | across the index wrap, a push is refused if and only if 8 values were in flight at the head it acquired |
| SpscRing.HoldsEight | solutions/s09_spsc_acqrel.c:22-29 | from an empty ring at any index, wrap included, pushes without a pop in between store the first 8 values and refuse every later one |
| SpscRing.PopFailsExactlyWhenEmpty | solutions/s09_spsc_acqrel.c:33-34 | across the index wrap, a pop is refused if and only if everything pushed at the tail it acquired had been popped |
| SpscRing.DistanceIsCount | solutions/s09_spsc_acqrel.c:25-37 | the wrapping subtraction, comparison and increment of indices agree with the unbounded counts whenever those are at most 8 apart |
| SpscRing.SameSlot | solutions/s09_spsc_acqrel.c:26-35 | two counts use one slot exactly when they differ by a multiple of 8, wrap or no wrap |
| SpscRing.RunKeepsInv | solutions/s09_spsc_acqrel.c:22-38 | every schedule of atomic steps keeps the invariant that relates indices, acquired entries, slots and history |
| SpscRing.ConsumerSeesExpected | solutions/s09_spsc_acqrel.c:50-62 | when the producer pushes 0, 1, 2, ... with retries, the k-th popped value is k under every interleaving: the consumer's assertion never fails |
| SpscRing.Ring.Push | solutions/s09_spsc_acqrel.c:22-29 | one call on the ring in memory, with any steps of the consumer between its four accesses and any head entry the acquire load may return: it succeeds exactly if fewer than 8 values were in flight at that entry, then appends the value to what was pushed, and the steps executed are those of the step model |
| SpscRing.Ring.AcquireHead | solutions/s09_spsc_acqrel.c:24-25 | the acquire load and the full test: room exactly if fewer than 8 values were in flight at the acquired entry |
| SpscRing.Ring.ReleaseTail | solutions/s09_spsc_acqrel.c:27 | the release store publishes the written value: exactly now does it count as pushed |
| SpscRing.Ring.Pop | solutions/s09_spsc_acqrel.c:31-38 | one call on the ring in memory, with any steps of the producer between its four accesses and any tail entry the acquire load may return: it succeeds exactly if something was pushed at that entry, returns the oldest value not popped, and otherwise leaves the caller's variable alone |
| SpscRing.Ring.AcquireTail | solutions/s09_spsc_acqrel.c:33-34 | the acquire load and the empty test: a value is there exactly if the acquired entry is past what was popped |
| SpscRing.Ring.ReadSlot | solutions/s09_spsc_acqrel.c:35 | the slot holds the oldest value not popped |
| SpscMemory.RaceFreeByLog | solutions/s09_spsc_acqrel.c:23-36 | in every execution over C11 memory, of any write and read of one slot the one that is executed first happens before the other |
| SpscMemory.ReadsOldest | solutions/s09_spsc_acqrel.c:33-35 | of all writes to the slot that happens-before does not hide, racing ones included, a pop can read exactly one value: the oldest not popped |
| SpscMemory.ExecutionRefines | solutions/s09_spsc_acqrel.c:22-38 | every execution with such reads is a run of the machine with coherent slots, so its safety results carry over |
| SpscMemory.NeverStuck | solutions/s09_spsc_acqrel.c:22-38 | and every step that machine can take next, the execution can take next |
| SpscMemory.StepRefines | solutions/s09_spsc_acqrel.c:22-38 | one step over C11 memory is the step of that machine and keeps the log in the order of the counts |
| SpscProgress.EveryCountReached | solutions/s09_spsc_acqrel.c:50-62 | on every infinite schedule in which both threads keep stepping and each stored index is eventually seen by the other thread's loads, every number of values is popped: no retry loop runs forever |
| SpscProgress.PushesGrow | solutions/s09_spsc_acqrel.c:22-53 | on such a schedule the push count rises whenever fewer than 8 values are in flight |
| SpscProgress.PopsGrow | solutions/s09_spsc_acqrel.c:31-60 | on such a schedule the pop count rises whenever a value is in flight |
| SpscProgress.TurnsAreFair | solutions/s09_spsc_acqrel.c:22-38 | such schedules exist from every start: strict alternation that loads the newest entries is one |
| AsyncFifo.DeliveredInOrder | solutions/s04_async_fifo.c:16-50 | for each of the depths 2, 4, ..., 256 and every order of writes, reads and clocks: deliveries are a prefix of the writes, and the two-stage counts stay ordered with the writer at most depth ahead of the slowest read count |
| AsyncFifo.ValidDepthExactly | solutions/s04_async_fifo.c:12-14 | the mask test accepts exactly the depths 2, 4, 8, 16, 32, 64, 128 and 256 |
| AsyncFifo.WriteAcceptedExactly | solutions/s04_async_fifo.c:38-43 | in every run at each of these depths a write is stored if and only if fewer than depth writes are beyond the reads visible to the writer |
| AsyncFifo.ReadAcceptedExactly | solutions/s04_async_fifo.c:45-50 | in every such run a read succeeds if and only if a visible write is unread, and then delivers the oldest unread word |
| AsyncFifo.WriteOverwritesNothingUnread | solutions/s04_async_fifo.c:38-43 | an accepted write never goes to the slot of an unread word, and unread words are intact |
| AsyncFifo.ReadFindsOldestUnread | solutions/s04_async_fifo.c:45-50 | an accepted read finds a written word, the oldest unread one |
| AsyncFifo.FullIsCount | solutions/s04_async_fifo.c:30-36 | the XOR test on Gray codes holds if and only if the writes exceed the reads visible to the writer by exactly depth |
| AsyncFifo.EmptyIsCount | solutions/s04_async_fifo.c:16-18 | the Gray comparison holds if and only if everything visible to the reader was read |
| AsyncFifo.FlagsExactAfterTwoClocks | solutions/s04_async_fifo.c:16-36 | after two clocks of its own side each flag equals the true full or empty condition |
| AsyncFifo.FullTestIsDistance | solutions/s04_async_fifo.c:34-35 | flipping the two mask bits of a Gray code is adding the depth modulo twice the depth |
| AsyncFifo.GrayInjective | solutions/s04_async_fifo.c:11 | different values have different Gray codes |
| AsyncFifo.GrayStepFlipsOneBit | solutions/s04_async_fifo.c:11-48 | advancing a pointer, the wrap to 0 included, changes exactly one bit of its Gray code |
| AsyncFifo.DepthIsPow2 | solutions/s04_async_fifo.c:12-33 | an accepted depth is two to the number of address bits that the shift loop counts |
| AsyncFifo.RunKeepsInv | solutions/s04_async_fifo.c:16-50 | every run keeps the registers equal to the Gray-coded counts and the unread words in their slots |
| AsyncFifo.Fifo.IsFull | solutions/s04_async_fifo.c:30-36 | the loop over address bits computes the full flag of the state; a depth that is not one of the eight is never full |
| AsyncFifo.Fifo.WriteTick | solutions/s04_async_fifo.c:20-23 | one write clock moves the Gray read pointer one register on and changes nothing else |
| AsyncFifo.Fifo.ReadTick | solutions/s04_async_fifo.c:25-28 | one read clock moves the Gray write pointer one register on and changes nothing else |
| AsyncFifo.Fifo.TryWrite | solutions/s04_async_fifo.c:38-43 | a write is refused, changing nothing, exactly for a depth other than the eight powers of two or a full FIFO, and otherwise is the write step used in the runs |
| AsyncFifo.Fifo.TryRead | solutions/s04_async_fifo.c:45-50 | a read is refused, changing nothing, exactly for a depth other than the eight powers of two or an empty FIFO, then leaving the caller's variable alone, and otherwise returns the addressed word and is the read step used in the runs |
| AsyncFifo.PeakBacklog | solutions/s04_async_fifo.c:52-63 | the clamped running sum is the maximum over all windows of ticks of writes minus reads; -1 exactly for a negative length or a value other than 0 and 1 |
| AsyncFifo.PeakIsDepthNeeded | solutions/s04_async_fifo.c:52-63 | a queue of depth d never holds more than d words at the end of a tick of the schedule if and only if d is at least that peak |
| AsyncFifo.OccupancyIsLargestNet | solutions/s04_async_fifo.c:54-60 | the occupancy of a queue whose reads of an empty queue do nothing is the largest excess of writes over reads in a window that ends now |
| CdcSync.ToggleSync | solutions/s04_cdc_sync.c:5-20 | dest[i] is 1 exactly if i + 1 is a multiple of the divisor or i is the last tick, and an odd number of pulses arrived in the ticks from i - i mod divisor to i; otherwise 0; the result counts the ones; -1 and no change for bad arguments |
| CdcSync.DestPulseExactly | solutions/s04_cdc_sync.c:9-17 | the toggle test at a destination clock is the parity of the source pulses counted in that clock period |
| CdcSync.DeliversAllIffSpaced | solutions/s04_cdc_sync.c:5-20 | as many pulses come out as went in if and only if no destination clock period, the short last one included, holds two; losses are always even |
| CdcSync.ArrivesInOrder | solutions/s04_cdc_sync.c:32-48 | for any pattern of destination clocks: received <= submitted <= received + 1, and the received words are a prefix of the words sent |
| CdcSync.HeldUntilAcknowledged | solutions/s04_cdc_sync.c:35-46 | between a request toggle and its acknowledgement the held word is the next one due and neither it nor the request changes |
| CdcSync.RunKeepsInv | solutions/s04_cdc_sync.c:32-48 | at most one toggle travels round the loop of registers in any run |
| CdcSync.FinishesOnTime | solutions/s04_cdc_sync.c:31-48 | when the loop ends the tick counter is 0 for no words and 6 * (n mod 715827883) + 2 for n words, wraps of the counter included; that is 6n + 2 exactly if 6n + 2 fits the counter |
| CdcSync.TickProgresses | solutions/s04_cdc_sync.c:32-48 | each tick submits a word, moves the toggle on, or brings the next destination clock nearer, even when the counter wraps |
| CdcSync.WrapStaysOnSchedule | solutions/s04_cdc_sync.c:39-46 | the tick on which the counter wraps clocks the destination a second time in a row, takes the word in flight, and starts the next round of 715827883 words on schedule |
| CdcSync.Handshake.Transfer | solutions/s04_cdc_sync.c:24-50 | the loop ends for every n and fills `out` with the words in order, leaving the rest alone; the final tick count as above for every n; -1 and no change for a negative n |
| CdcSync.Handshake.Turn | solutions/s04_cdc_sync.c:32-48 | one turn of the loop in memory is a source tick and on every third count a destination tick; it stores the word that arrives and comes closer to the end |
| CdcSync.Handshake.TickDestination | solutions/s04_cdc_sync.c:41-46 | the destination's part stores the held word next to those already taken exactly when a new request has arrived |
| CacheSim.LruExactlyUpTo | solutions/s08_cache_sim.c:13-34 | the cache is exactly LRU after every history of n accesses if and only if n is at most 2^32 |
| CacheSim.HitByAddress | solutions/s08_cache_sim.c:13-34 | in addresses: after at most 2^32 accesses the next one hits if and only if its 64-byte block was accessed before and fewer than 4 other blocks with the same block number modulo 8 were accessed since |
| CacheSim.HitIffRecent | solutions/s08_cache_sim.c:13-34 | in every run of at most 2^32 accesses the next access hits if and only if its line was used before and fewer than 4 distinct other lines of its set were used since |
| CacheSim.RefinesMoveToFront | solutions/s08_cache_sim.c:13-34 | after at most 2^32 accesses the array of ages hits exactly when the textbook move-to-front list of the set holds the line |
| CacheSim.ListedIffRecent | solutions/s08_cache_sim.c:6-34 | for histories of any length the list holds a line exactly if fewer than 4 other lines of its set were used since its last use |
| CacheSim.ResidentAfterUse | solutions/s08_cache_sim.c:18-31 | after a use of a line the set holds exactly the recently used lines, whatever age the use stores |
| CacheSim.MruIsMostRecent | solutions/s08_cache_sim.c:6-34 | that list holds the 4 most recently used lines of the set in order of last use |
| CacheSim.SinceIsMoreRecent | solutions/s08_cache_sim.c:13-34 | the lines counted as used since are those of the same set with a later last use |
| CacheSim.RunKeepsInv | solutions/s08_cache_sim.c:13-34 | in every run of fewer than 2^32 accesses ages are last uses, tags in a set are distinct, and an absent line that was used is older than a full set |
| CacheSim.AgesDistinct | solutions/s08_cache_sim.c:21-31 | in every such run the valid ways of a set have distinct ages |
| CacheSim.CountersBalance | solutions/s08_cache_sim.c:17-33 | hits + misses = clock = number of accesses, modulo 2^32 for histories of any length and exactly below 2^32 |
| CacheSim.CountersExact | solutions/s08_cache_sim.c:17-33 | for histories of any length the hit and miss counters are, modulo 2^32, the numbers of accesses that hit and that missed |
| CacheSim.WrapEvictsMostRecent | solutions/s08_cache_sim.c:17-31 | how it fails: if access number 2^32 hits a line, the next miss in its full set evicts that line, the one used last |
| CacheSim.WrapExample | solutions/s08_cache_sim.c:17-31 | the shortest failing length: 2^32 + 1 accesses after which a line misses although fewer than 4 others were used since |
| CacheSim.WrapBreaksLru | solutions/s08_cache_sim.c:17-31 | a failing history of every length above 2^32 |
| CacheSim.VictimFrom | solutions/s08_cache_sim.c:26-30 | the victim is the first invalid way if there is one and otherwise the first of the ways of least age |
| CacheSim.Cache.FindTag | solutions/s08_cache_sim.c:18-25 | the lookup loop finds the first valid way with the tag |
| CacheSim.Cache.FindVictim | solutions/s08_cache_sim.c:26-30 | the victim loop with its early exit finds that victim |
| CacheSim.Cache.Use | solutions/s08_cache_sim.c:13-34 | one access in memory is the access step used in the runs, on all 8 sets and all counters, and returns whether it hit |
| TlbIommu.TranslatesLikeWalk | solutions/s13_tlb_iommu.c:19-29 | after any sequence of translations and flushes a translation returns (page * 2654435761 mod 2^20) * 4096 + offset, as the page walk alone does |
| TlbIommu.BufferIsFifo | solutions/s13_tlb_iommu.c:19-29 | a call hits if and only if its page is among the last four missed since the start or the last flush, where the missed pages are read off the sequence of calls alone |
| TlbIommu.MissedIsMissed | solutions/s13_tlb_iommu.c:19-29 | the pages so listed are those that missed |
| TlbIommu.CountersExact | solutions/s13_tlb_iommu.c:19-29 | for every sequence of calls the hit and miss counters are, modulo 2^32, the numbers of translations whose page was and was not among the last four missed; flushes change neither |
| TlbIommu.CountersBalance | solutions/s13_tlb_iommu.c:19-29 | hits plus misses are the number of translations modulo 2^32 |
| TlbIommu.PagesDistinct | solutions/s13_tlb_iommu.c:15-27 | no page is buffered twice |
| TlbIommu.TranslationInjective | solutions/s13_tlb_iommu.c:19-29 | equal results mean equal addresses, whatever hits and misses came before |
| TlbIommu.PageWalkIsBijection | solutions/s13_tlb_iommu.c:20-28 | the walk with the offset kept is a permutation of the 32-bit addresses |
| TlbIommu.UnwalkWalk | solutions/s13_tlb_iommu.c:25 | multiplying by the inverse of the odd multiplier recovers the page number from the frame |
| TlbIommu.WalkUnwalk | solutions/s13_tlb_iommu.c:25 | every frame number is the frame of some page |
| TlbIommu.WalkIsMod | solutions/s13_tlb_iommu.c:25 | the wrapping product and mask are a multiplication modulo 2^20 |
| TlbIommu.RunKeepsInv | solutions/s13_tlb_iommu.c:19-29 | every run keeps entry k mod 4 equal to the k-th miss for the last four misses |
| TlbIommu.Tlb.TranslateAddress | solutions/s13_tlb_iommu.c:19-29 | one call in memory is the translation step used in the runs and returns its result |
| TlbIommu.Tlb.Invalidate | solutions/s13_tlb_iommu.c:64-65 | the flush clears every valid bit, restarts the eviction order and keeps the counters |
| FsmDetect.SeqDetect | solutions/s02_fsm_detect.c:5-24 | both modes mark and count exactly the match ends of the overlapping or skipping scan, with the scan position an int, for every input on which that int does not overflow; -1 and no change for a bad length |
| FsmDetect.ShortStreamsFit | solutions/s02_fsm_detect.c:9-20 | it does not overflow whenever n + plen - 1 is at most the largest int |
| FsmDetect.OverlappingFindsAll | solutions/s02_fsm_detect.c:9-23 | the overlapping scan finds every match end |
| FsmDetect.GreedySkipIsOptimal | solutions/s02_fsm_detect.c:9-23 | the skipping scan finds match ends at least plen apart, and no set of match ends that far apart is larger |
| FsmDetect.SkippingIsLargest | solutions/s02_fsm_detect.c:9-23 | the optimality from any scan position on, by exchange of the first end |
| FsmDetect.CompareAt | solutions/s02_fsm_detect.c:10-16 | the inner loop with its break decides whether the last plen values are the pattern |
| FsmDetect.MatchesExactly | solutions/s02_fsm_detect.c:10-16 | a match at a position means that the value j positions before it is digit j of the pattern, for all plen digits |
| FsmDetect.PatternBitExactly | solutions/s02_fsm_detect.c:12 | value k of the pattern, most significant first, is its quotient by 2^(plen - 1 - k) modulo 2 |
| FsmDetect.WinMatch | solutions/s02_fsm_detect.c:26-37 | the shift-register loop marks and counts exactly the positions where the register equals the pattern |
| FsmDetect.ShiftIn | solutions/s02_fsm_detect.c:28-32 | the masked shift is the register step for every plen from 1 to 32 |
| FsmDetect.ShiftedDigit | solutions/s02_fsm_detect.c:28-32 | digit by digit, for any value shifted in: digit k is digit k of the value or digit k - 1 of the old register, and nothing stays beyond plen digits |
| FsmDetect.WindowDigit | solutions/s02_fsm_detect.c:32 | the register holds the last plen values of a 0/1 stream, newest in digit 0 |
| FsmDetect.WindowAgreesWithBruteForce | solutions/s02_fsm_detect.c:5-37 | on 0/1 streams the register matches if and only if brute force matches and the pattern has no digit beyond plen |
| FsmDetect.DetectorsAgree | solutions/s02_fsm_detect.c:5-37 | for patterns of plen digits both detectors find the same ends |
| FsmDetect.StateMeansSuffix | solutions/s02_fsm_detect.c:39-44 | the state of the machine says exactly which inputs came since the last fault |
| FsmDetect.StateFromMeansSuffix | solutions/s02_fsm_detect.c:39-44 | the same from any start state: an illegal one counts as a fault at the first tick |
| FsmDetect.LegalAfterStep | solutions/s02_fsm_detect.c:40 | from any int the state is one of 0, 1, 2 after every step, and 0 after the first step from an illegal one whatever the input |
| FsmDetect.IllegalStartIsFault | solutions/s02_fsm_detect.c:39-44 | a run from an illegal state is the run from 0 with a fault at the first tick |
| FsmDetect.DetectsUnfaulted101 | solutions/s02_fsm_detect.c:39-44 | a step from state 2 to state 1 is exactly a 1, 0, 1 in three ticks without a fault |
| FsmDetect.MachineAgreesWithBruteForce | solutions/s02_fsm_detect.c:5-44 | without faults the machine and the brute-force matcher for 101 mark the same ticks |
| CycleDetect.HasCycle | solutions/d00_cycle_detect.c:21-34 | ends on every finite graph and returns true if and only if the links from head never reach NULL |
| CycleDetect.EndlessIffCycle | solutions/d00_cycle_detect.c:21-34 | never reaching NULL is the same as coming back to some node |
| CycleDetect.MeetingPoint | solutions/d00_cycle_detect.c:26-29 | slow and fast pointer agree after at most as many steps as there are nodes |
| CycleDetect.MeetingIsEndless | solutions/d00_cycle_detect.c:29-31 | a node reached twice means that NULL is never reached |
| EnumWalker.Enumerate | solutions/s11_enum_walker.c:30-38 | for any inventory the recursion ends, leaves what was listed, and appends exactly as much of the depth-first preorder as fits in 8 nodes; nothing for a negative count |
| EnumWalker.ListedDepthFirst | solutions/s11_enum_walker.c:32-37 | the order: a function comes after those before it on its bus, a bridge to a higher bus is followed at once by the whole listing of that bus, and then come the later functions on its bus |
| EnumWalker.LeadsOnExactly | solutions/s11_enum_walker.c:35 | a bridge is followed exactly if its header type is 1 modulo 128 and its secondary bus is above its own |
| EnumWalker.ListsExactlyReached | solutions/s11_enum_walker.c:32-37 | the preorder lists exactly the functions on buses that chains of type-1 headers with rising bus numbers lead to |
| EnumWalker.ListedPerChain | solutions/s11_enum_walker.c:32-37 | how often: the preorder lists a function once for each of its copies in the inventory and each chain of bridge positions that leads to its bus |
| EnumWalker.ChainsExact | solutions/s11_enum_walker.c:33-36 | the chains counted are exactly the sequences of positions of type-1 headers with rising bus numbers from one bus to the other |
| EnumWalker.BusesRise | solutions/s11_enum_walker.c:35-36 | the walk never lists a bus below the one it started from |
| EnumWalker.Bridge.ProgramWindow | solutions/s11_enum_walker.c:40-43 | writes only the window base, and nothing when rounding up would overflow 64 bits |
| EnumWalker.WindowBaseIsLeast | solutions/s11_enum_walker.c:42 | the masked sum is the least multiple of a megabyte that is not below the given base |
| ClockReset.ResetSeq | solutions/s03_clock_reset.c:27-43 | releases the domain at the step and changes no other, exactly when the call is accepted; the flag and result for every rejection |
| ClockReset.AcceptsExactly | solutions/s03_clock_reset.c:28-41 | a call succeeds exactly for a step in 0..n-1, an order in which every number below n occurs, and zero entries for all domains before the step |
| ClockReset.ValidOrderIsPermutation | solutions/s03_clock_reset.c:30-34 | the range and duplicate scan accepts exactly the orders whose first n entries contain every number below n, the permutations |
| ClockReset.StepKeepsPrefix | solutions/s03_clock_reset.c:35-41 | a call succeeds exactly up to the first unreleased position and extends the released prefix by at most one |
| ClockReset.ReleasedIsPrefix | solutions/s03_clock_reset.c:27-43 | from all domains asserted, any sequence of calls leaves exactly a prefix of the order released |
| ClockReset.LastStepReleasesAll | solutions/s03_clock_reset.c:27-43 | success at step n-1 leaves every domain released |
| ClockReset.BadOrderReleasesNothing | solutions/s03_clock_reset.c:30-34 | with a bad order no sequence of calls releases anything |
| ClockReset.ClockDivider.DivN | solutions/s03_clock_reset.c:14-25 | one call in memory, from any divider value, is the divider step used in the runs with its wrapping count; -1 and no change for an odd or small divisor |
| ClockReset.DividesByN | solutions/s03_clock_reset.c:14-25 | for every even n from 2 and any input, count and output are remainder and parity of the quotient of the number of rising edges by n/2 |
| BitOps.PopcountKern | solutions/s01_bitops.c:25-32 | the loop that clears lowest digits counts the set digits |
| BitOps.OnesIsCount | solutions/s01_bitops.c:25-32 | the sum of digits that it returns is the number of positions 0..31 with a set digit |
| BitOps.ClearLowest | solutions/s01_bitops.c:28 | masking with x - 1 removes exactly one set digit |
| BitOps.SwarIsOnes | solutions/s01_bitops.c:34-39 | the parallel count equals the loop count for every word |
| BitScan.Reverse32 | solutions/s01_bitops.c:90-97 | the loop puts digit 31 - i of the word at digit i, for all i |
| BitScan.MirrorTwice | solutions/s01_bitops.c:90-97 | reversing twice gives the word back |
| BitScan.Clz32 | solutions/s01_bitops.c:71-76 | the result counts the zeros above the highest set digit, 32 for zero |
| BitScan.Ctz32 | solutions/s01_bitops.c:78-83 | the result counts the zeros below the lowest set digit, 32 for zero |
| BitScan.ZerosMirrored | solutions/s01_bitops.c:71-97 | the leading zeros of a word are the trailing zeros of its reversal |
| BitScan.TrailingUnique | solutions/s01_bitops.c:78-83 | a word has one trailing zero count, so the two methods agree through a reversal |
| BitScan.FloorIsGreatest | solutions/s01_bitops.c:9-17 | 0 exactly for 0, and otherwise the greatest power of two that is not above x |
| BitScan.CeilIsLeast | solutions/s01_bitops.c:19-23 | the result is 0 if and only if no representable power of two reaches x, and otherwise the least one that does |
| BitScan.Pow2Tests | solutions/s01_bitops.c:5-23 | for every word the mask test, being its own ceiling, and being non-zero and its own floor all hold exactly for powers of two |
| XorSearch.XorUnique | solutions/s01_bitops.c:99-104 | the loop is the XOR of the first n values, 0 for a negative n |
| XorSearch.XorMissing | solutions/s01_bitops.c:106-112 | the two loops are the XOR of 0..n and the first n values, 0 for a negative n |
| XorSearch.OddOneOut | solutions/s01_bitops.c:99-104 | if exactly one value occurs an odd number of times, the XOR is that value |
| XorSearch.MissingIsFound | solutions/s01_bitops.c:106-112 | for n distinct values among 0..n, the XOR is the one number in 0..n that is absent |

## Left out

- NULL-pointer guards are modelled as non-null types; none of them shapes another result.
- `main` functions, printed text and fault strings: output and sample assertions only. The
  flush of the translation buffer, written inline in `main`, is modelled.
- `exercises/`: starter files with the bodies to be filled in.
- `d00_my_memcpy.c`, `d00_my_memmove.c` and `d00_reverse_list.c` copy bytes and reverse a linked
  list, and `d00_struct_sizes.c` and `d00_test_macros.c` show structure sizes and bit macros; they
  are left out.
- `d00_mmio.c`, `d00_bench.c`, `d00_poll.c`, `d00_csr_model.c`, `d00_csr_init.c`, `s05_dev_init.c` and
  `s07_reg_poke.c` set, clear and poll bits of modelled registers; they are left out.
- `s06_cpu_bringup_ladder.c`, `s10_ltssm_walk.c`, `s16_dvfs.c` and `s17_pkgc_blocker_arbiter.c`
  step through small tables of states or limits, and `s16_residency_delta.c` computes percentages
  in floating point; they are left out.
- `s12_sq_doorbell.c` is a single-threaded ring of the kind modelled here; it is left out.
- Thread creation, yielding, alignment and platform branches of the ring: replaced by
  interleaved steps. Progress is proved under the stated fairness of the schedule, not of a scheduler.
- The two indices of the ring in memory are kept as their whole modification orders, because an acquire load may return older entries.
- FsmDetect.SeqDetect: says nothing about inputs on which `end` overflows an int, which C leaves undefined; SkipsFit is exactly their complement.
- Output buffers that alias read-only input buffers are not modelled: inputs are sequences.
- CacheSim.HitIffRecent: covers histories of at most 2^32 accesses because the access clock wraps; LruExactlyUpTo proves that this is the exact bound.
- CacheSim.HitByAddress: the same.
- XorSearch.XorMissing: requires n below the largest int, since the source counts to n inclusive with an int.
- CompareAt, ShiftIn, FindTag, FindVictim, Store, Turn and TickDestination are loops or statements inside one C function, split off to keep each method short. The locals of the transfer are one record, with the words taken in place of their number.
- The inventory of the bus walk is a parameter instead of the fixed array of four functions.
- `iommu_translate`, `clk_mux_step`, `bar_size`, `ffs32`, field access, rotation, byte swap and `combine64`: straight-line code or one branch each.
