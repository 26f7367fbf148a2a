# NTP client exporter: a verified model

The repository runs a public NTP server and an exporter that watches it: capture workers read NTP frames off the
wire, a collector counts them by country, network, version and address family, pairs requests with responses, tracks
active and unique clients, and publishes everything on a timer. A load generator in `scripts/ntp-load` drives the
server. This project models the exporter's capture pipeline and the load generator's protocol in Dafny and proves what
they keep in every run.

Concurrency is modelled as state machines whose steps are the mutex sections, atomic operations and system calls of
the source; a run is any sequence of events. Code that updates state in place is also written in that form, as methods
and classes proved against the functions the machines are made of. SHA-1 and FNV are arbitrary functions, clocks and
I/O outcomes are parameters, and Prometheus counters are plain fields.

| file | component |
|---|---|
| `CollectorMachine.dfy` | workers and flusher as one concurrent machine, and the laws of its runs |
| `Collector.dfy` | `HandleFrame` and `Flush` in imperative form, with the history of calls |
| `Sections.dfy`, `Expiry.dfy` | every frame passes each section once; what sweeps and expiry remove |
| `GaugeBounds.dfy` | the active-clients gauge of a flush that runs beside workers |
| `EarlyResponse.dfy` | a run whose published drops exceed requests minus responses |
| `SweepTrigger.dfy`, `Breakdown.dfy`, `RequestBook.dfy`, `PendingTable.dfy`, `ActiveClients.dfy`, `HourRing.dfy` | its parts |
| `AsnRanking.dfy`, `Tally.dfy`, `MapCounts.dfy` | ranking, pruning and folding of network totals; counter maps as multisets; sizes of sets and maps |
| `HyperLogLog.dfy`, `Bytes.dfy` | the cardinality sketch; bytes, shifts and words |
| `Frame.dfy`, `Bpf.dfy`, `Pairing.dfy` | parser, kernel filter, and the way from bytes to a latency |
| `CaptureSockets.dfy`, `CaptureBackoff.dfy` | socket ownership and the error loop of the capture workers |
| `GeoResolver.dfy` | the cached GeoIP lookup over replaceable databases |
| `LoadLedger.dfy`, `LoadPacing.dfy` | the load generator's ledger and its deadlines |

Where the code does not do what one might expect, the model follows the code, gives an input that shows it and states
exactly when the expectation holds:

- the comment at `exporter/internal/aggregate/asn.go:37-39` says that pruning cannot change the top-n set; with ties
  across the cut it can (`AsnRanking.TieLosesTop`, `AsnRanking.PruneKeepsTopExactly`);
- after a day without a request or flush the hourly ring may keep old clients, and a clock stepping back loses recent
  ones (`HourRing.DayOldClientSurvives`, `HourRing.BackwardClockLoses`); `HourRing.MergedIsKept` says what is merged in
  every case, `HourRing.TurnIsExact` when a forward jump is right, `HourRing.StepBackIsExact` when a step back loses
  nobody;
- with two or more workers the sweep counter has no fixed bound, only a witness (`SweepTrigger.CounterUnbounded`,
  `SweepTrigger.BoundedExactly`, `CollectorMachine.SweepTriggerLaw`);
- published drops exceed requests minus responses as soon as one window has more responses than requests
  (`EarlyResponse.EarlyResponseAddsDrop`, `CollectorMachine.DropsOfRun`);
- a reply to a failed write makes the load generator count more received than sent
  (`LoadLedger.EarlyReplyExceedsSent`, `LoadLedger.SentIsReceivedPlusPending`);
- a GeoIP answer added to the cache after a purge may be stale (`GeoResolver.LateAddIsStale`,
  `GeoResolver.TransparentExactly`), and a replaced database that keeps its modification time is not noticed
  (`GeoResolver.SameTimeIsMissed`, `GeoResolver.ReadersFollowFiles`);
- the kernel filter drops VLAN-tagged frames that the parser understands (`Bpf.TaggedFramesAreFiltered`,
  `Bpf.FilterAccepts`).

## Model

| member | source | states |
|---|---|---|
| `CollectorMachine.SweepTriggerLaw` | exporter/internal/aggregate/aggregate.go:173-190 | in every interleaving of any number of workers with the flusher: frames = counter + the values reset; a counter of 1024 or more has a worker between its add and its swap holding exactly that value; each reset is one sweep, finished or under way; with all workers idle the counter is below 1024, 1024 · sweeps ≤ frames and every frame has been counted once |
| `CollectorMachine.CountsConserved` | exporter/internal/aggregate/aggregate.go:200-298 | in every interleaving, for each breakdown key by key: published (for ASNs, the keys behind the published labels) + held by the flush + still in worker maps = counted by the workers, and the whole breakdown invariant holds |
| `CollectorMachine.PublishedTotalsAgree` | exporter/internal/aggregate/aggregate.go:275-343 | after a flush with empty worker maps the country counter is exactly what was requested and the four published totals are equal |
| `CollectorMachine.LabelsOfRun` | exporter/internal/aggregate/aggregate.go:333-336 | in every interleaving: an ASN's label under an organisation counts at most that ASN's published requests, these at most its counted ones, and the unknown label counts exactly the published requests without an ASN |
| `CollectorMachine.DropsOfRun` | exporter/internal/aggregate/aggregate.go:313-319 | in every interleaving and for every country: requests − responses ≤ drops ≤ requests over the windows flushed so far, with equality on the left if and only if no window had more responses than requests |
| `EarlyResponse.EarlyResponseAddsDrop` | exporter/internal/aggregate/aggregate.go:313-319 | a run (a response, a flush, a request, a flush) that publishes one request, one response and one drop |
| `CollectorMachine.PairingLedger` | exporter/internal/aggregate/aggregate.go:179-253 | in every interleaving: requests with a transaction id = overflowed + overwritten + matched + swept + entries in the shards; no shard exceeds 50000; the observations are, one for one and by value, the latencies of the requests matched by a response that was not earlier, and none is negative |
| `CollectorMachine.FatesAreFinal` | exporter/internal/aggregate/aggregate.go:224-253 | nothing that follows in any run revises what became of a request, so none yields a second observation |
| `CollectorMachine.OverflowsWhenFull` | exporter/internal/aggregate/aggregate.go:227-231 | in every run an event counts an overflow if and only if it is the pairing section of a request whose key is absent from its shard while that holds 50000 entries |
| `Expiry.SweepLeavesNoneOlder` | exporter/internal/aggregate/aggregate.go:179-190 | in every interleaving, when a worker's sweep ends no request that had come when it began and is older than two seconds before its frame is pending in any of the 16 shards |
| `Expiry.FlushLeavesNoneOlder` | exporter/internal/aggregate/aggregate.go:363-372 | the same of a flush's expiry, with two seconds before its reading of the wall clock |
| `Expiry.OnlyOldOrAnsweredLeave` | exporter/internal/aggregate/aggregate.go:179-253 | an entry leaves only with its response, or in a sweep or expiry for which it is older than two seconds |
| `Expiry.SweepsBegin` | exporter/internal/aggregate/aggregate.go:177-181 | a won swap begins a sweep at the first shard; the last eviction of a flush begins its expiry |
| `Sections.CountersCountFrames` | exporter/internal/aggregate/aggregate.go:195-210 | in every interleaving each counter of each breakdown is the number of frames counted with that country and continent, that network, that version (a missing one as other) or that family, responses apart |
| `Sections.PublishedCountsFrames` | exporter/internal/aggregate/aggregate.go:275-343 | so after a flush with empty worker maps every published counter is the number of frames of its kind |
| `Sections.RequestsPassThrough` | exporter/internal/aggregate/aggregate.go:199-222 | in every interleaving and for every client: requests counted = requests entered among the active clients + workers before that section, and = requests recorded in the hourly ring + workers before that one |
| `Sections.RequestsComeToPairing` | exporter/internal/aggregate/aggregate.go:224-233 | requests counted with a transaction id = requests that came to the pairing table + workers on the way there |
| `CollectorMachine.ShardsRefineOneTable` | exporter/internal/aggregate/aggregate.go:83-97 | while no request was refused, the 16 string-keyed shards hold exactly the entries of one table keyed by (address, transaction id), each in its client's shard only, and the latencies observed are that table's, for every assignment of frames to workers |
| `CollectorMachine.UniqueClientsKept` | exporter/internal/aggregate/aggregate.go:378-390 | in every interleaving and whatever the wall clock does, the sketch a flush merges is that of the clients whose hour's slot no later hourly section passed |
| `CollectorMachine.UniqueClientsWindow` | exporter/internal/aggregate/aggregate.go:378-390 | when the hourly sections read a clock that never runs back and never rests for 24 hours, these are exactly the clients of the current UTC hour and the 23 before it |
| `CollectorMachine.RunThreads` | exporter/internal/aggregate/aggregate.go:170-190 | a worker holds an add's value exactly between add and swap; resets and frames tally with the workers' positions |
| `CollectorMachine.RunPending` | exporter/internal/aggregate/aggregate.go:179-253 | every interleaving keeps the pairing table's invariant: placement, cap, book, refinement |
| `CollectorMachine.RunRing` | exporter/internal/aggregate/aggregate.go:148-165 | the ring of a concurrent run is the ring of its sequence of sections under the hourly mutex |
| `CollectorMachine.HourOfWall` | exporter/internal/aggregate/aggregate.go:148-149 | the absolute hour of a wall-clock reading in nanoseconds |
| `SweepTrigger.AddKeeps` | exporter/internal/aggregate/aggregate.go:173-173 | the atomic add keeps frames = counter + resets and leaves a witness at or above the threshold |
| `SweepTrigger.SwapKeeps` | exporter/internal/aggregate/aggregate.go:177-177 | the compare-and-swap, won or lost, keeps both |
| `SweepTrigger.QuiescentBound` | exporter/internal/aggregate/aggregate.go:173-177 | with no worker between add and swap the counter is below 1024 and 1024 · resets ≤ frames |
| `SweepTrigger.NoFixedBound` | exporter/internal/aggregate/aggregate.go:173-177 | two workers overtaking each other raise the counter by any amount without a reset |
| `SweepTrigger.CounterUnbounded` | exporter/internal/aggregate/aggregate.go:173-177 | so with two or more workers schedules from the start exceed every bound |
| `SweepTrigger.BoundedExactly` | exporter/internal/aggregate/aggregate.go:173-177 | a bound on the counter over all schedules exists if and only if there is at most one worker; with one it is 1024 and no less |
| `Breakdown.CountKeeps` | exporter/internal/aggregate/aggregate.go:200-210 | a worker's section keeps conservation, equal totals and the books of the drops, however far the flush is |
| `Breakdown.TakeKeeps` | exporter/internal/aggregate/aggregate.go:275-298 | the flush's snapshot and reset of one worker loses and doubles nothing |
| `Breakdown.PublishCountriesKeeps` | exporter/internal/aggregate/aggregate.go:313-319 | publishing requests and drops keeps conservation, and per country the published requests and drops are what the windows add up to |
| `Breakdown.PublishAsnsKeeps` | exporter/internal/aggregate/aggregate.go:333-336 | publishing folded ASN labels keeps conservation, the label total and the bounds of each label, whatever the top set |
| `Breakdown.PublishVersionsKeeps` | exporter/internal/aggregate/aggregate.go:338-340 | publishing versions keeps conservation |
| `Breakdown.PublishFamiliesKeeps` | exporter/internal/aggregate/aggregate.go:341-343 | publishing families keeps conservation and leaves the flush empty-handed |
| `Breakdown.AdvanceKeeps` | exporter/internal/aggregate/aggregate.go:275-343 | so does every step of the counter half of a flush, in order |
| `Breakdown.QuiescentTotals` | exporter/internal/aggregate/aggregate.go:275-343 | at rest with empty worker maps everything counted is published, and the four totals agree |
| `Breakdown.Fold` | exporter/internal/aggregate/aggregate.go:333-336 | folding ASN keys to labels keeps their number |
| `Breakdown.FoldOfNumber` | exporter/internal/aggregate/asn.go:63-71 | in one window an ASN's label counts exactly that ASN's requests under that organisation if it is ranked, else none |
| `Breakdown.FoldOfUnknown` | exporter/internal/aggregate/asn.go:63-71 | and the unknown label exactly the requests without an ASN |
| `Breakdown.FoldOfOther` | exporter/internal/aggregate/asn.go:63-71 | and the other label exactly the requests of networks that are not ranked |
| `Breakdown.DropsOverWindows` | exporter/internal/aggregate/aggregate.go:313-319 | over any windows of one country max(0, ΣR − ΣS) ≤ drops ≤ ΣR, with drops = ΣR − ΣS if and only if no window has more responses than requests |
| `Breakdown.DropsExact` | exporter/internal/aggregate/aggregate.go:313-319 | the same of what is published for a country in any state whose books are in order |
| `Breakdown.SplittingRaisesDrops` | exporter/internal/aggregate/aggregate.go:313-319 | splitting a window never lowers the published drops |
| `PendingTable.PendingKeySplits` | exporter/internal/aggregate/aggregate.go:95-97 | address and transaction id can be read back from a key when the address has no bar, whatever bytes the id has |
| `PendingTable.PendingKeyInjective` | exporter/internal/aggregate/aggregate.go:95-97 | keys are equal if and only if both parts are |
| `PendingTable.BarsCollide` | exporter/internal/aggregate/aggregate.go:95-97 | with a bar in the address two different pairs share a key |
| `PendingTable.StoreExactly` | exporter/internal/aggregate/aggregate.go:225-231 | with the key present or fewer than 50000 entries the client's shard gets the entry with its time, else the shards stay and the request counts as overflowed; no other shard changes |
| `PendingTable.MatchExactly` | exporter/internal/aggregate/aggregate.go:240-245 | exactly the response's entry leaves the client's shard |
| `PendingTable.SweepExactly` | exporter/internal/aggregate/aggregate.go:183-187 | exactly the entries before the cutoff leave the one shard |
| `PendingTable.StoreKeeps` | exporter/internal/aggregate/aggregate.go:224-233 | storing, overwriting or refusing a request keeps placement, cap, book and refinement, and no earlier fate changes |
| `PendingTable.MatchKeeps` | exporter/internal/aggregate/aggregate.go:239-253 | matching a response, or missing, keeps them |
| `PendingTable.SweepKeeps` | exporter/internal/aggregate/aggregate.go:181-189 | sweeping one shard keeps them |
| `RequestBook.RefuseKeeps` | exporter/internal/aggregate/aggregate.go:227-228 | a refused request gets its one fate; the ledger stays balanced |
| `RequestBook.OwnKeeps` | exporter/internal/aggregate/aggregate.go:229-231 | a stored request becomes the owner of its key and a former owner is overwritten; the ledger stays balanced |
| `RequestBook.PairKeeps` | exporter/internal/aggregate/aggregate.go:242-252 | a match closes one request with at most one observation, its own latency, never negative |
| `RequestBook.DropKeeps` | exporter/internal/aggregate/aggregate.go:183-187 | a sweep closes exactly the requests of the removed entries |
| `RequestBook.OthersDoNotOverflow` | exporter/internal/aggregate/aggregate.go:224-233 | only a refusal adds to the requests counted as overflowed |
| `RequestBook.CountsByFate` | exporter/internal/aggregate/aggregate.go:179-253 | requests = overflowed + overwritten + matched + swept + pending |
| `ActiveClients.RunTracks` | exporter/internal/aggregate/aggregate.go:212-218 | after every history of calls under a non-decreasing clock each entry comes from a request, in its own shard, and every client with a request in the last 300 s has an entry at least as late |
| `ActiveClients.ActiveGauge` | exporter/internal/aggregate/aggregate.go:345-358 | the gauge a flush at time T sets = the number of distinct clients in the whole history with a request at or after T − 300 s |
| `GaugeBounds.RunTracked` | exporter/internal/aggregate/aggregate.go:212-218 | in every interleaving with clock readings that never run back: entries come from requests, requests not older than any flush's cutoff have their entry, and the entries a flush has counted so far lie between its shards' clients recent when it began and those recent now |
| `GaugeBounds.GaugeOfRun` | exporter/internal/aggregate/aggregate.go:345-358 | so the gauge a flush sets while workers go on lies between the clients recent when it read the clock and those recent, by the same cutoff, when it leaves the last shard |
| `HourRing.HourIs` | exporter/internal/aggregate/aggregate.go:149-149 | an absolute hour is 3600 seconds, and the hour of day counts from UTC midnight |
| `HourRing.KeptAtSnoc` | exporter/internal/aggregate/aggregate.go:148-165 | one more visit leaves in a slot nothing old if the turn passes it, and the visit's own key |
| `HourRing.EnterHolds` | exporter/internal/aggregate/aggregate.go:148-165 | entering the ring keeps every slot the sketch of the keys entered there and not passed since |
| `HourRing.RunHolds` | exporter/internal/aggregate/aggregate.go:148-165 | so it is after every sequence of visits, the clock going forward or back by any amount |
| `HourRing.MergedIsKept` | exporter/internal/aggregate/aggregate.go:378-389 | what is merged after any visits is the sketch of the keys whose slot no later visit passed |
| `HourRing.SurvivesExactly` | exporter/internal/aggregate/aggregate.go:148-165 | after a steady run a visit's slot was not passed if and only if it is less than 24 absolute hours old |
| `HourRing.ArcIsRecent` | exporter/internal/aggregate/aggregate.go:154-161 | an hour of the last day leaves the window exactly when the clearing loop passes its slot |
| `HourRing.MergeAllRepresents` | exporter/internal/aggregate/aggregate.go:386-389 | merging slots gives the sketch of the union of their sets |
| `HourRing.SlidingWindow` | exporter/internal/aggregate/aggregate.go:378-390 | what is merged after any steady run is the sketch of exactly the last 24 absolute hours' clients |
| `HourRing.TurnIsExact` | exporter/internal/aggregate/aggregate.go:148-165 | for any forward jump of the clock after a steady run the merged sketch is right if and only if the jump is under 24 hours or no request of the last day is in a slot outside the cleared arc |
| `HourRing.KeptAfterJump` | exporter/internal/aggregate/aggregate.go:148-165 | after any jump of the clock, forward or back, following a steady run, the ring holds exactly the clients of the hours after the cut, which for a step back of less than a day is the hour stepped back to |
| `HourRing.StepBackIsExact` | exporter/internal/aggregate/aggregate.go:148-165 | a step back loses no client of the window it returns to if and only if each of them also made a request after the cut |
| `HourRing.DayOldClientSurvives` | exporter/internal/aggregate/aggregate.go:153-153 | a client silent for exactly a day is still in the merged sketch |
| `HourRing.BackwardClockLoses` | exporter/internal/aggregate/aggregate.go:153-161 | a clock stepping back one hour loses a client seen an hour before |
| `HourRing.HourlySketches.constructor` | exporter/internal/aggregate/aggregate.go:142-144 | 24 separate empty sketches |
| `HourRing.HourlySketches.ClearTo` | exporter/internal/aggregate/aggregate.go:154-161 | the clearing loop ends and empties exactly the slots after the old hour up to the new one |
| `HourRing.HourlySketches.CurrentBucket` | exporter/internal/aggregate/aggregate.go:148-165 | gives the slot of the hour and turns the ring, sketches never shared between slots |
| `HourRing.HourlySketches.RecordKey` | exporter/internal/aggregate/aggregate.go:220-222 | the hourly section of a request, on the arrays |
| `HourRing.HourlySketches.Merged` | exporter/internal/aggregate/aggregate.go:378-389 | the hourly section of a flush: turns the ring, merges clones, leaves every slot's registers as they were |
| `HourRing.HourlySketches.MergeSlots` | exporter/internal/aggregate/aggregate.go:380-389 | the fresh merged sketch holds the register-wise maximum of all slots |
| `HyperLogLog.Index` | exporter/internal/hll/hll.go:55-55 | the selected register is below m = 2^p |
| `HyperLogLog.IndexIs` | exporter/internal/hll/hll.go:55-55 | register i is selected exactly by the words from i · 2^(64 − p) up to the next multiple: the top p bits |
| `HyperLogLog.WordIs` | exporter/internal/hll/hll.go:50-54 | the word byte by byte, the first byte of the digest weighing most |
| `Bytes.ShiftSplits` | exporter/internal/hll/hll.go:55-56 | the shifted index and the masked bits together are the word |
| `HyperLogLog.Rank` | exporter/internal/hll/hll.go:56-64 | the rank lies in 1..65 − p and is pinned down by the powers of two around the low bits |
| `HyperLogLog.SketchIsUnique` | exporter/internal/hll/hll.go:49-68 | a set of keys has exactly one register vector |
| `HyperLogLog.RegisterBound` | exporter/internal/hll/hll.go:65-66 | registers never exceed 65 − p; the byte cast and the 64-bit shift lose nothing |
| `HyperLogLog.ZeroRepresents` | exporter/internal/hll/hll.go:28-40 | the new sketch stands for the empty set and for no other |
| `HyperLogLog.AddRepresents` | exporter/internal/hll/hll.go:49-68 | Add turns the sketch of s into that of s ∪ {key} |
| `HyperLogLog.JoinRepresents` | exporter/internal/hll/hll.go:72-81 | Merge turns the sketches of s and t into that of s ∪ t |
| `HyperLogLog.AddOrderIrrelevant` | exporter/internal/hll/hll.go:49-68 | registers depend only on the set of keys added, not on order or repetition |
| `HyperLogLog.MergeIsSketchOfUnion` | exporter/internal/hll/hll.go:72-81 | merging two sketches equals one sketch fed both streams |
| `HyperLogLog.HarmonicAntitone` | exporter/internal/hll/hll.go:85-92 | raising registers never raises the harmonic sum or the number of empty registers |
| `HyperLogLog.UpdatesOnlyRaise` | exporter/internal/hll/hll.go:49-81 | Add and Merge only raise registers; the sum stays positive and never grows |
| `HyperLogLog.ZeroCountIs` | exporter/internal/hll/hll.go:89-91 | the empty registers are counted one by one |
| `HyperLogLog.HarmonicSumOfZeros` | exporter/internal/hll/hll.go:87-88 | of empty registers the sum is their number |
| `HyperLogLog.HarmonicSumUpdate` | exporter/internal/hll/hll.go:87-88 | changing one register changes the sum by just its 2^−r |
| `HyperLogLog.RawEstimateIs` | exporter/internal/hll/hll.go:94-94 | the raw estimate e satisfies e · (1 + 1.079/m) · h = 0.7213 · m² |
| `HyperLogLog.LinearCountIs` | exporter/internal/hll/hll.go:96-96 | the linear count is m · ln(m / z) |
| `HyperLogLog.SparseEstimate` | exporter/internal/hll/hll.go:95-97 | the estimate is the linear count when the raw one is at most 2.5 m and some register is empty |
| `HyperLogLog.DenseEstimate` | exporter/internal/hll/hll.go:98-98 | and else the raw one |
| `HyperLogLog.EmptyEstimatesNone` | exporter/internal/hll/hll.go:84-99 | a sketch of nobody estimates 0 |
| `HyperLogLog.FirstWord` | exporter/internal/hll/hll.go:50-54 | the loop computes the big-endian value of the first eight digest bytes |
| `HyperLogLog.Locate` | exporter/internal/hll/hll.go:55-64 | index and rank as characterised above |
| `HyperLogLog.Sketch.constructor` | exporter/internal/hll/hll.go:28-40 | 2^p zero registers |
| `HyperLogLog.Sketch.Add` | exporter/internal/hll/hll.go:49-68 | raises one register to the key's rank, in place, nothing else |
| `HyperLogLog.Sketch.Raise` | exporter/internal/hll/hll.go:65-67 | one register becomes the maximum of its value and the rank, all others stay |
| `HyperLogLog.Sketch.Merge` | exporter/internal/hll/hll.go:72-81 | in place, the register-wise maximum, also when merged with itself |
| `HyperLogLog.Sketch.Clone` | exporter/internal/hll/hll.go:103-113 | an independent copy with the same registers |
| `HyperLogLog.Sketch.Scan` | exporter/internal/hll/hll.go:85-92 | the harmonic sum and the number of empty registers; no shift overflows |
| `HyperLogLog.Sketch.Count` | exporter/internal/hll/hll.go:84-99 | the raw estimate, or the linear count for a small one with empty registers; the divisor is never zero |
| `AsnRanking.DecimalInjective` | exporter/internal/aggregate/asn.go:25-25 | different AS numbers have different decimal texts, so the tie-break decides |
| `AsnRanking.DecimalDenotes` | exporter/internal/aggregate/asn.go:25-25 | the text denotes the number, a minus sign before a negative one |
| `AsnRanking.LexLessIs` | exporter/internal/aggregate/asn.go:25-25 | texts are ordered by their first difference, a text before its continuations |
| `AsnRanking.LexTotal` | exporter/internal/aggregate/asn.go:25-25 | byte order of texts is total and asymmetric |
| `AsnRanking.LexTransitive` | exporter/internal/aggregate/asn.go:25-25 | and transitive |
| `AsnRanking.SortSlice` | exporter/internal/aggregate/asn.go:21-26 | a sorted permutation, ties in any order |
| `AsnRanking.TopNASNs` | exporter/internal/aggregate/asn.go:12-35 | min(n, size) ASNs, none for negative n, each beating every other under (total descending, decimal text ascending) |
| `AsnRanking.TopUnique` | exporter/internal/aggregate/asn.go:8-35 | there is only one such set, so map order and sort stability cannot matter |
| `AsnRanking.PruneToLargest` | exporter/internal/aggregate/asn.go:40-58 | min(max, size) entries unchanged, none smaller than a dropped one |
| `AsnRanking.PruneKeepsLargestTotals` | exporter/internal/aggregate/asn.go:37-58 | for n ≤ max the n largest totals are the same before and after, however ties are cut |
| `AsnRanking.PruneKeepsTopExactly` | exporter/internal/aggregate/asn.go:37-58 | every tie resolution keeps the top-n set if and only if at most max ASNs reach the total of its weakest member |
| `AsnRanking.TopCanBeLost` | exporter/internal/aggregate/asn.go:37-58 | otherwise some resolution drops a member of the top n |
| `AsnRanking.TieLosesTop` | exporter/internal/aggregate/asn.go:37-58 | an instance: two ASNs with one request each, pruned to one |
| `AsnRanking.LabelsKeepApart` | exporter/internal/aggregate/asn.go:63-71 | a ranked ASN's label differs from every other ASN's and from both shared buckets |
| `Tally.AddCounts` | exporter/internal/aggregate/aggregate.go:277-291 | adding one counter map into another, in any iteration order, adds the multisets |
| `Tally.AddRenamed` | exporter/internal/aggregate/aggregate.go:322-335 | the same under a renaming of keys that may drop some |
| `Tally.ImageOne` | exporter/internal/aggregate/aggregate.go:333-336 | folding does not depend on the order in which keys are met |
| `Collector.CountFrame` | exporter/internal/aggregate/aggregate.go:195-210 | key by key: a request counts once under its country and continent, its network, its version (a missing one as other) and its family, nothing else changes; a response once under country and continent |
| `Collector.Snapshot` | exporter/internal/aggregate/aggregate.go:269-298 | the snapshot holds the sum of all workers' maps |
| `Collector.SweepTable` | exporter/internal/aggregate/aggregate.go:183-187 | removes exactly the entries before the cutoff, in any iteration order |
| `Collector.SweepShards` | exporter/internal/aggregate/aggregate.go:345-357 | the same for all shards, with the number of entries left |
| `Collector.AddDrops` | exporter/internal/aggregate/aggregate.go:313-319 | per country, adds requests minus responses where positive |
| `Collector.PairFrame` | exporter/internal/aggregate/aggregate.go:224-253 | stores, refuses, matches or misses; tells when a request was refused; observes only latencies that are not negative |
| `Collector.PairedIs` | exporter/internal/aggregate/aggregate.go:224-246 | a request with room for its key puts its time there, one without changes nothing and is refused, a response takes its entry out, a frame without transaction id does nothing |
| `Collector.SweepAndPair` | exporter/internal/aggregate/aggregate.go:179-253 | the incremental sweep, if won, comes before the pairing |
| `Collector.UpdateTotals` | exporter/internal/aggregate/aggregate.go:321-329 | the totals grow, ASN by ASN, by the known ASNs' requests and are pruned to 4096 only when above it |
| `Collector.GrownIsDetermined` | exporter/internal/aggregate/aggregate.go:321-326 | what a window makes of the totals is one map: the ASNs there before and the known ones of the window, each grown by its own requests |
| `Collector.TotalsAreCapped` | exporter/internal/aggregate/aggregate.go:327-329 | the new totals are the grown ones, or 4096 of the largest if there are more |
| `Collector.TotalsAreDetermined` | exporter/internal/aggregate/aggregate.go:321-329 | so below the cap the new totals are determined |
| `Collector.Publish` | exporter/internal/aggregate/aggregate.go:313-343 | every counter grows by the window, key by key; labels follow the ranking of the updated totals |
| `Collector.FlushCounters` | exporter/internal/aggregate/aggregate.go:268-343 | snapshot, reset and publication together |
| `Collector.FlushTables` | exporter/internal/aggregate/aggregate.go:345-372 | eviction and expiry with their own clocks and cutoffs; the gauge is what is left |
| `Collector.FlushLeaves` | exporter/internal/aggregate/aggregate.go:345-372 | after a flush the tables hold exactly the clients seen in the last 300 s and the requests of the last 2 s |
| `Collector.SweptIs` | exporter/internal/aggregate/aggregate.go:177-190 | a frame first sweeps what is older than 2 s before it, on every 1024th frame only |
| `Collector.FrameTicks` | exporter/internal/aggregate/aggregate.go:173-177 | in calls that follow one another a frame sweeps if and only if it is the 1024th, 2048th and so on |
| `Collector.TableLaws` | exporter/internal/aggregate/aggregate.go:179-253 | every history of calls leaves the pairing table with its whole invariant |
| `Collector.FrameFollowsTable` | exporter/internal/aggregate/aggregate.go:179-253 | the shards, latencies and refusals HandleFrame computes are those of the table its history makes, so the table's laws are the collector's |
| `Collector.FlushFollowsTable` | exporter/internal/aggregate/aggregate.go:363-372 | the same for Flush |
| `Collector.PlacementIsIrrelevant` | exporter/internal/aggregate/aggregate.go:89-93 | whole calls leave the same pairs pending for every assignment of clients to shards, and without refusals observe the same latencies |
| `Collector.FieldsObeyLedger` | exporter/internal/aggregate/aggregate.go:224-253 | requests with a transaction id = the overflow count + overwritten + matched + swept + entries in the shards; the latencies are those of the matched ones |
| `Collector.Collector.constructor` | exporter/internal/aggregate/aggregate.go:122-146 | no call yet: empty tables, ring, counters and gauges, at least one worker; the ring and its sketches are its own |
| `Collector.Collector.HandleFrame` | exporter/internal/aggregate/aggregate.go:170-255 | one call's whole new state: its worker's maps, the trigger, the shards, the latencies, the overflow count, the active table and the ring, which stay those that the history of calls makes; everything else unchanged |
| `Collector.Collector.Flush` | exporter/internal/aggregate/aggregate.go:267-391 | one call's whole new state: published counters, emptied workers, evicted and expired tables, the turned ring; the active gauge is the number of clients of the last 300 s under a non-decreasing clock, and the estimate is of the sketch of the clients whose slot was not passed, under a steady clock those of the last 24 hours |
| `Collector.Collector.FrameOnRing` | exporter/internal/aggregate/aggregate.go:220-222 | a request, and only a request, visits the ring |
| `Collector.Collector.UniqueClients` | exporter/internal/aggregate/aggregate.go:374-390 | the estimate of the merged ring and what its sketch stands for |
| `Frame.ParseRecovers` | exporter/internal/ntpframe/frame.go:46-131 | every well-formed UDP packet (IPv4 with header length 5..15 or IPv6, with or without one VLAN tag) parses to its addresses, family, direction, version and transaction id; one with neither port 123 is refused |
| `Frame.ParsedFields` | exporter/internal/ntpframe/frame.go:103-130 | field by field: a request if and only if the destination port is 123; the client is the source of a request and the destination of a response; id and version exist if and only if the payload has 48 bytes, the id from bytes 40..48 or 24..32, the version 1..4 as its digit, else other |
| `Frame.LinkRecovered` | exporter/internal/ntpframe/frame.go:47-59 | the cursor stands after the link header, tagged or not |
| `Frame.Ipv4Recovered` | exporter/internal/ntpframe/frame.go:65-79 | addresses are recovered and options skipped for every header length |
| `Frame.Ipv6Recovered` | exporter/internal/ntpframe/frame.go:80-90 | the same for the fixed IPv6 header |
| `Frame.UdpRecovered` | exporter/internal/ntpframe/frame.go:95-128 | ports and payload are recovered |
| `Bpf.FilterAccepts` | exporter/internal/ntpframe/frame.go:149-175 | on every byte string the program halts and returns 0xFFFF exactly for untagged first-fragment IPv4 or IPv6 UDP frames with a readable port 123, else 0 |
| `Bpf.FilterAgreesWithParser` | exporter/internal/ntpframe/frame.go:46-175 | on untagged frames: parsed with fragment offset 0 if and only if accepted with a full UDP header and IHL ≥ 5 |
| `Bpf.TaggedFramesAreFiltered` | exporter/internal/ntpframe/frame.go:53-59 | tagged NTP frames never pass the filter although they parse |
| `Bpf.AndMask` | exporter/internal/ntpframe/frame.go:158-158 | the mask test is the test of the low 13 bits |
| `Pairing.ProcessedAs` | exporter/internal/capture/filter.go:24-49 | every well-formed packet: a parse error without port 123; else ignored unless this host has the destination of a request or the source of a response; else handed on with client, family text, version, id and time |
| `Pairing.ExchangeIsAccepted` | exporter/internal/capture/filter.go:24-49 | request and echoing reply are accepted under one client and transaction id; the reply is a response if and only if the client's port is not 123 |
| `Pairing.ExchangeIsObserved` | exporter/internal/capture/filter.go:35-49 | end to end from bytes: one entry, taken out by the reply, and exactly one observation, the time between the two, whatever harmless steps come between |
| `Pairing.SectionsObserve` | exporter/internal/aggregate/aggregate.go:224-253 | in any run: a request's pairing section, later a response's on any worker, nothing in between that touches the entry: exactly one observation, the time between the two |
| `Pairing.ExchangeIsObservedInRun` | exporter/internal/capture/filter.go:35-49 | the same from the captured bytes of an exchange |
| `LoadLedger.CookieIsOr` | scripts/ntp-load/main.go:138-138 | the 64-bit shift and the bitwise or build the cookie, the low 16 bits of the worker above the counter, below 2^48 sends |
| `LoadLedger.CookiesDiffer` | scripts/ntp-load/main.go:254-254 | two cookies are equal if and only if counter and low 16 bits of the worker are, so never below 65536 workers |
| `LoadLedger.CookieComesBack` | scripts/ntp-load/main.go:40-51 | a reply echoing Transmit into Origin yields the very cookie |
| `LoadLedger.NtpPacket` | scripts/ntp-load/main.go:46-51 | 48 bytes of mode 3 and version 4, zero up to the Transmit field, which denotes the cookie |
| `LoadLedger.StepKeeps` | scripts/ntp-load/main.go:132-189 | every step of either thread keeps each worker's balance, the freshness of cookies and the count of replies |
| `LoadLedger.RunInv` | scripts/ntp-load/main.go:132-189 | so does every interleaving of all senders and receivers |
| `LoadLedger.StrangersCountZero` | scripts/ntp-load/main.go:175-183 | a reply whose cookie is not pending changes nothing |
| `LoadLedger.RepliesCountOnce` | scripts/ntp-load/main.go:174-189 | a cookie taken by a reply is never pending again, so no cookie counts twice in any run |
| `LoadLedger.RoundTripIs` | scripts/ntp-load/main.go:140-184 | in any run a cookie registered at t0 and taken by a reply at t1 gives the round trip t1 − t0, whatever happened in between |
| `LoadLedger.RoundTripIsRecorded` | scripts/ntp-load/main.go:184-188 | the receiver then counts the reply and appends just this round trip |
| `LoadLedger.LedgerCloses` | scripts/ntp-load/main.go:278-308 | at quiescence sent + answered failed writes = received + pending, received = round trips, and received ≤ sent if and only if no more failed writes were answered than cookies are pending |
| `LoadLedger.SentIsReceivedPlusPending` | scripts/ntp-load/main.go:144-152 | sent = received + pending if and only if no failed write was answered; replies that overtake a successful write do no harm |
| `LoadLedger.EarlyReplyExceedsSent` | scripts/ntp-load/main.go:144-152 | a failed write that is answered makes received exceed sent |
| `LoadLedger.Totals` | scripts/ntp-load/main.go:278-283 | the sums over all workers |
| `LoadLedger.LossPercent` | scripts/ntp-load/main.go:305-308 | with 64-bit wrap-around, the loss is in 0..100 if and only if received ≤ sent |
| `LoadPacing.DeadlineIs` | scripts/ntp-load/main.go:114-114 | the first send is due at the start and each next one an interval later |
| `LoadPacing.DueIsExact` | scripts/ntp-load/main.go:125-126 | the batch counts exactly the sends whose deadline has passed |
| `LoadPacing.DueShrinks` | scripts/ntp-load/main.go:125-126 | after i sends i fewer are due |
| `LoadPacing.PassCatchesUp` | scripts/ntp-load/main.go:123-130 | below the sleep floor a pass with at most 64 due leaves none due; a larger backlog shrinks by exactly 64 |
| `LoadPacing.OneAtATime` | scripts/ntp-load/main.go:123-124 | from an interval of 200 microseconds on a pass makes one send |
| `LoadPacing.BacklogAfterPass` | scripts/ntp-load/main.go:123-154 | in the loop, a whole pass below that leaves nothing due, or 64 fewer than before |
| `LoadPacing.SendBatch` | scripts/ntp-load/main.go:132-154 | each burst makes exactly its batch unless stopped, none early |
| `LoadPacing.SendLoop` | scripts/ntp-load/main.go:105-156 | under any non-decreasing clock: no attempt n before start + n · interval; every reading is a pass or one attempt; a pass before the next deadline sends nothing, any other makes its whole batch, or as much as there are readings left |
| `LoadPacing.RateNeverExceeded` | scripts/ntp-load/main.go:99-104 | attempts by time T ≤ floor((T − start) / interval) + 1 |
| `CaptureBackoff.BackoffDoubles` | exporter/internal/capture/manager.go:203-206 | doubling with a cap is min(1 s, 10 ms · 2^errs) |
| `CaptureBackoff.OnError` | exporter/internal/capture/manager.go:179-207 | reopen on the 32nd error, else wait the backoff and double it |
| `CaptureBackoff.RunWorker` | exporter/internal/capture/manager.go:162-211 | for every sequence of reads, at the loop head backoff = min(1 s, 10 ms · 2^errs) with errs = the streak modulo 32; timeouts change nothing; a reopen is attempted exactly on each 32nd error since the last success or attempt; the pauses taken |
| `CaptureBackoff.StreakIs` | exporter/internal/capture/manager.go:179-211 | the streak is the number of errors after the last success, timeouts ignored |
| `CaptureBackoff.BackoffTable` | exporter/internal/capture/manager.go:201-206 | the pauses of a burst: 10, 20, 40, 80, 160, 320, 640 ms, then a second each |
| `CaptureBackoff.ReopensAre` | exporter/internal/capture/manager.go:186-195 | a reopen is attempted at the 32nd error of a streak, the 64th and so on |
| `CaptureBackoff.PausesAre` | exporter/internal/capture/manager.go:198-207 | only an error that asks for no reopen is followed by a pause, of 10 ms doubled once per error before it, at most a second |
| `CaptureSockets.RunInv` | exporter/internal/capture/manager.go:135-235 | in every interleaving of reopens with KernelDrops each opened socket is in exactly one slot, one worker's hands or closed, and what was read are the slots as they are |
| `CaptureSockets.SocketsAreSafe` | exporter/internal/capture/manager.go:135-196 | no socket is closed twice, no slot shares one, no slot holds a closed one, and a worker at its loop head uses the socket in its slot |
| `CaptureSockets.ReaderSeesOpenSockets` | exporter/internal/capture/manager.go:135-148 | what KernelDrops reads while it holds the mutex is one state of the slots, all different, none closed, whatever workers open and close meanwhile |
| `CaptureSockets.CloseLeaksNothing` | exporter/internal/capture/manager.go:126-133 | closing the slots once the workers stopped closes every socket ever opened exactly once |
| `CaptureSockets.NewSocket` | exporter/internal/capture/manager.go:104-124 | whatever is in slots and in transit, success adds one new open socket to account for, and failure, also of filter or fanout, leaves none |
| `CaptureSockets.OpenSockets` | exporter/internal/capture/manager.go:83-93 | all or nothing: succeeds if and only if every attempt does, else every socket opened is closed |
| `CaptureSockets.CloseAll` | exporter/internal/capture/manager.go:87-89 | closes each socket of a list once |
| `CaptureSockets.ClampWorkers` | exporter/internal/capture/manager.go:35-41 | n, but at least one |
| `CaptureSockets.Manager.constructor` | exporter/internal/capture/manager.go:50-64 | no socket to begin with |
| `CaptureSockets.Manager.Open` | exporter/internal/capture/manager.go:72-98 | as many sockets as workers, or none open and the slots untouched |
| `CaptureSockets.Manager.ReopenWorker` | exporter/internal/capture/manager.go:224-235 | the three sections of the machine in a row; a failed attempt leaves the slot alone |
| `CaptureSockets.Manager.Close` | exporter/internal/capture/manager.go:127-133 | closes what is in the slots |
| `CaptureSockets.Manager.KernelDrops` | exporter/internal/capture/manager.go:136-148 | sums the drops of all slots, skipping unreadable ones |
| `CaptureSockets.SumDropsConcat` | exporter/internal/capture/manager.go:139-147 | each slot contributes its drops, or nothing if they cannot be read |
| `GeoResolver.AsnOfAnswer` | exporter/internal/geoip/geoip.go:149-159 | there is a number if and only if the address parses and an open database holds it with one other than 0, and it is that; the organisation is the record's text if not empty, else unknown |
| `GeoResolver.CountryOfAnswer` | exporter/internal/geoip/geoip.go:128-147 | country and continent are each the record's text if not empty, else unknown; an address that does not parse gives unknown |
| `GeoResolver.DueEvery30s` | exporter/internal/geoip/geoip.go:173-173 | files are looked at on the first call and from 30 s after the last look on |
| `GeoResolver.ReopenPurges` | exporter/internal/geoip/geoip.go:81-119 | a reader changes only together with a purge of the cache |
| `GeoResolver.ReopenIs` | exporter/internal/geoip/geoip.go:81-119 | a missing file keeps its database; one that reappears, has another time or was never seen is opened anew, an unreadable one leaving none; one with the remembered time is left alone |
| `GeoResolver.RecheckKeeps` | exporter/internal/geoip/geoip.go:172-178 | the section under the lock keeps every cached answer equal to the lookup |
| `GeoResolver.ResolveIsTransparent` | exporter/internal/geoip/geoip.go:169-190 | so does a whole call, and its result is the uncached lookup |
| `GeoResolver.CacheIsInvisible` | exporter/internal/geoip/geoip.go:164-190 | in every serial run, whatever happens to the files and whatever the cache drops, each call returns the uncached lookup under the readers then open |
| `GeoResolver.ReadersFollowFiles` | exporter/internal/geoip/geoip.go:81-119 | in every serial run the open readers are throughout what the last check that found each file read there, if and only if no due check meets a file with the remembered time and another content |
| `GeoResolver.AnswersFollowFiles` | exporter/internal/geoip/geoip.go:81-190 | in particular, if the times of the files that due checks look at tell their contents, each call of a serial run answers from what the last check that found the file read there |
| `GeoResolver.SameTimeIsMissed` | exporter/internal/geoip/geoip.go:96-96 | a replacement that keeps the modification time is not noticed |
| `GeoResolver.Resolver.ReopenIfNeeded` | exporter/internal/geoip/geoip.go:121-126 | whatever the files are, cached answers stay equal to the lookup, and readers that changed mean an empty cache |
| `GeoResolver.Resolver.ResolveIp` | exporter/internal/geoip/geoip.go:169-190 | one call on the object: the new state and an answer equal to the uncached lookup |
| `GeoResolver.TransparentExactly` | exporter/internal/geoip/geoip.go:169-190 | interleaved calls keep the cache transparent throughout if and only if every add finds open readers that agree on its address with the readers of its lookup |
| `GeoResolver.TimelyRunsAreTransparent` | exporter/internal/geoip/geoip.go:184-188 | in particular as long as no purge falls between a lookup and its add |
| `GeoResolver.LateAddIsStale` | exporter/internal/geoip/geoip.go:184-188 | an add after a purge brings back an answer of the old database |

## Left out

- The kernel side of AF_PACKET: a socket is a number that is open or closed, with a drop count given from outside.
- SHA-1 and FNV-1a are arbitrary functions; nothing is claimed about hash quality or the accuracy of the estimate.
- Floating-point rounding and the logarithm: `Count` and the loss percentage are over reals, the logarithm is a parameter.
- The decoding of GeoIP databases and the eviction policy of the cache: a database is a map, and the cache may drop any entries at any time; a record that fails to decode counts as absent, and log lines and the loaded gauge are left out.
- The Prometheus registry, the packets counter and the request-interval histogram; only the counters that Flush publishes, the overflow count, the latencies and the gauges are modelled.
- The kernel-drop delta in Flush, the pool-score poller, the reloading of local addresses, process start-up, shell scripts and configuration.
- The percentiles of the load generator, its rate computation and its log output.
- Overflow of 64-bit counters: counts are unbounded, except that the load generator's loss is computed with wrap-around; a load worker stops drawing cookies at 2^48.
- Address text: an arbitrary function from address bytes to text without a bar stands for Go's formatting.
- Collector.Collector.HandleFrame: calls follow one another here, and everything but the ring is one record of values replaced as a whole, so aliasing between maps is not captured; interleavings are treated in CollectorMachine, with every map as a value.
- Collector.Collector.Flush: as HandleFrame; the geo lookup's result is a parameter of the frame.
- CollectorMachine.CountsConserved: the publication of one breakdown is one step, and the top set used for folding is arbitrary there; the ranking that picks it is in Collector.Publish.
- ActiveClients.ActiveGauge: for calls that follow one another; for interleaved ones GaugeBounds.GaugeOfRun gives bounds.
- GaugeBounds.GaugeOfRun: a worker's clock reading and the section that enters it are one step; in the source another worker may come in between with a later reading.
- AsnRanking.SortSlice: works on a sequence rather than in place, and promises only what sort.Slice does.
- LoadPacing.SendLoop: sleeping is a later clock reading, and a stop is the end of the readings; what a send does is in LoadLedger.
