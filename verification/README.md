# Verification model of DAEMON CHOIR

DAEMON CHOIR turns kernel activity into sound. Kernel probes put events into a bounded channel; a consumer forwards them
to an aggregator; every window the aggregator turns the collected events into one smoothed, normalised snapshot; a mapping
engine turns snapshots into control parameters; a dispatcher sends those as OSC bundles. A SQLite store hangs off the side.
This project models that pipeline in Dafny and proves what it promises.

The model has two layers. Each part of the daemon that works step by step is an imperative class or method
(`WaitTracker`, `Aggregator`, `ProbeTask`, `RingbufConsumer`, `MappingEngine`, `OscDispatcher`, `PrometheusHistogram`,
`Database`, the hash loops), proved against specification functions. The same functions drive one state machine,
`Pipeline`, whose labels are the atomic actions of all tasks in any order: a probe's send and each of its counter updates,
the consumer's receive and its forward, the five stages of a tick, the three of the mapper, the four of the dispatcher, the
database tasks with their failures, and changes of clock, rules and backends from outside. The theorems about runs hold for
every schedule of these actions. `Tasks` shows that a task's actions in a row have the effect of its sequential code.

| file | content |
|---|---|
| `Prelude.dfy`, `Bits.dfy`, `Machines.dfy` | words, sums, bounded sends; exclusive or; runs, invariants and simulation of machines |
| `Fnv.dfy`, `CommandNames.dfy` | the three FNV-1a hashes (draft-eastlake-fnv, section 2) and their freedom from collisions; where kernel and user space agree on a name |
| `Events.dfy` | events, kernel records and their byte layout |
| `SchedWait.dfy` | the run-queue wait tracker |
| `Metrics.dfy`, `Smoothing.dfy`, `Window.dfy`, `Aggregation.dfy` | percentile, totals, smoothing, normalisation, the aggregation engine |
| `Mapping.dfy` | rules and transforms, the mapping engine |
| `Rounding.dfy` | doubles and singles: rounding to nearest, ties to even, and what it does to latencies and to 0.95 * n |
| `Osc.dfy`, `Histogram.dfy` | timetag, bundles, dispatch; the latency histogram under concurrent observers |
| `Database.dfy` | the retention store |
| `Pipeline.dfy`, `Tasks.dfy` | the interleaved daemon; its tasks as sequential code |
| `NonInterference.dfy`, `Conservation.dfy`, `UncountedLoss.dfy`, `Delivery.dfy`, `Freshness.dfy`, `Guards.dfy`, `Sensitivity.dfy`, `Persistence.dfy` | theorems about every run |

Conventions. Doubles are modelled by exact reals, except where rounding decides something: the latency conversions of the
histogram, the index of the percentile and the cast of values to singles are rounded as the program rounds them
(`Rounding`). The power and logarithm of the standard library are parameters of type
`MathLibrary`, any pair of functions that obeys the elementary laws stated there (monotone; 0th and 1st power; logarithm
of 1 and 10). Clock readings, outcomes of SQL statements, of sends, of ring buffer reservations and of encoding are
arguments or parts of labels, so every theorem covers all of them. Words that wrap in the program wrap in the model (the
hashes, the seconds of a timetag, the saturating cutoff); counters and sums that would take centuries to wrap are natural
numbers. Each kernel handler is one atomic step. Snapshots and frames carry a number and frames the rules they were made
with, so that theorems can speak about them; nothing in the model decides by these tags.

Where the documentation and the code disagree the model follows the code: stale metrics decay and are not reset
(`Aggregation.SilenceDecays`); the consumer does not count what it drops (`UncountedLoss.DropWithoutTrace`, with the exact
condition in `Conservation.NothingDroppedExactly`); a latency can lose a microsecond in the histogram (`Rounding.LostMicrosecond`, with
the exact condition in `Rounding.MillisAndBack`); a scrape can show a bucket above the count (with the exact condition in
`Histogram.ScrapeWithinCount`); timetags carry the dispatch time since 1970; a wipe reports success on a
store that has given up (`Database.WipeAfterFailureKeepsRows`, with the exact condition in `Database.Database.WipeAll`).

## Model

| member | source | states |
|---|---|---|
| NonInterference.RunErased | crates/conductor/src/ringbuf.rs:18-41 | erasing the database, its queues, failures and actions from any run yields a run of the daemon without persistence that ends in the same state outside the database |
| NonInterference.StorageNeverAltersAudio | crates/conductor/src/aggregator.rs:173-191 | two daemons with any two databases, under schedules that differ only in database actions and outcomes, send identical packets and record identical latencies |
| Conservation.EventsConserved | crates/conductor/src/ringbuf.rs:18-41 | in every run the accepted events, minus those dropped at the consumer, are exactly the closed windows, the current window and the queues, in order of acceptance |
| Conservation.AcceptedExactlyOnce | crates/conductor/src/aggregator.rs:64-76 | as multisets, accepted events are the aggregated, the waiting and the dropped ones: nothing is duplicated or invented |
| Conservation.LossAccounting | crates/conductor/src/probe_manager.rs:408-421 | under every interleaving the per-probe loss counters sum to the shared counter, plus losses in built snapshots, plus a swapped-out count in the aggregator's hand, plus probes between their two increments |
| Conservation.AccountsCloseAtRest | crates/conductor/src/probe_manager.rs:251-257 | at rest the loss equation is exact without in-flight terms, and the counters explain all missing events if and only if no step of the run found the aggregator's queue full with an event to forward |
| Conservation.DropsCounted | crates/conductor/src/ringbuf.rs:29-33 | the number of events lost at the consumer is the number of times the run took the branch for a full queue |
| Conservation.NothingDroppedExactly | crates/conductor/src/ringbuf.rs:29-33 | the consumer dropped nothing if and only if the guard of that branch failed at every step |
| Conservation.NothingDroppedWithinBacklog | crates/conductor/src/main.rs:216-218 | in counts: the consumer dropped nothing if and only if at no moment of the run the events it had handled exceeded those the aggregator had received by more than 2048 |
| Conservation.QueuesBounded | crates/conductor/src/main.rs:216-223 | no channel ever holds more than the capacity it was created with |
| Conservation.WindowTotalsAddUp | crates/conductor/src/aggregator.rs:97-121 | in every run, for each of the five totals, the raw metrics of the closed windows add up to the count over all accepted events less those in the current window, the queues, the consumer's hands and those dropped there |
| UncountedLoss.DropWithoutTrace | crates/conductor/src/ringbuf.rs:29-33 | a concrete run of 2049 events loses one at the consumer while every loss counter stays at zero |
| Delivery.SnapshotsOfRun | crates/conductor/src/aggregator.rs:77-193 | in every run exactly one snapshot is built per window, and its metrics and stale flag are the filter state after the windows up to it |
| Delivery.SnapshotContents | crates/conductor/src/aggregator.rs:145-167 | every snapshot of every run has the window length of the start, is stale exactly if the last five windows are empty, and holds for each metric the normalised smoothed value of the windows up to its own |
| Delivery.PacketsInOrder | crates/conductor/src/mapping.rs:31-72 | packets leave in the order their snapshots were built, each snapshot at most once, and nothing queued is older than anything sent |
| Delivery.SnapshotsAccountedFor | crates/conductor/src/mapping.rs:31-72 | in every run each snapshot built is dispatched, on its way in one place, or was given up at one of six named places, exactly once |
| Guards.SkippedExactly | crates/conductor/src/osc.rs:99-140 | in every run a snapshot is given up for one of the six reasons if and only if some step met the guard of that reason: full snapshot queue, poisoned rules, full frame queue, empty frame, poisoned backends, failed encoding |
| Guards.NothingGivenUp | crates/conductor/src/osc.rs:99-150 | in a run without poisoned locks, full queues, failed encodings and rules that name no metric, every snapshot built is dispatched or on its way, in order |
| Guards.SentExactly | crates/conductor/src/osc.rs:99-150 | in every run a packet has been sent if and only if some step held its frame, not empty, with sound backends and encoding; it carries the frame's addresses and values and the time of that step to those backends |
| Guards.FramesMadeByRulesInForce | crates/conductor/src/mapping.rs:31-72 | in every run each frame was made by some step from its snapshot with the rules in force at that step, one parameter for each active rule |
| Guards.PacketsUnderConstantRules | crates/conductor/src/mapping.rs:32-58 | if nobody changes the rules every packet is made with those of the start |
| Guards.LastSetting | crates/conductor/src/mapping.rs:31-38 | clock, rules and backends are what they were last set to |
| Delivery.PacketsFromWindows | crates/conductor/src/osc.rs:99-150 | the messages of every packet of every run are what its rules make of the normalised smoothed metrics of the windows up to its number, cast to singles |
| Delivery.PacketValuesBracketed | crates/conductor/src/osc.rs:114-119 | every value sent in any run lies between the output bounds, as singles, of a rule with that address, if the value is computed in exact arithmetic before the cast |
| Delivery.ArrivalOrderInaudible | crates/conductor/src/aggregator.rs:104-150 | runs whose windows hold the same events in any order send the same messages for the same snapshot number and rules |
| Freshness.FreshAlways | crates/conductor/src/aggregator.rs:78-84 | with a clock never set back, the shared timestamp is at least that of every snapshot built, and equal to the last one outside a tick |
| Freshness.LatencyNeverOverstated | crates/conductor/src/osc.rs:152-158 | with a clock never set back a recorded dispatch latency never exceeds the age of the dispatched snapshot, and equals it if no newer tick had stored its time |
| Freshness.LatencyExactly | crates/conductor/src/osc.rs:152-158 | when ticks store strictly increasing times, the latency is the true age if and only if no newer tick had stored its time |
| Guards.RecordedExactly | crates/conductor/src/osc.rs:152-158 | in every run a latency has been recorded if and only if some step had timed the send and found the shared timestamp set and not in the future |
| Guards.SamplesTimedByClock | crates/conductor/src/osc.rs:152-153 | the end of every latency recorded is a reading of the clock after the packet was sent |
| Tasks.ProbeTask.Publish | crates/conductor/src/probe_manager.rs:408-417 | a send either queues the event and counts it with its time, or counts it as lost twice; nothing else changes |
| Tasks.ProbeTask.Drain | crates/conductor/src/probe_manager.rs:194-258 | draining sends every decodable event, in order |
| Tasks.DecodedAt | crates/conductor/src/probe_manager.rs:198-250 | each item long enough for the record yields, in its place, the event decoded from it with the time it was taken out |
| Tasks.SendingAllExact | crates/conductor/src/probe_manager.rs:194-258 | of events sent in a row as many as fit are queued, in order, and exactly the remaining ones are counted as lost |
| Tasks.PublishUninterrupted | crates/conductor/src/probe_manager.rs:251-257 | a probe's three atomic actions in a row have the effect ProbeTask.Publish is specified by, and leave the other probes alone |
| Tasks.RingbufConsumer.HandleOne | crates/conductor/src/ringbuf.rs:18-39 | one event is handed to the database and forwarded or dropped |
| Tasks.RingbufConsumer.DrainAll | crates/conductor/src/ringbuf.rs:18-41 | the consumer forwards the first events that fit, drops the others, and hands all of them to the database |
| Tasks.ForwardUninterrupted | crates/conductor/src/ringbuf.rs:20-39 | the consumer's two actions in a row have the effect RingbufConsumer.HandleOne is specified by |
| Tasks.ReceiveExactly | crates/conductor/src/aggregator.rs:64-76 | the aggregator takes an event if and only if it is between ticks and one is waiting: the oldest, to the end of the window |
| Tasks.TickUninterrupted | crates/conductor/src/aggregator.rs:77-194 | the five tick actions in a row have the effect Aggregator.Tick is specified by, shared snapshot and database tap included |
| Tasks.MapUninterrupted | crates/conductor/src/mapping.rs:31-72 | the mapper's actions in a row have the effect MappingEngine.ProcessNext is specified by, poisoned lock and full queue included |
| Tasks.DispatchUninterrupted | crates/conductor/src/osc.rs:99-159 | the dispatcher's actions in a row have the effect OscDispatcher.Process is specified by, empty frame, poisoned lock and failed encoding included |
| SchedWait.WaitTracker.HandleSchedWakeup | crates/ebpf-programs/cpu_sched.bpf.c:78-87 | the map after a wakeup, including the insertion that fails at capacity |
| SchedWait.WaitTracker.HandleSchedSwitch | crates/ebpf-programs/cpu_sched.bpf.c:89-126 | the record, with the kernel hashes of both names whatever their characters, and the map after a switch; without a reservation nothing changes |
| SchedWait.WaitTracker.HandleProcessExit | crates/ebpf-programs/cpu_sched.bpf.c:128-135 | an exit forgets the process |
| SchedWait.MapRefinesTrace | crates/ebpf-programs/cpu_sched.bpf.c:78-135 | after any trace a process is in the map, at time ts, exactly if its last effective invocation is a stored wakeup at ts |
| SchedWait.CapacityRespected | crates/ebpf-programs/cpu_sched.bpf.c:20-26 | the map never holds more than 10240 entries |
| SchedWait.LatencyIsWait | crates/ebpf-programs/cpu_sched.bpf.c:109-122 | a recorded switch reports the time since the wakeup it charges, and 0 if there is none or the clock ran backwards |
| SchedWait.ChargeEndsAtSwitchIn | crates/ebpf-programs/cpu_sched.bpf.c:94-101 | the charged interval ends at the first switch-in of the process if and only if no switch of it in between was without a reservation |
| SchedWait.LatencyBeyondSwitchIn | crates/ebpf-programs/cpu_sched.bpf.c:109-122 | otherwise the latency exceeds the wait until that switch-in by the time from there to the switch that is charged |
| SchedWait.ChargedAtMostOnce | crates/ebpf-programs/cpu_sched.bpf.c:111-122 | every stored wakeup is charged by at most one switch and every switch charges at most one wakeup |
| SchedWait.ChargedWaitsDisjoint | crates/ebpf-programs/cpu_sched.bpf.c:94-122 | with a nondecreasing clock the waits charged to one process do not overlap |
| SchedWait.TotalLatencyBounded | crates/ebpf-programs/cpu_sched.bpf.c:94-122 | the latencies reported for a process sum to at most the time from its first wakeup to its last recorded switch-in |
| Fnv.Fnv1a64 | crates/daemon-choir-common/src/events.rs:64-72 | the loop computes the FNV-1a fold over the bytes |
| Fnv.HashCString | crates/ebpf-programs/cpu_sched.bpf.c:28-37 | the kernel loop hashes the sign-extended characters before the first NUL, at most 16 |
| Fnv.HashU32 | crates/ebpf-programs/proc_lifecycle.bpf.c:26-38 | the unrolled hash is the FNV-1a hash of the four little-endian bytes |
| Fnv.VectorOfLetter | crates/daemon-choir-common/src/events.rs:64-72 | the published test vector for the letter a, which fixes basis, prime and order of the two operations |
| Fnv.SuffixKeepsStatesApart | crates/daemon-choir-common/src/events.rs:67-70 | for a fixed suffix the hash determines the state it started from |
| Fnv.NoSingleByteCollision | crates/daemon-choir-common/src/events.rs:65-72 | byte strings of any equal length that differ in exactly one byte never collide |
| CommandNames.HashesAgreeExactly | crates/ebpf-programs/proc_lifecycle.bpf.c:16-24 | for every name, whatever its length and characters, the kernel's hash and user space's agree if and only if the offset, computed from the characters and user-space states alone, is a multiple of 2^64 |
| CommandNames.CStringHashAgrees | crates/ebpf-programs/proc_lifecycle.bpf.c:16-24 | they agree on names of 7-bit characters |
| CommandNames.CStringHashDiffers | crates/ebpf-programs/proc_lifecycle.bpf.c:16-24 | they always differ on names with an odd number of characters above 127, at any length |
| CommandNames.TwoHighCharacters | crates/ebpf-programs/proc_lifecycle.bpf.c:16-24 | on names with exactly two such characters, however far apart, they agree if and only if 512 * (state / 256) + 256 at the first, times the prime to the power of the distance, equals that at the second modulo 2^64 |
| CommandNames.NeighboursAgree | crates/ebpf-programs/proc_lifecycle.bpf.c:16-24 | when the two are side by side: if and only if the first of them turns the low byte of the state it meets into 128 |
| CommandNames.TwoCharacterNames | crates/ebpf-programs/cpu_sched.bpf.c:28-37 | on names of two characters they agree exactly for the 7-bit ones and for 0xA5 followed by any character above 127 |
| CommandNames.CloseCharactersDiffer | crates/ebpf-programs/proc_lifecycle.bpf.c:16-24 | when the two have one or two others between them they always differ |
| Fnv.FourByteHashInjective | crates/ebpf-programs/proc_lifecycle.bpf.c:27-38 | four bytes hash alike, from any state, only if they are equal |
| Fnv.UidHashInjective | crates/ebpf-programs/proc_lifecycle.bpf.c:52-54 | distinct user ids have distinct hashes, for all 2^32 of them |
| Events.FromBytes | crates/conductor/src/probe_manager.rs:313-319 | decoding fails exactly on items shorter than 32, 16, 24 and 16 bytes, and yields the probe's own payload |
| Events.RecordLayout | crates/daemon-choir-common/src/events.rs:74-104 | which bytes of the record each decoded field is read from, least significant first |
| Events.DecodeInvertsEncode | crates/conductor/src/probe_manager.rs:198-243 | decoding recovers every field from its little-endian layout, whatever padding and trailing bytes hold |
| Events.EncodeInvertsDecode | crates/daemon-choir-common/src/events.rs:74-111 | the field bytes of any long enough item are the encoding of what is decoded from it |
| Events.DecodeSeesFieldsOnly | crates/daemon-choir-common/src/events.rs:74-111 | two items decode alike exactly if they agree on the field bytes |
| Window.ClampNeverFires | crates/conductor/src/aggregator.rs:125-126 | the clamp of the percentile index never changes it |
| Window.IndexInDoubles | crates/conductor/src/aggregator.rs:125-125 | the index computed in doubles, 0.95 * n with both roundings, is floor(19n/20) for every window of fewer than 2^40 events |
| Window.PercentileCharacterized | crates/conductor/src/aggregator.rs:123-130 | the percentile is the unique value with more than floor(19n/20) latencies at most it and no more than that below it |
| Window.PercentileRank | crates/conductor/src/aggregator.rs:123-130 | it is a member, fewer than n/20 latencies exceed it and at most floor(19n/20) are below it |
| Window.PercentileMonotone | crates/conductor/src/aggregator.rs:123-130 | raising latencies pointwise never lowers it |
| Window.LatencyMetric | crates/conductor/src/aggregator.rs:123-130 | with n > 0 scheduling events the latency metric of a window is the latency of one of them, more than floor(19n/20) of them are at most that and no more than that below it; without any it is 0 |
| Window.LatencyMetricMonotone | crates/conductor/src/aggregator.rs:123-130 | raising latencies in a window never lowers it |
| Window.CountsOfPayload | crates/conductor/src/aggregator.rs:104-121 | which field of which payload counts for which of the five totals |
| Window.SortIsUnique | crates/conductor/src/aggregator.rs:124-124 | a sorted rearrangement is unique, so the sorting routine does not matter |
| Window.RawMetricsOfRearranged | crates/conductor/src/aggregator.rs:104-136 | the raw metrics of a window depend only on the multiset of its events |
| Smoothing.EmaClosedForm | crates/daemon-choir-common/src/metrics.rs:55-59 | the recurrence equals the sum over all windows of 0.3 times the raw value, decayed by its age |
| Smoothing.DecayedIsScaled | crates/conductor/src/aggregator.rs:53-53 | decaying over k windows is multiplication by 0.7^k, for the weight 0.3 the engine uses |
| Smoothing.EmaBounded | crates/daemon-choir-common/src/metrics.rs:55-59 | the smoothed value lies between 0 and the largest raw value less that value decayed over all n windows |
| Smoothing.EmaOfSilence | crates/daemon-choir-common/src/metrics.rs:55-59 | k zero inputs decay it over exactly k windows |
| Smoothing.EmaSensitivity | crates/daemon-choir-common/src/metrics.rs:55-59 | changing one input by d changes it by exactly 0.3 * d decayed by the input's age |
| Metrics.NormalizeMonotone | crates/daemon-choir-common/src/metrics.rs:61-68 | normalised values lie in [0, 1], are monotone and meet both ends |
| Metrics.NormalizeLipschitz | crates/daemon-choir-common/src/metrics.rs:61-68 | normalisation amplifies a difference by at most the inverse of the range |
| Metrics.MetricNames | crates/daemon-choir-common/src/metrics.rs:13-51 | rules find the six metrics under the names snapshots are serialised with, and no others |
| Aggregation.Aggregator.constructor | crates/conductor/src/aggregator.rs:19-62 | a window length below 10 ms becomes 10, one above 500 ms becomes 500, others are left alone |
| Aggregation.Aggregator.Tally | crates/conductor/src/aggregator.rs:97-121 | one pass yields the latencies in order and the five totals |
| Aggregation.Aggregator.UpdateEmas | crates/conductor/src/aggregator.rs:123-143 | all six smoothed values advance by the raw metrics of the window |
| Aggregation.Aggregator.Tick | crates/conductor/src/aggregator.rs:77-194 | the whole new state: filter, snapshot with the swapped-out loss, shared snapshot unless its lock is poisoned, both bounded channels, cleared window |
| Aggregation.Aggregator.RunWindows | crates/conductor/src/aggregator.rs:63-194 | the loop over any run of windows leaves the filter state that run calls for, and the snapshot of its last window |
| Aggregation.MetricsAreWeightedSums | crates/conductor/src/aggregator.rs:138-143 | after any run of windows each smoothed metric is the explicit weighted sum of that metric's raw values |
| Aggregation.SilenceDecays | crates/conductor/src/aggregator.rs:138-143 | k windows without events scale all six smoothed metrics by exactly 0.7^k |
| Aggregation.StaleAfterFiveEmptyWindows | crates/conductor/src/aggregator.rs:86-92 | a snapshot is stale exactly if the last five windows exist and are all empty |
| Aggregation.ArrivalOrderIrrelevant | crates/conductor/src/aggregator.rs:104-150 | reordering arrivals within every window leaves the filter state after any run unchanged |
| Aggregation.WindowInfluence | crates/conductor/src/aggregator.rs:138-143 | exchanging one window moves a smoothed metric by exactly its raw change times 0.3 * 0.7^age |
| Aggregation.WindowInfluenceOnSnapshot | crates/conductor/src/aggregator.rs:145-159 | and the normalised metric by at most that over the normalisation range |
| Sensitivity.WindowInfluenceOnValue | crates/conductor/src/mapping.rs:85-112 | and the value of a linear rule by at most that times output span over input span |
| Sensitivity.WindowInfluenceOnPackets | crates/conductor/src/mapping.rs:42-58 | packets of two runs that differ in one window have parameters for the same addresses in the same order, those of linear rules that close |
| Aggregation.MetricsInUnitInterval | crates/conductor/src/aggregator.rs:145-150 | all six metrics of every snapshot lie in [0, 1] |
| Aggregation.MetricScales | crates/conductor/src/aggregator.rs:145-150 | the smoothed values at and beyond which each of the six metrics is 0 and 1, exactly |
| Mapping.MappingEngine.ProcessNext | crates/conductor/src/mapping.rs:31-72 | one iteration: the queued frame has one parameter for each active rule with its address and its value at its metric; a poisoned lock skips the snapshot, a full queue drops the frame |
| Mapping.CurveNames | crates/conductor/src/mapping.rs:91-112 | the transform names, regardless of case; a name is linear if and only if it is none of the other three |
| Mapping.CaseIgnored | crates/conductor/src/mapping.rs:91-91 | names that differ only in the case of letters select the same transform |
| Mapping.RuleMonotone | crates/conductor/src/mapping.rs:76-114 | in exact arithmetic every transform is monotone in the direction of its output range, stays inside it and meets both ends |
| Mapping.RuleBracketed | crates/conductor/src/mapping.rs:85-87 | the value lies between the output bounds for every input, an empty input range included |
| Mapping.EmptyInputRange | crates/conductor/src/mapping.rs:85-87 | over an empty input range every transform gives the first output bound |
| Mapping.ExponentialFallback | crates/conductor/src/mapping.rs:91-98 | without a positive output range the exponential transform takes the square of the linear share |
| Mapping.ExponentialIsGeometric | crates/conductor/src/mapping.rs:91-98 | with one it takes geometric means to geometric means, wherever the power does |
| Mapping.LogarithmicAdds | crates/conductor/src/mapping.rs:99-104 | the shares of the logarithmic transform add up wherever the logarithm turns 1 + 9c times 1 + 9d into a sum |
| Mapping.StepNearLinear | crates/conductor/src/mapping.rs:105-112 | a step transform takes one of six levels and is within a fifth of the output span of the linear one |
| Mapping.LinearSensitivity | crates/conductor/src/mapping.rs:88-112 | a linear rule amplifies differences by at most output span over input span |
| Mapping.FrameBracketed | crates/conductor/src/mapping.rs:42-58 | every parameter of a frame carries the address of a rule and lies between its output bounds |
| Mapping.FrameOfRules | crates/conductor/src/mapping.rs:42-58 | a frame has one parameter for each rule that names an existing metric, in rule order, with that rule's address and its value at that metric |
| Mapping.ActiveRulesExactly | crates/conductor/src/mapping.rs:42-46 | the active rules are those that name an existing metric, each once and in order |
| Osc.FractionExact | crates/conductor/src/osc.rs:125-126 | the shifted product fits 64 bits, nanoseconds are recovered exactly and less than 2^-32 s is cut off |
| Osc.TimetagOrder | crates/conductor/src/osc.rs:121-127 | while the seconds fit 32 bits, timetags are ordered exactly as times |
| Osc.TimetagWraps | crates/conductor/src/osc.rs:121-127 | for all times, timetags are ordered, and equal, if and only if the times modulo 2^32 s are |
| Osc.TimetagValue | crates/conductor/src/osc.rs:121-127 | the 64 bits of a timetag are the time in units of 2^-32 s, cut off, modulo 2^64 |
| Osc.TimetagUndone | crates/conductor/src/osc.rs:121-127 | from a timetag the time within its 2^32 s is recovered to the nanosecond |
| Osc.OscDispatcher.Package | crates/conductor/src/osc.rs:112-132 | the bundle holds one message per parameter in order, its value cast to a single, and the timetag of the dispatch time |
| Rounding.SingleIsNearest | crates/conductor/src/osc.rs:117-117 | the cast of a value has 24 significant bits, is as near to it as any such value, and errs by at most one part in 2^24 |
| Osc.OscDispatcher.SendAll | crates/conductor/src/osc.rs:142-150 | every backend is sent the packet once whatever fails; attempts and successes are counted exactly |
| Osc.OscDispatcher.Process | crates/conductor/src/osc.rs:99-159 | one iteration: unless the frame is empty, the lock poisoned or the encoding fails, every backend gets a bundle that carries the parameters; otherwise nothing is sent; a latency is counted exactly if the timestamp is set and not in the future |
| Osc.DispatchLatencyCounted | crates/conductor/src/osc.rs:155-158 | a latency of whole microseconds falls into exactly the buckets it belongs to, in spite of rounding |
| Rounding.MillisAndBack | crates/conductor/src/osc.rs:48-48 | converted to milliseconds and back in doubles, a latency comes out as it was, or one microsecond short if and only if its significand m is at least 1000 * 2^43 and 512m mod 1000 lies strictly between 256 and 500 |
| Rounding.LostMicrosecond | crates/conductor/src/osc.rs:156-156 | 1001 microseconds come back as 1000 |
| Histogram.PrometheusHistogram.Observe | crates/conductor/src/osc.rs:47-60 | one observation adds its amount to each of the five counters |
| Histogram.RunConsistent | crates/conductor/src/osc.rs:47-60 | under any interleaving each counter is the sum of the updates performed so far |
| Histogram.ScrapeBounds | crates/conductor/src/control_api.rs:260-265 | a value loaded during a scrape lies between observations completed at its start and begun by its end |
| Histogram.QuiescentExact | crates/conductor/src/osc.rs:47-60 | with nothing in flight every counter is exact and the buckets are nested |
| Histogram.BucketsNeverExceedCount | crates/conductor/src/osc.rs:49-59 | at any instant no bucket exceeds the count |
| Histogram.LoadsCompared | crates/conductor/src/control_api.rs:260-265 | two loads of a scrape differ by exactly the observations counted in one of them only |
| Histogram.CrossedMadeBoth | crates/conductor/src/osc.rs:47-60 | an observation is missed by the count of a scrape and seen by a bucket if and only if it makes both updates between the two loads |
| Histogram.ScrapeWithinCount | crates/conductor/src/control_api.rs:260-265 | a scrape shows a bucket within the count if and only if the observations that made both updates between the loads are no more than those counted before and not yet, or never, in the bucket |
| Histogram.ScrapeNested | crates/conductor/src/control_api.rs:260-265 | exactly when a scrape shows its buckets nested |
| Histogram.QuietScrapeWithinCount | crates/conductor/src/control_api.rs:260-265 | a scrape during which no observation is counted shows no bucket above the count |
| Histogram.ScrapeCanExceedCount | crates/conductor/src/control_api.rs:260-265 | a scrape that shows a bucket of 1 and a count of 0 |
| Histogram.QuiescentSum | crates/conductor/src/osc.rs:48-49 | with nothing in flight the sum shown is less than a microsecond per observation below the exact one and at most half a microsecond above it |
| Histogram.QuiescentSumOfLatencies | crates/conductor/src/osc.rs:155-158 | for dispatch latencies it is their exact sum less one for each that the conversion leaves short |
| Database.Database.RecordEvent | crates/conductor/src/db.rs:106-124 | an insertion appends, gives up on failure, and does nothing once given up |
| Database.Database.RecordSnapshot | crates/conductor/src/db.rs:126-150 | the same for snapshots |
| Database.Database.PurgeOlderThan | crates/conductor/src/db.rs:152-184 | a purge keeps exactly the rows no older than the retention, including a failure before or between its two statements |
| Database.PurgeKeepsYoung | crates/conductor/src/db.rs:164-184 | the same in order: a snapshot stays if and only if timestamp plus retention reaches now, an event likewise in nanoseconds, the very last nanosecond excepted when the cutoff saturates |
| Database.Database.WipeAll | crates/conductor/src/db.rs:186-204 | the effect of a wipe; a reported success means empty tables exactly if the store was open or already empty |
| Database.StoreIsFilterOfHistory | crates/conductor/src/db.rs:106-204 | the tables are exactly the rows found at the start or inserted while connected that no later purge or wipe carried out has erased; a connection lasts from a successful opening, also by a restart, to the first failure |
| Database.FailureIsAbsorbing | crates/conductor/src/db.rs:116-123 | after a failure nothing changes any more until a restart |
| Database.RestartKeepsRows | crates/conductor/src/db.rs:15-66 | a restart opens the file with the rows it still holds |
| Persistence.EventsHandedOverOnce | crates/conductor/src/ringbuf.rs:20-28 | in every run each event the consumer has taken is, exactly once, a pending or an attempted insertion |
| Persistence.SnapshotsHandedOverInOrder | crates/conductor/src/aggregator.rs:185-191 | in every run the snapshots the tap accepted are, in order, the attempted insertions and the writer's queue |
| Persistence.RefusedExactly | crates/conductor/src/aggregator.rs:185-191 | a snapshot is refused by the tap if and only if 512 were waiting when it was offered |
| Persistence.TasksPerform | crates/conductor/src/main.rs:203-229 | which operation each database task performs when its turn comes, and what it takes from its queue |
| Persistence.StoreOfRun | crates/conductor/src/main.rs:200-229 | the tables at the end of any run are the filter of the operations performed in it, over the file found at the start |
| Database.CutoffsAgree | crates/conductor/src/db.rs:164-173 | events and snapshots of one microsecond are purged alike, if and only if it is not the case that the cutoff saturates and the event is of the very last nanosecond |
| Database.WipeAfterFailureKeepsRows | crates/conductor/src/db.rs:186-191 | a history in which a wipe reports success and a row remains; Database.WipeAll states the exact condition |

## Left out

- Loading and attaching eBPF programs, the tokio scheduler, sockets, OSC byte encoding, SQL text and file permissions: foreign code or I/O; only queues, outcomes and table contents appear.
- Kernel handlers other than those of the scheduler: each fills one record from its arguments and adds no state; their records and hashes are modelled.
- Control API routes other than the scrape, hot reload beyond arbitrary changes of rules and backends, TUI, clients and scripts: plumbing.
- f64 rounding in smoothing, normalisation and the transforms (exact reals), the range of exponents of doubles and singles (nothing overflows or is subnormal), and latencies of 2^52 microseconds (142 years) or more.
- Limits of the SQL driver on bound values, such as refusing a cutoff above 2^63 - 1: a refusal is a failing statement, which the outcomes of `Database` cover.
- Timing: a database task that blocks a runtime thread can delay audio tasks; the model has order but no durations.
- Closed channels: every channel lives until the process exits, so the branches for a closed channel are not modelled.
- Concurrent kernel handlers: each handler is atomic, so two handlers racing on one map entry are not covered.
- Readers of the shared snapshot, and the lock that guards it becoming poisoned during a run: it is poisoned from the start or never.
- Wrap-around of 64-bit counters and per-window sums, and clock readings beyond 64-bit nanoseconds.
- Simulated waveforms: events carry arbitrary payloads instead.
- Aliasing between the channel ends of different tasks: in the classes each task has its own queue fields; sharing is modelled in `Pipeline`.
