# Tapio: verified model

This project models the parts of Tapio that compute, count and carry state, and proves what they keep.

| file | what it models |
|---|---|
| `MachineInt.dfy` | unsigned arithmetic that wraps or saturates |
| `Calendar.dfy` | the two date conversions of the agent, against a day-by-day Gregorian calendar (RFC 3339 section 5.7 and appendix C) |
| `Decimal.dfy`, `Timestamp.dfy` | printing and reading of timestamps (RFC 3339 section 5.6), and their order as text |
| `TimestampFormat.dfy`, `TimestampReader.dfy` | the printed text character by character; what the reader makes of every text |
| `EventBatching.dfy` | cutting a buffer into request-sized batches |
| `ControllerSink.dfy` | the controller sink: bounded queue, worker, retries, metrics |
| `ControllerDelivery.dfy`, `WorkerProgress.dfy` | what every run of that sink keeps; when it flushes, retries and drops |
| `SequenceTracking.dfy` | the controller's gap and regression counters |
| `Controller.dfy` | the controller's state: registrations, heartbeats, batches |
| `ConfigPolling.dfy` | ETag polling and the applied identity, over a fleet of agents and controllers |
| `ConfigIdentity.dfy` | from equal hashes to equal configs, along polls, reports and heartbeats |
| `KernelAgreement.dfy` | whether the kernel runs the config that the agent reports |
| `Convergence.dfy` | heartbeats and the controller's convergence report |
| `ConfigCarriers.dfy` | the carrier registry, with the lock and the map write as separate steps |
| `EvidenceProfile.dfy`, `ConfigCompiler.dfy` | profile, compiled config, kernel config, kernel verdict |
| `KernelConfig.dfy`, `StorageMonitor.dfy`, `StoragePairing.dfy`, `RttBaseline.dfy`, `ExitFilter.dfy` | the eBPF handlers |
| `StorageEvents.dfy`, `RttMeaning.dfy` | what the storage and network handlers leave behind, without their formulas |
| `HttpSink.dfy` | the HTTP sink's buffer and backoff |
| `WireFacts.dfy` | the rule that events carry no reasoning fields |

Code that only computes is modelled by functions. Code that changes state in place is modelled by a class (or, for a
loop over local variables, a method) whose methods are proved equal to a function of the old state; runs are sequences
of steps of that function, and the theorems are about all runs. An event's `valid` flag in the batching and sink
models stands for the verdict of `WireEvent::validate`, whose recursive part is `WireFacts.dfy`. Clocks, networks, map
writes that may fail, ring-buffer space and the digest are parameters of the steps.

## Where the code does less than one might claim

Each claim below fails in the code. For each there is a lemma at a failing input, and a theorem with the exact condition
under which the claim holds.

- The kernel need not run the config that the agent reports. A refused carrier write (`RefusedWriteIsReported`), a closed
  thresholds channel (`ClosedChannelIsHidden`) and a registration's late write (`LateWriteIsHidden`) each break it, and
  from then on the controller answers 304, so polling never repairs it (`NothingRepairs`). `SyncedByGuards` decides it by
  these three guards on every run; `PollSyncIff` is the iff for a single poll: with no refused write, the channel is open
  or the config is the one already reported.
- A storage completion can be paired with another request's issue (`SharedKeyMispairs`, `UntrackedIssueMispairs`).
  `NeverMispairsIff`: on a run no completion can ever be mispaired if and only if every insert meets no outstanding
  request of its key and every issue that finds an unmarked entry of its key finds storage enabled.
- A carrier whose first write, made after the lock is released, straddles a publication can end with an older config
  (`LateWriteGoesStale`), and so does one whose write the kernel refuses; `QuiescentCarriers` says exactly when.
- An unconfigured agent reports the empty hash, so it is missing from the report for the empty hash
  (`EmptyHashHidesUnconfigured`); `ConvergedHadApplied` holds exactly for the other hashes.
- A repeated batch with number u64::MAX is not counted as a regression (`RepeatIsCounted`); over a run the count is right
  exactly when that number was accepted at most once (`RegressionsIff`).
- The RTT learner wraps for sample setting 0 and from 9 on (`NinthSampleWraps`) and is exact for every u32 input exactly
  for settings 1 to 8 (`LearningExactIff`); profiles always give 5.
- A sink with `buffer_size` 0 can exceed ten times its size; the bound holds exactly for a positive size
  (`BufferBoundIff`).
- The timestamp reader does not honour UTC offsets (`OffsetsAreNotHonoured`): after a fraction it ignores them, after a
  whole second any other than `+00:00` makes it return 0 (`OffsetReads`). It gives the meant instant exactly in the cases
  of `OffsetHonouredIff`; the observers print only `+00:00`, which is one of them.
- A reasoning field inside an array passes the wire rules (`ArraysHideReasoning`); one is missed exactly when all of them
  are inside arrays (`MissedIff`).

## Model

| member | source | states |
|---|---|---|
| Calendar.NextDayCounts | tapio-agent/src/sink/controller.rs:502-510 | the day after any valid date (month lengths and leap rule written out) is valid and has a day count one higher |
| Calendar.CivilFromDaysInverse | tapio-common/src/occurrence.rs:244-258 | every day count, negative ones included, prints as a real calendar date that the other crate's formula counts back to it |
| Calendar.DaysFromCivilInverse | tapio-agent/src/sink/controller.rs:502-510 | every valid date survives counting and printing |
| Calendar.DaysFromCivilOrders | tapio-agent/src/sink/controller.rs:502-510 | day counts order valid dates exactly as the calendar does |
| Calendar.CivilFromDaysRefinesCalendar | tapio-common/src/occurrence.rs:244-258 | day 0 is 1970-01-01 and day n+1 is the Gregorian successor of day n, for every n |
| Calendar.CivilFromDaysOrders | tapio-common/src/occurrence.rs:244-258 | a later day count is a later date, both ways |
| Decimal.ParseToString | tapio-controller/src/lib.rs:149 | a generation written as text parses back, for every unsigned value within the type |
| Decimal.ParsesIff | tapio-agent/src/controller.rs:169-171 | a text parses as an unsigned number exactly when it is digits, or a plus sign and digits, whose value fits the type |
| Decimal.FixedOrders | tapio-common/src/occurrence.rs:235-241 | zero-padded numbers of one width sort as text as they sort as numbers |
| Timestamp.ComputeFractionNanos | tapio-agent/src/sink/controller.rs:484-500 | the two loops compute the leading digits, nine at most, as a decimal fraction of a second, without saturating |
| Timestamp.PadFraction | tapio-agent/src/sink/controller.rs:496-498 | the padding loop multiplies by ten once per missing digit, without saturating |
| Timestamp.StemReads | tapio-agent/src/sink/controller.rs:439-466 | a printed instant reads back with `Z`, `+00:00` or no designator, and with any text at all after a fraction |
| Timestamp.OffsetReads | tapio-agent/src/sink/controller.rs:446-459 | for every numeric offset: the printed instant when there is a fraction or the offset is `+00:00`, and otherwise 0 |
| Timestamp.OffsetHonouredIff | tapio-agent/src/sink/controller.rs:446-459 | the reader gives the instant the offset means exactly for a zero offset after a fraction or as `+00:00`, and otherwise exactly when that instant is 0 |
| Timestamp.OffsetsAreNotHonoured | tapio-agent/src/sink/controller.rs:446-459 | two instants at one hour east of UTC, with and without a fraction, neither read as what it means |
| Timestamp.RoundTrip | tapio-common/src/occurrence.rs:225-242 | printing then reading is the identity on every u64 nanosecond count; what the text in between looks like is in PrintedSaysInstant |
| TimestampFormat.PrintedSaysInstant | tapio-common/src/occurrence.rs:225-242 | for every u64 count the printed text has the RFC 3339 shape character by character (25 or 35 long, separators, digits, `+00:00`), and its fields are a calendar date and a time of day that add up to the instant |
| TimestampReader.ReadsEveryText | tapio-agent/src/sink/controller.rs:439-482 | the value read from every text with a `T`, two hyphens before it and two colons before any point: 0 unless all six fields are numbers, 0 before 1970, otherwise the instant of the fields and the fraction, clamped; further parts are ignored |
| TimestampReader.UnreadableIsZero | tapio-agent/src/sink/controller.rs:440-459 | every other text is read as 0 |
| TimestampReader.FractionMeans | tapio-agent/src/sink/controller.rs:484-500 | a fraction is worth its first nine digits as a decimal fraction of a second; nothing after a non-digit counts |
| Timestamp.NothingSaturates | tapio-agent/src/sink/controller.rs:461-465 | none of the reader's saturating operations saturates on the fields of a u64 instant |
| Timestamp.TextOrderIsTimeOrder | tapio-cli/src/main.rs:228 | sorting printed timestamps as text sorts them by time, for all u64 instants, whole seconds included |
| EventBatching.SplitEventsBySize | tapio-agent/src/sink/controller.rs:386-417 | the batches concatenate to the input in order, each is admissible, none could take its successor's first event |
| EventBatching.AdmissibleMeans | tapio-agent/src/sink/controller.rs:402-404 | under a positive limit a batch is non-empty, within the count limit, and within the estimated byte limit unless it is a single event |
| EventBatching.EstimateGrows | tapio-agent/src/sink/controller.rs:397-411 | the running length equals the closed form of the estimated body after every event, saturation included |
| EventBatching.SplitIsMinimal | tapio-agent/src/sink/controller.rs:386-417 | no contiguous admissible partition uses fewer batches |
| EventBatching.SplitIsUnique | tapio-agent/src/sink/controller.rs:386-417 | the splitter's result is the only greedy admissible partition |
| ControllerSink.Worker.constructor | tapio-agent/src/sink/controller.rs:59-90 | the worker starts with sequence number 1, an empty queue and an empty buffer |
| ControllerSink.Worker.TryEnqueue | tapio-agent/src/sink/controller.rs:323-345 | an offered event enters the queue or is counted under exactly one reason |
| ControllerSink.Worker.SendEventBatchWithRetries | tapio-agent/src/sink/controller.rs:236-303 | sending a batch is one numbering step and then attempts until it is settled |
| ControllerSink.Worker.AttemptUntilSettled | tapio-agent/src/sink/controller.rs:261-300 | the retry loop ends, having made exactly the attempts that leave the batch settled |
| ControllerSink.Worker.PostOnce | tapio-agent/src/sink/controller.rs:261-299 | one post settles the batch or leaves it to be tried again; the drop metric moves only when the last try is refused |
| ControllerSink.Worker.DropFailedBatch | tapio-agent/src/sink/controller.rs:305-320 | a failed batch raises the failure metric by one and the drop metric by its number of events, and nothing else |
| ControllerSink.Worker.FlushBuffer | tapio-agent/src/sink/controller.rs:192-226 | a flush empties the buffer and sends the one greedy partition of it, batch by batch |
| ControllerSink.Worker.Turn | tapio-agent/src/sink/controller.rs:157-186 | one turn of the loop receives, times out or sees the disconnect, and flushes as the step does; when that is, is in WorkerProgress.TurnFlushesWhenDue |
| ControllerSink.DrainIsRun | tapio-agent/src/sink/controller.rs:192-303 | whatever the worker does by itself is a run of single steps, so every theorem about runs applies to it |
| ControllerDelivery.RunKeepsOrder | tapio-agent/src/sink/controller.rs:157-345 | on every run, what entered the queue is, in order: settled batches, the flush under way, the buffer, the queue |
| ControllerDelivery.EventsConserved | tapio-agent/src/sink/controller.rs:156-345 | every offered event is in exactly one place or one of the three drop metrics, which count exactly their events; the failure metric counts the failed batches |
| ControllerDelivery.NothingLeftAtTheEnd | tapio-agent/src/sink/controller.rs:179-182 | after the final flush everything that entered the queue is settled and the rest is counted |
| ControllerDelivery.AckedKeepOrder | tapio-agent/src/sink/controller.rs:199-203 | acknowledged events are in the order in which they entered the queue |
| ControllerDelivery.RunStaysBounded | tapio-agent/src/sink/controller.rs:163-168 | the queue stays within its capacity and the buffer below the largest batch limit |
| ControllerDelivery.RunFates | tapio-agent/src/sink/controller.rs:261-302 | at most four posts per batch, one in the final flush; a failed batch used all of them; an unsendable one none; an acknowledged one was accepted |
| ControllerDelivery.NoSilentLoss | tapio-agent/src/sink/controller.rs:252-272 | with valid events, serializable requests and well-formed replies every batch is acknowledged or counted as failed |
| ControllerDelivery.RunNumbers | tapio-agent/src/sink/controller.rs:241-242 | sequence numbers rise by one per batch, retries reuse them, posts go out batch by batch |
| ControllerDelivery.PostsAreValid | tapio-wire/src/lib.rs:332-350 | on every run whose batch limits stay within the controller's, every batch that is posted passes the controller's validation |
| ControllerDelivery.ControllerCountsTheRun | tapio-controller/src/lib.rs:456-473 | end to end: when attempts arrive in order, the controller's own counters for the agent, whatever else it served, are the batches in between never accepted since the last hello, and the repeat deliveries |
| WorkerProgress.TurnFlushesWhenDue | tapio-agent/src/sink/controller.rs:157-186 | in every reachable state: after an elapsed send interval, a flush request, a receive that reaches the limit, or the closed channel, nothing is buffered or under way, everything that entered is settled or still queued, and what was settled is the one greedy partition of the buffer; after any other receive nothing is posted or settled |
| WorkerProgress.RetriesStopAtTheEnd | tapio-agent/src/sink/controller.rs:210-234 | on every run a batch is retried exactly if it was settled before the worker saw the closed channel |
| WorkerProgress.RepliesDecideFates | tapio-agent/src/sink/controller.rs:261-299 | on every run: one post per attempt, one acknowledged batch per good reply, one unretried failure per malformed 2xx reply, and the controller accepted exactly the posts it took |
| WorkerProgress.ChecksDecide | tapio-agent/src/sink/controller.rs:241-256 | exactly the batches whose request encodes and whose events are valid are sent; any other is settled at once, unposted and in no metric |
| WorkerProgress.OfferedEventsGo | tapio-agent/src/sink/controller.rs:323-345 | on every run an offered event enters the queue exactly while the sink has not been closed and the queue has room; otherwise it is dropped under `worker_stopped` if closed and `queue_full` if full |
| WorkerProgress.FlushRequestsEnter | tapio-agent/src/sink/controller.rs:110-132 | on every run a flush request enters the queue exactly while the sink has not been closed and the queue has room |
| SequenceTracking.TrackingCounts | tapio-controller/src/lib.rs:456-473 | for all u64 numbers in any delivery order, `last_seen` is the maximum, `gaps_total` is last minus first minus strict advances and never saturates, `regressions_total` is the rest without the repeats of u64::MAX |
| SequenceTracking.RegressionsIff | tapio-controller/src/lib.rs:460-471 | over a run regressions are exactly the arrivals that were no new high if and only if u64::MAX was accepted at most once |
| SequenceTracking.GapsAreMissing | tapio-controller/src/lib.rs:463-468 | for all u64 numbers, `gaps_total` is the number of batches in between that never arrived exactly when none arrived late for the first time |
| SequenceTracking.RetriesAreCounted | tapio-controller/src/lib.rs:456-473 | for a worker that retries in order, gaps are exactly the batches never accepted and regressions exactly the repeats |
| SequenceTracking.RepeatIsCounted | tapio-controller/src/lib.rs:460-471 | a repeat of the last batch is counted as a regression exactly when its number is below u64::MAX |
| Controller.ControllerState.constructor | tapio-controller/src/lib.rs:197-211 | a fresh controller knows no agent, heartbeat or sequence |
| Controller.ControllerState.RegisterAgent | tapio-controller/src/lib.rs:213-236 | a hello that passes the wire checks registers the agent and resets its sequence tracking; any other changes nothing |
| Controller.ControllerState.RecordHeartbeat | tapio-controller/src/lib.rs:249-270 | the last heartbeat that passes the wire checks is kept, whether or not its agent is registered; any other changes nothing |
| Controller.ControllerState.RecordEventBatch | tapio-controller/src/lib.rs:272-341 | a batch is accepted exactly when it is valid under the controller's own limit, and only then tracked |
| Controller.ControllerState.UpdateSequenceTracking | tapio-controller/src/lib.rs:456-473 | only the tracking of the batch's agent changes |
| Controller.EpochAccounting | tapio-controller/src/lib.rs:230-232 | over any calls, an agent's counters are those of the batches accepted from it since its last accepted hello |
| Controller.TotalsAddUp | tapio-controller/src/lib.rs:272-341 | over any calls the four totals are the batches, and their events, that are in order under the controller's own limit, and those that are not |
| Controller.RegistriesKeepLast | tapio-controller/src/lib.rs:213-270 | over any calls exactly the agents of accepted hellos are registered, and of every agent, registered or not, the last accepted heartbeat is kept |
| ConfigPolling.TrimQuoted | tapio-controller/src/lib.rs:667-672 | trimming the header leaves a quoted hash as it is |
| ConfigPolling.AnswerIff | tapio-controller/src/lib.rs:512-531 | the answer is 304 exactly when the header is the quoted hash with white space around it or none |
| ConfigPolling.Poller.constructor | tapio-agent/src/controller.rs:84-93 | an agent starts with no ETag and no applied identity, over an empty carrier registry |
| ConfigPolling.Poller.Tick | tapio-agent/src/controller.rs:101-214 | one tick updates ETag, applied identity and version together, or none of them; a new config reaches the carriers either way, and refused writes change nothing in the outcome |
| ConfigPolling.EtagFollowsIdentity | tapio-agent/src/controller.rs:109-116 | over any interleaving of polls, single writes, controller replacements, failures and restarts the ETag is the quoted hash of the applied identity, which is that of a response the agent fanned out |
| ConfigPolling.PollOutcomes | tapio-agent/src/controller.rs:138-186 | after 200-applied or 304 the applied hash is the controller's, after 200 with its generation and flags; a failure leaves the identity alone and is a transport error exactly for a failed exchange or a closed thresholds channel; a deliverable poll of an acceptable config succeeds exactly unless that channel is closed |
| KernelAgreement.RegistryIsRun | tapio-agent/src/observer/mod.rs:40-92 | whatever is interleaved in an agent's life, its registry goes through a run of the registry's own steps, so the carrier theorems apply to it |
| KernelAgreement.SyncedByGuards | tapio-agent/src/controller.rs:200-214 | on every run, once no write is outstanding: with the latest thresholds out, no new config refused and no late write last, the kernel runs what is reported; when no other response carries the reported config, exactly then, and with the thresholds not out only if every carrier missed the newest config |
| KernelAgreement.SyncedIff | tapio-agent/src/controller.rs:200-214 | the bookkeeping behind it, outstanding writes included: every carrier holds the reported config exactly when the last write it took carried the config of the poll last marked applied |
| KernelAgreement.PollSyncIff | tapio-agent/src/controller.rs:200-214 | after one uninterrupted poll, kernel and report agree exactly when each carrier ends with what is reported then; with no refused write, exactly when the channel is open or the config is the reported one |
| KernelAgreement.PollIsRun | tapio-agent/src/controller.rs:177-182 | an uninterrupted poll is a run of the single steps |
| KernelAgreement.NothingRepairs | tapio-agent/src/controller.rs:163 | while the controller holds the reported hash, no number of polls changes anything at the agent |
| KernelAgreement.RefusedWriteIsReported | tapio-agent/src/controller.rs:206-209 | a refused write: the config is reported as applied and the carrier keeps its startup config |
| KernelAgreement.ClosedChannelIsHidden | tapio-agent/src/controller.rs:210-212 | a closed channel: the carriers hold b, a stays reported, and the controller answers 304 for a |
| KernelAgreement.LateWriteIsHidden | tapio-agent/src/observer/mod.rs:46-66 | a registration's late write: b is reported, the carrier ends with a |
| Convergence.HeartbeatsWereBuilt | tapio-agent/src/heartbeat.rs:65-88 | every recorded heartbeat, however late or often delivered, was built by its agent from the identity it had then |
| Convergence.ConvergedHadApplied | tapio-controller/src/lib.rs:377-390 | a registered agent missing from the report for a hash had applied it when its last recorded heartbeat was built, exactly when the hash is not empty |
| Convergence.EmptyHashHidesUnconfigured | tapio-agent/src/heartbeat.rs:72-75 | a registered agent that applied nothing is missing from the report for the empty hash |
| Convergence.ReportIsLatest | tapio-controller/src/lib.rs:377-390 | on every run the report for a hash lists exactly the agents that have greeted this controller and whose latest received heartbeat, if any, reports another hash |
| Convergence.HeartbeatsTellTheTruth | tapio-agent/src/heartbeat.rs:65-88 | version and hash of every heartbeat belong to one response that its agent fanned out, or say that it applied none |
| ConfigIdentity.ReportedHashIsTheConfig | tapio-controller/src/lib.rs:142-172 | on every run of controllers that serve compiled configs under one injective digest, an agent reports the controller's hash exactly when the response it last marked applied carries the very config the controller holds |
| ConfigIdentity.PollBringsTheConfig | tapio-agent/src/controller.rs:138-186 | under the same digest, after a poll that ends in 200-applied or 304 the response last marked applied carries the controller's config |
| ConfigIdentity.ConvergedOnTheConfig | tapio-controller/src/lib.rs:377-390 | under the same digest, an agent missing from the report for a served config had applied that very config when it built its last recorded heartbeat |
| ConfigCarriers.CarrierRegistry.RegisterLocked | tapio-agent/src/observer/mod.rs:41-45 | adding the carrier and reading the current config are one atomic step; nothing is written yet |
| ConfigCarriers.CarrierRegistry.WriteLate | tapio-agent/src/observer/mod.rs:46-66 | the remembered config, not the then current one, is written to that carrier alone, or the write fails |
| ConfigCarriers.CarrierRegistry.PublishLocked | tapio-agent/src/observer/mod.rs:70-74 | making the config current and copying the list of carriers are one atomic step; nothing is written yet |
| ConfigCarriers.CarrierRegistry.WriteNext | tapio-agent/src/observer/mod.rs:76-90 | the next carrier of the copied list gets the published config, or the write fails |
| ConfigCarriers.CarrierRegistry.UpdateAll | tapio-agent/src/observer/mod.rs:69-92 | undisturbed, a publication writes every carrier and reports exactly the failed ones |
| ConfigCarriers.FannedOutIsRun | tapio-agent/src/observer/mod.rs:69-92 | an undisturbed publication is a run of the single steps |
| ConfigCarriers.QuiescentCarriers | tapio-agent/src/observer/mod.rs:40-92 | under every interleaving and with any refused writes, a carrier ends with the newest config exactly unless it was refused one and took no write since, or its own late write came last, after a fan-out; without such a refusal its config is no older than at its registration |
| ConfigCarriers.SinglePublicationReachesAll | tapio-agent/src/observer/mod.rs:40-92 | when at most one config is ever published, a registered carrier ends with it exactly unless it was refused |
| ConfigCarriers.OverwrittenWasLate | tapio-agent/src/observer/mod.rs:46-66 | only a carrier registered after some publication can be overwritten |
| ConfigCarriers.LateWriteGoesStale | tapio-agent/src/observer/mod.rs:46-66 | an interleaving that leaves a carrier with an old config for good |
| KernelConfig.ClampIgnoreExitCount | ebpf/headers/config.h:69-72 | the smaller of the count and the array size |
| StorageMonitor.Handlers.TraceBlockRqIssue | ebpf/storage_monitor.c:79-125 | inserts an entry, or marks an existing one as ambiguous, or does nothing |
| StorageMonitor.Handlers.TraceBlockRqComplete | ebpf/storage_monitor.c:130-229 | every branch of a completion: the entry leaves, and the metrics and events change as the specification says; what an event says is in EmissionIff and StorageEvents.EveryEventTells |
| StorageMonitor.KeyIdentifies | ebpf/storage_monitor.c:88-111 | two tracked requests share a key exactly when device, sector, length and direction agree; other operations have no key |
| StorageMonitor.MapIsHistory | ebpf/storage_monitor.c:113-122 | on every run an entry holds the data of the issue that inserted it, unmarked exactly when no tracked issue of the key followed |
| StorageMonitor.EmissionIff | ebpf/storage_monitor.c:154-226 | a completion emits an event exactly when some inserting issue of its key is followed by no tracked issue, completion or eviction of it, the completion failed or its latency reaches a threshold that is on, storage is enabled and a slot is free; the event says, field by field, severity by error code and thresholds, latency, device, sector, bytes, direction, error code and time of the completion, the config's generation, and cgroup and pid of that issue |
| StorageMonitor.EntriesConserved | ebpf/storage_monitor.c:113-229 | inserts equal emitted, normal, ambiguous, disabled, lost and evicted plus the map size |
| StorageMonitor.MetricsConserved | ebpf/storage_monitor.c:169-202 | the two metrics and the events count exactly their cases |
| StorageEvents.PresentIff | ebpf/storage_monitor.c:113-122 | on every run a key has an entry exactly when some tracked issue of it found memory and no completion or eviction of it followed |
| StorageEvents.CompletionOutcome | ebpf/storage_monitor.c:154-228 | what a completion does, from the history of its key alone: entry, ambiguity metric, lost events and events |
| StorageEvents.EveryEventTells | ebpf/storage_monitor.c:182-223 | on every run the k-th event is that of the k-th emitting completion and tells of it and its issue field by field; its severity is Critical exactly for an error or a reached critical threshold, and Warning otherwise |
| StoragePairing.EmittedPairsExactly | ebpf/storage_monitor.c:113-116 | under separation every event has the completing request's own latency, cgroup and pid, and no same-key request overlapped it |
| StoragePairing.NeverMispairsIff | ebpf/storage_monitor.c:81-122 | on every physically possible run, no completion can be mispaired at any point if and only if every insert meets no outstanding request of its key and every issue that finds an unmarked entry of its key finds storage enabled |
| StoragePairing.SharedKeyMispairs | ebpf/storage_monitor.c:113-122 | issue A, issue B, complete A, issue C, complete B of one key reports B with C's issue |
| StoragePairing.UntrackedIssueMispairs | ebpf/storage_monitor.c:81-83 | a request issued while storage is off goes unmarked and can be reported with an older issue |
| RttBaseline.Tracker.LearnSample | ebpf/network_monitor.c:156-177 | a learning sample updates its entry, and no other, by the u32 running mean, ends learning or starts over as the setting says |
| RttBaseline.Tracker.JudgeSample | ebpf/network_monitor.c:178-224 | a stable entry is refreshed, then judged against the refreshed baseline; a spike becomes one event or one lost one, never both; what the refresh does is in RttMeaning.EverySampleMeans |
| RttBaseline.Tracker.TrackRtt | ebpf/network_monitor.c:106-226 | on every path of the handler the map, the events and the lost counter change exactly as one observed sample says, and not at all when a gate is closed |
| RttBaseline.TableIsHistories | ebpf/network_monitor.c:144-183 | a run of the handler over many connections is, entry by entry, the run of each connection's own samples and evictions |
| RttBaseline.EventsExactly | ebpf/network_monitor.c:185-222 | over any run for any connections, with setting 1 to 8, RTTs up to 42,949,672 us and a multiplier up to 100, an event is emitted exactly when the exact spike test holds and a slot is free, and lost exactly when it holds and none is |
| RttBaseline.LearningIsExact | ebpf/network_monitor.c:158-175 | for a setting from 1 to 8, on every run the learned baseline lies between the smallest and the largest sample and at most (n-1)/2 below their mean, across resets |
| RttBaseline.LearningNeverWraps | ebpf/network_monitor.c:161 | no learning step of such a run wraps in u32 |
| RttBaseline.LearningExactIff | ebpf/network_monitor.c:159-175 | learning is exact on all inputs exactly when the setting is between 1 and 8 |
| RttBaseline.NinthSampleWraps | ebpf/network_monitor.c:161 | with setting 0 or above 8, eight slow samples and a quick one wrap |
| RttBaseline.BaselineStaysSmall | ebpf/network_monitor.c:179-183 | with RTTs up to 42,949,672 us the refresh is exact and the baseline stays within the same bound |
| RttBaseline.SpikesExactly | ebpf/network_monitor.c:185-192 | on such runs the kernel's spike test is the exact one, and only entries that finished learning with at most 100 ms spike |
| RttBaseline.RatioTestExactIff | ebpf/network_monitor.c:189 | the wrapped ratio test agrees with the exact one for all RTTs exactly when the product fits u32 or wraps above every RTT |
| RttMeaning.EverySampleMeans | ebpf/network_monitor.c:144-183 | on every run with setting 1 to 8 and RTTs up to 42,949,672 us, without the handler's formulas: a first sample starts an entry; a learning one takes the rounded mean and ends, goes on or starts over; a stable one moves to nine parts old and one part new after more than an hour and stays otherwise |
| RttMeaning.RefreshMovesATenth | ebpf/network_monitor.c:179-183 | a refreshed baseline lies between the old one and the sample and moves a tenth of the way, up to rounding |
| RttMeaning.EveryCallMeans | ebpf/network_monitor.c:106-226 | on such runs every call changes its connection's entry as the sample means and no other, and emits, or without a slot loses, an event exactly when the stable entry's new baseline times the multiplier, or the absolute limit, is exceeded |
| RttMeaning.EveryEventSays | ebpf/network_monitor.c:195-222 | whatever the settings and the RTT, an emitted event tells the generation, the connection, and baseline and RTT in milliseconds, capped at 65,535 |
| RttMeaning.LearnUnderAnySetting | ebpf/network_monitor.c:159-175 | one learning step under any setting, in u32 arithmetic: when it ends, starts over or goes on, and with what mean |
| EvidenceProfile.ValidateIff | tapio-profile/src/lib.rs:152-191 | a profile is accepted exactly when all its bounds hold, and then resolves to the overrides over the defaults |
| EvidenceProfile.ValidateErrors | tapio-profile/src/lib.rs:152-191 | validation rejects exactly the profiles that break a rule, with the error of the first one |
| EvidenceProfile.ApplyContainerInPlace | tapio-profile/src/lib.rs:417-450 | the loop with its `seen` table keeps the first occurrence of each code, and fails as the source does |
| EvidenceProfile.DistinctInOrder | tapio-profile/src/lib.rs:431-446 | the kept codes stand in the order of first mention, none twice |
| EvidenceProfile.CompilesExactly | tapio-profile/src/lib.rs:193-225 | an accepted profile compiles without overflow, rounds to the nearest unit, and keeps warning at most critical |
| ConfigCompiler.BuildTapioConfig | tapio-agent/src/config.rs:180-234 | the flag ORs and the slot loop build the config that the meaning lemmas speak about, or reject a bad generation |
| ConfigCompiler.MappingKeepsFields | tapio-agent/src/config.rs:180-234 | every field of any compiled config arrives under its own name, with the first sixteen codes; only a version that is no u32 fails |
| ConfigCompiler.FlagsMean | tapio-agent/src/config.rs:191-203 | each flag bit is set exactly when its observer is enabled |
| ConfigCompiler.StorageMeaning | ebpf/storage_monitor.c:182-194 | the kernel's severity is the comparison of the latency with the profile's millisecond thresholds |
| ConfigCompiler.StorageEventsMean | ebpf/storage_monitor.c:182-219 | on every run an event emitted under an accepted profile's config has the severity that the operator's milliseconds give its own error code and latency |
| ConfigCompiler.ExitMeaning | ebpf/container_monitor.c:154-170 | the kernel drops exactly normal exits and the listed codes, through deduplication, 16 slots and clamp |
| ConfigCompiler.NetworkMeaning | ebpf/network_monitor.c:106-222 | over any run under accepted profiles with RTTs up to 42,949,672 us: a call with the observer off, no connection or no RTT changes nothing; any other changes its entry as the sample means with five samples a baseline, refresh weights included, and emits an event exactly when the learned entry's baseline times the profile's ratio, or its milliseconds, is exceeded |
| ConfigCompiler.GatesMean | ebpf/headers/config.h:58-67 | each handler runs exactly when the profile enables its observer |
| ConfigCompiler.DisabledStorageIsSilent | ebpf/storage_monitor.c:80-83 | with storage disabled no event is emitted and no entry inserted |
| ConfigCompiler.OtherAbiIsSilent | ebpf/headers/config.h:58-67 | under another ABI version no handler inserts or emits anything, whatever the flags |
| ConfigCompiler.PmcMeaning | tapio-agent/src/config.rs:237-246 | the sampler's thresholds are the operator's to half a unit of the wire format, warning at most critical |
| ConfigCompiler.HashesTellDigests | tapio-controller/src/lib.rs:142-172 | two responses have equal hashes exactly when their configs have equal digests, whatever the generations, and a response carries its config, its generation and the fixed batching |
| ConfigCompiler.AgentCheckIff | tapio-agent/src/controller.rs:164-177 | which responses an agent accepts, and which check fails first otherwise |
| ConfigCompiler.AcceptedProfilesAreNeverRejected | tapio-agent/src/controller.rs:164-177 | for every accepted profile and u32 generation the response passes version parse, wire validation, hash check and mapping, and ends in the profile's kernel config; what its hash tells is in HashesTellDigests |
| ExitFilter.ExitHandler.HandleExit | ebpf/container_monitor.c:142-204 | the loop with early return emits, drops or loses exactly as the verdict says |
| HttpSink.Sink.constructor | tapio-agent/src/sink/http.rs:29-44 | the sink starts with an empty buffer and the initial backoff |
| HttpSink.Sink.SendOccurrence | tapio-agent/src/sink/http.rs:48-88 | a send drops the oldest items when full, keeps the new one, and posts everything when due and not backing off |
| HttpSink.Sink.FlushNow | tapio-agent/src/sink/http.rs:90-105 | a flush posts the whole buffer, backoff or not |
| HttpSink.Sink.PostBatch | tapio-agent/src/sink/http.rs:114-152 | success resets the backoff, failure sets the retry time and doubles the backoff, an unserializable batch does neither |
| HttpSink.RunKeepsInvariant | tapio-agent/src/sink/http.rs:47-153 | on every run the sent items are, in order, those posted, failed or overflowed and then the buffer; backoff is min(2^k, 60) s after k failures in a row |
| HttpSink.SendsRespectRetry | tapio-agent/src/sink/http.rs:67-79 | a send posts only at or after the retry time that the last failure set |
| HttpSink.SendPostsIff | tapio-agent/src/sink/http.rs:48-88 | on every run a send keeps its occurrence behind what a full buffer keeps, and posts the whole buffer exactly when the last refusal's wait is over and the buffer holds `buffer_size` or the flush interval has passed since it was last taken |
| HttpSink.FlushPostsAll | tapio-agent/src/sink/http.rs:90-105 | a flush posts the whole buffer, backoff or not; an empty one does nothing |
| HttpSink.OverflowDropsOldest | tapio-agent/src/sink/http.rs:55-63 | on every run each overflow discards exactly nine buffer sizes of what was sent right after everything already gone, never the newest `buffer_size`; each batch is the stretch that follows |
| HttpSink.BufferBoundIff | tapio-agent/src/sink/http.rs:41-57 | the buffer never exceeds ten times `buffer_size` on any run exactly when that is positive |
| WireFacts.RejectedIff | tapio-wire/src/lib.rs:431-443 | a value is rejected exactly when some route through objects ends at a reasoning key, and the error names the first such field |
| WireFacts.ReasoningKeysAreTheTerms | tapio-wire/src/lib.rs:445-461 | the rejected keys are exactly the eight reasoning terms in snake and in camel case |
| WireFacts.ArraysHideReasoning | tapio-wire/src/lib.rs:432-434 | a reasoning key inside an array is not found |
| WireFacts.MissedIff | tapio-wire/src/lib.rs:431-443 | a reasoning key is missed exactly when all of them are inside arrays |

## Left out

- ControllerDelivery.ControllerCountsTheRun: assumes that attempts arrive in the order they were made; a post that the controller handles only after its agent gave up on it is covered by the any-order results of SequenceTracking alone, because the order of arrival is the network's.
- ControllerDelivery.RunNumbers: stops two short of u64::MAX batches, where the saturating number repeats.
- SequenceTracking.RetriesAreCounted: states numbers below u64::MAX; what happens at the top is in RegressionsIff.
- EventBatching.SplitEventsBySize: bounds the estimate, not the real body, because the source measures with placeholder agent and node names.
- KernelAgreement.SyncedByGuards: its converse supposes that no other response carries the reported config, because a refused or late write of an equal config does no harm; SyncedIff does not suppose it.
- ControllerDelivery.PostsAreValid: an agent whose limit was set by an earlier controller with a larger one can post batches that are too large.
- StoragePairing.EmittedPairsExactly: assumes separation, because the tracepoints carry no request identity; NeverMispairsIff shows that nothing weaker would do.
- ConfigCarriers.CarrierRegistry.UpdateAll: describes a publication that no registration interrupts; interleavings are covered by the steps.
- ConfigPolling.Poller.Tick: takes a tick as one call; registrations and late writes between its single writes are covered by the steps, where they interleave freely.
- ControllerSink.Worker.Turn: takes a turn as one call; offers that arrive during it are covered by the steps, where they interleave freely.
- RttBaseline.LearningIsExact: holds the sample setting constant during a run, because a config change in the middle of learning changes when it ends.
- Calendar.CivilFromDaysInverse: uses unbounded integers, so the i64 overflow of years near the ends of i64 is not modelled.
- TimestampReader.ReadsEveryText: hours or minutes large enough to overflow `hour * 3_600 + minute * 60` wrap, as in a release build.
- EvidenceProfile.CompilesExactly: PMC percentages are reals; NaN and infinity are a tag, rounding error of floating point is not modelled.
- ConfigPolling.TrimQuoted: trimming knows ASCII white space only, and hashes are taken to be legal header text.
- ConfigIdentity.ReportedHashIsTheConfig: supposes an injective digest, because SHA-256 is only collision resistant; HashesTellDigests supposes nothing.
- RttMeaning.EverySampleMeans: bounds setting and RTT, because beyond them the u32 arithmetic can wrap; what it does then is in LearningExactIff and RatioTestExactIff.
- SHA-256, JSON and YAML are abstract: the digest is any function to text, serialized lengths are numbers, profiles arrive parsed.
- A configuration in ConfigCarriers is named by its place in the order of publication; KernelAgreement says what each contains.
- Histories kept by the model (`log`, `posts`, `ledger`, `sent`, `responses`, request identities) exist for the statements only.
- Timer arithmetic of the worker loop, backoff sleeps between attempts and flush acknowledgements.
- A queue of capacity zero, which the standard library turns into a rendezvous.
- Races between CPUs inside one eBPF handler and torn config reads: each handler is one step with one snapshot.
- Network events other than RTT spikes (state changes, resets, retransmits), OOM kills, and the PMC sampler's own measurements: single-branch mappings.
- Fields of events that are copied without a decision (command names, addresses, thread ids).
- Sockets, HTTP framing, routing, aya loading, ring-buffer reads, CLI, MCP server, metrics endpoint, the OTLP sink.
- Re-registration after a controller restart: the controller never rejects a heartbeat, so nothing makes an agent say hello again.
