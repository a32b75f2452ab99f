# Verification of the telemetry rings

The telemetry subsystem shares one zeroed page between kernel producers and user-space
consumers. This project models the two lock-light ring protocols on that page and proves
what they guarantee.

* **The ticketed slot ring** (block tenant, and the kernel side of the net tenant). Producers
  draw a ticket by fetch-add, copy a metric into slot `ticket % K`, and stamp the slot with the
  ticket. A consumer drains by *scatter-gather* (copy all slots, take the consecutive run) or
  by *skip-ahead* (read in place, leap over holes up to a hint).
* **The char byte ring.** `dev_write` and `push_metric` share a spinlock; `dev_write` sleeps on
  a wait queue when the ring is full; the reader is `dev_read` or the mmap consumer, which
  throttles its wake kicks.

Two kinds of model stand side by side. *Step models* (`SlotRing`, `BlockSystem`, `NetHook`,
`CharSystem`) interleave any number of producers with one consumer, one shared access per step;
theorems about them quantify over every run from the zeroed page. *Classes* (`SlotClient`,
`NetLane`, `CharStream`, `MmapConsumer`) keep the loops and in-place updates of the source and
are proved against specification functions; `Undisturbed` and `CharRing.State` tie the two
kinds together.

| module | models |
|---|---|
| `Words` | u32 arithmetic, signed distance, slot index |
| `Windows` | which windows of tickets use distinct slots |
| `SlotRing` | reserve, field stores in any order, stamp; any number of producers, any K |
| `BlockMetric` | packing a bio into a metric, reassembling the sector |
| `Drain`, `SlotClient`, `Recovery` | meaning of a pass, the two engines, what a pass recovers |
| `SkipCost` | the skip-ahead loops while slots change arbitrarily |
| `BlockSystem`, `BlockRuns` | producers and consumer interleaved, whole runs |
| `Snapshot`, `TornSnapshot` | what the copy and the read in place take, when a delivery is whole, torn ones |
| `Phantom` | ticket 0 delivered before it is published, in runs |
| `Overrun` | scatter-gather after an overrun |
| `Positions` | where the consumer stands, counted across counter wraps |
| `Undisturbed`, `SkipLength` | a skip-ahead pass or a commit of the step model, left alone, is what the class does; how long the pass takes |
| `UndisturbedScatter` | the same for a scatter-gather pass |
| `NetHook`, `NetLane` | ticket dispenser and the compare-and-swap loop on the hint |
| `CharSystem` | writers, wait queue, `dev_read` and mmap consumer, interleaved |
| `CharFifo`, `CharMerge`, `CharWake`, `CharRuns` | FIFO, merge, wakeups, whole runs |
| `CharReach`, `CharFault` | building runs step by step, the lost wakeup on any ring |
| `CharThrottle`, `MmapConsumer` | the throttled kick |
| `CharTurns` | each call of the step model left alone, from first step to last; how a writer's call can end |
| `CharFlag` | several writers and the one asleep flag |
| `CharStream` | `dev_read`, `dev_write`, `push_metric` as undivided calls |

Fields of a state that the comments call *history* (the log of metrics, the streams that went
in and out, counters) are not in the source; no step reads them to decide anything.

Terms used below. A run is *lap-free* when ticket t is reserved only after ticket t - K was
stamped; nothing in the source enforces this, so it is a premise wherever payloads matter.
A read of ticket t is *safe* when t + K is not reserved before the read ends. Ticket 0 is
special: the zeroed page shows its stamp before anything was published.

## What the code does not guarantee

* **Phantom ticket 0.** The zeroed page shows the stamp of ticket 0 until that ticket is
  stamped: before it is drawn (`Recovery.ZeroPagePhantom`) and while its producer is in flight.
  In lap-free runs an engine delivers a ticket nobody published if and only if it comes to
  ticket 0 before ticket 0 is stamped: `Recovery.SkipPhantomExactly` and
  `Recovery.ScatterPhantomExactly` on a ring left alone, `Phantom.SkipPhantomInRuns` and
  `Positions.ScatterPhantomAcrossWraps` over runs. (In a lapping run ticket K can stamp slot 0
  while ticket 0 is in flight, which hides the phantom.) Before anything is drawn this also
  takes rd_idx to 1 past wr_idx 0, the one exception in `BlockRuns.DeliveryOrder`.
* **Torn deliveries.** Neither the snapshot copy nor the read in place is atomic. In a lap-free
  run a delivery can have an older field, because the ticket was published while the copy ran
  (`TornSnapshot.TornDelivery`), or a newer one, because ticket t + K was drawn before the copy
  or the read ended (`TornSnapshot.LappedSnapshot`, `TornSnapshot.LappedRead`). For both engines
  a delivery is whole if and only if each field, at the moment it was taken, was the ticket's
  own, stored by its producer and not yet by that of t + K, or happened to be the same as the
  one that stood there instead (`Snapshot.WholeExactly`). A ticket published before the copy
  began and not lapped before it ended always is (`BlockRuns.SnapshotIntegrity`), and so is one
  that skip-ahead found and that was not lapped before the read ended
  (`BlockRuns.PayloadIntegrity`).
* **Scatter-gather does not recover from an overrun.** Once ticket t + K is published while it
  waits at t, no later pass of it delivers anything (`Overrun.OverrunForGood`); skip-ahead moves
  on (`Undisturbed.RecoveryInRuns`).
* **Wakeup lost to a fault.** A `dev_read` that consumed bytes and then faults in `put_user`
  returns without waking the queue. A wakeup is lost by exactly two kinds of step
  (`CharRuns.WakeupLostExactly`): such a fault, met while a writer sleeps and the ring is not
  full; or, after a call that consumed bytes and faulted, the test of a writer on the queue that
  loaded wr_idx before and finds the ring full although it is not. Both occur on every ring of three or more cells
  (`CharFault.LostWakeupAfterFault`, `CharFault.StaleSleeperAfterFault`), and on rings of two
  neither does (`CharFault.LossNeedsThreeCells`). What is lost stays lost only until the next
  wake (`CharRuns.NoLostWakeup`).
* **One flag for all sleepers.** With several `dev_write` callers the first that resumes lowers
  the asleep flag. A second one that was woken with it and finds the ring full again sleeps on
  without raising the flag (`CharFlag.UnflaggedSleeper`, on every ring and for every throttle
  modulus). The mmap consumer, left alone, wakes a sleeper if and only if the flag is up
  (`CharFlag.FlagDecides`); while it is down the sleeper sleeps on beside an empty ring until
  another writer raises the flag, or a signal, a `dev_read` or a `dev_write` without data wakes
  it (`CharFlag.FlagDownSleepsOn`).
* The guard of the net hook's loop compares an unsigned value with zero and never ends the
  loop (`NetHook.GuardAlwaysHolds`); the hint it stores is a slot number, not a ticket, although
  include/telemetry_uapi.h:78 calls it the highest completed ticket. The model follows the code.
* Comments in include/telemetry_uapi.h:142 and :97 give other sizes than the constants at
  lines 18 and 22; the model uses the constants.

## Model

| member | source | states |
|---|---|---|
| Windows.SafeWindowIsExact | include/telemetry_uapi.h:22-24 | for any capacity, windows of consecutive tickets use distinct slots if and only if they are no longer than K (K divides 2^32) or 2^32 mod K |
| Windows.RingWindows | net_filter/net_filter_kernel.c:76 | the block ring keeps windows of exactly up to 8 apart across the wrap; the net ring exactly up to 16, and 24 away from the wrap |
| SlotRing.StepLapFree | block_filter/telemetry_block.c:32-38 | every lap-free step keeps the closed form: each slot is a function of the log and of how far its newest producer got, for stores in any order and across counter wraps |
| SlotRing.StampMeansPublished | block_filter/telemetry_block.c:36-38 | in the newest window a slot shows ticket t >= 1 if and only if t is published, and then holds t's metric whole |
| SlotRing.SlotOwnership | block_filter/telemetry_block.c:32-38 | over whole lap-free runs no two in-flight producers target one slot and the ticket a slot shows never goes back |
| SlotRing.RunInv | net_filter/net_filter_kernel.c:76-89 | in every run, lapping included, each slot shows the initial 0 or the stamp of a published ticket of its own |
| SlotRing.TicketsDenseAndUnique | block_filter/telemetry_block.c:32 | in every run each word below the number of reservations (up to 2^32) was drawn by exactly one fetch-add, whose producer carries that metric |
| SlotRing.SlotShowsIssuedTicket | block_filter/telemetry_block.c:33-38 | before the counter wraps, each slot shows 0 or a published ticket congruent to its index |
| BlockMetric.EncodeRoundTrip | block_filter/telemetry_block.c:57-64 | the halves reassemble to the bio's 64-bit sector and the encoding loses nothing of the bio |
| BlockMetric.PrintShowsBio | user/block_filter_client.cpp:42-55 | whatever the bio, the line printed of its metric shows its device, sector, bytes, operation and flags, and the number of whole 512-byte blocks in it |
| BlockMetric.OrOfHalvesIsSum | user/block_filter_client.cpp:44-45 | shifting and or-ing the halves is the sum that the model uses |
| Drain.LiveIsExact | user/block_filter_client.cpp:91-119 | the specification of skip-ahead lists exactly the tickets of the range whose slot shows them, ascending, once each |
| Drain.SkipStops | user/block_filter_client.cpp:91-123 | a pass stops where it began or one past a live ticket up to the hint, with nothing live from there to the hint, and nowhere else |
| Drain.EnginesAgree | user/block_filter_client.cpp:72-121 | on any unchanging pool the scatter-gather run is a prefix of what skip-ahead delivers if and only if it does not pass the hint |
| SlotClient.SlotLane.CommitMetric | block_filter/telemetry_block.c:17-40 | draws wr_idx, advances it with wrap-around, and leaves metric and ticket in slot ticket mod K, no other slot changed |
| SlotClient.Consumer.ScatterGatherPass | user/block_filter_client.cpp:73-87 | ends after at most K deliveries for every K, counter wrap included; delivers exactly the maximal consecutive run from the expected ticket and publishes the ticket after it |
| SlotClient.FreshSlot | user/net_filter_client.c:87-100 | the next live ticket of a run uses a slot no earlier ticket of the run used, so K = 24 bounds the net client's loop too |
| SlotClient.Consumer.SkipAheadPass | user/block_filter_client.cpp:89-123 | on unchanging slots delivers exactly the live tickets up to the hint and publishes one past the last of them, or where it began if there is none, counter wrap included |
| SkipCost.SkipAhead | user/block_filter_client.cpp:91-120 | with arbitrary interference: at most d+1 outer turns and d inner tests, one load each; ascending deliveries; each ticket delivered was found by a load that the pass made for it, each other ticket up to the hint was missed by one; it ends at its start, one past its last delivery, or at a ticket that a load found |
| Recovery.RecoveryAfterOverrun | user/block_filter_client.cpp:89-123 | after a quiet lap-free run one skip-ahead pass from any earlier position delivers exactly the last min(K, n-e) tickets, each with its own metric, and moves to n |
| Recovery.ZeroPagePhantom | kernel/telemetry_base.c:140 | on the page before any ticket was drawn both engines deliver ticket 0 and stop at 1 |
| Recovery.SkipPhantomExactly | user/block_filter_client.cpp:89-121 | on a lap-free ring left alone skip-ahead delivers an unpublished ticket if and only if it starts at 0 and ticket 0 is not stamped; ticket 0 is then passed for good |
| Recovery.ScatterPhantomExactly | user/block_filter_client.cpp:73-87 | the same if-and-only-if for scatter-gather |
| Recovery.EnginesAgreeOnReachable | user/block_filter_client.cpp:72-123 | on every reachable ring left alone, lapped or not and at any age, scatter-gather's output is a prefix of skip-ahead's if and only if it does not pass wr_idx by more than one; before the counter wraps it never does |
| Recovery.EnginesAgreeAtAnyAge | user/block_filter_client.cpp:72-123 | on a lap-free ring it always is a prefix, counter wraps included |
| Recovery.EnginesDeliverAll | user/block_filter_client.cpp:72-123 | when every ticket up to wr_idx is live, both engines deliver exactly those and publish wr_idx if and only if the next slot does not seem to show the next ticket; before the counter wraps it never does |
| Recovery.EnginesDeliverAllAtAnyAge | user/block_filter_client.cpp:72-123 | on a lap-free ring they always do, counter wraps included |
| BlockSystem.IntactStep | user/block_filter_client.cpp:94-99 | every step of producers and consumer keeps all words read of a safe ticket equal to its producer's |
| BlockSystem.OrderStep | user/block_filter_client.cpp:66-123 | every step keeps the consumer's position behind wr_idx and its deliveries ascending and published |
| BlockRuns.DeliveryOrder | user/block_filter_client.cpp:66-123 | over any run and mix of passes deliveries strictly ascend, each ticket >= 1 was published, rd_idx never passes wr_idx but for 0 to 1 on the zeroed page |
| BlockRuns.PositionMoves | user/block_filter_client.cpp:97-114 | over any run the position stays, or is one past the last delivery since, or a ticket whose slot a scan since found live |
| BlockRuns.PassEndsExactly | user/block_filter_client.cpp:77-123 | a pass comes to publish exactly when skip-ahead looks beyond its hint or the snapshot does not show the expected ticket, and leaves the position where it is |
| BlockRuns.PayloadIntegrity | user/block_filter_client.cpp:94-99 | over any lap-free run, wraps included, a safely read ticket is delivered with exactly its producer's metric, and a stamp found by skip-ahead is a published one |
| BlockRuns.BlockPayloadIntegrity | user/block_filter_client.cpp:42-55 | for the block tenant, before the counter wraps, each skip-ahead delivery of t >= 1 carries the bio's metric, so that the line printed shows the bio, unless t+8 was drawn before the read ended |
| BlockRuns.BlockPayloadAcrossWraps | user/block_filter_client.cpp:42-55 | the same at any age, for the ticket that the delivery's 32-bit number stands for |
| BlockRuns.SnapshotIntegrity | user/block_filter_client.cpp:73-75 | with the copy taken word by word, a ticket published before it began and not lapped before it ended is in the snapshot whole |
| Snapshot.TakenField | user/block_filter_client.cpp:73-75 | a field that the consumer copied or read in place, lapped or not, is that of the newest ticket whose field had arrived in the slot when it was taken |
| Snapshot.WholeExactly | user/block_filter_client.cpp:72-99 | a delivery of either engine is its producer's metric if and only if each field, when taken, was stored by t's producer and not yet by that of t + K, or the other ticket's field there was the same |
| TornSnapshot.TornDelivery | user/block_filter_client.cpp:74-86 | on every ring of two or more slots a lap-free run delivers a ticket published during the copy with a field its producer never wrote |
| TornSnapshot.LappedSnapshot | user/block_filter_client.cpp:74-86 | on every ring a lap-free run delivers a ticket published before the copy, and lapped during it, with a field of the next ticket of its slot |
| TornSnapshot.LappedRead | user/block_filter_client.cpp:94-99 | the same for skip-ahead, which had found the ticket published before it read the slot |
| Overrun.ShowsExactly | block_filter/telemetry_block.c:33-38 | in a lap-free ring a slot shows ticket t >= 1 if and only if t is published and t + K is not |
| Overrun.OverrunForGood | user/block_filter_client.cpp:73-87 | once t + K is published while scatter-gather waits at t, no pass of it delivers anything in any continuation, up to 2^32 tickets later |
| Phantom.SkipPhantomInRuns | user/block_filter_client.cpp:91-99 | in lap-free runs of any age a look starts the delivery of an unpublished ticket if and only if it is ticket 0, not stamped yet |
| Phantom.ScatterPhantomInRuns | user/block_filter_client.cpp:74-86 | before the wrap scatter-gather delivers a ticket unpublished when its stamp was copied if and only if it is ticket 0, not stamped by then |
| Positions.DeliveryOrderAcrossWraps | user/block_filter_client.cpp:66-123 | over any lap-free run, wraps included, in which the consumer is never 2^31 behind: deliveries stand for strictly ascending tickets, each >= 1 published, rd_idx never passes the tickets drawn but for 0 to 1 on the zeroed page |
| Positions.ScatterPhantomAcrossWraps | user/block_filter_client.cpp:74-86 | the phantom if-and-only-if of scatter-gather in such runs |
| Undisturbed.UndisturbedPass | user/block_filter_client.cpp:89-120 | a skip-ahead pass of the step model that no producer disturbs delivers what the specification of the pass says |
| SkipLength.PassEnds | user/block_filter_client.cpp:91-120 | such a pass, reading no word twice, takes at most width + 3 steps for each ticket up to the hint and two more |
| SkipLength.PassGoesOn | user/block_filter_client.cpp:91-120 | until it publishes it can take a step, without reading a word again |
| UndisturbedScatter.UndisturbedPass | user/block_filter_client.cpp:73-87 | a scatter-gather pass of the step model that no producer disturbs delivers exactly the maximal consecutive run from where it began and stands one past it |
| UndisturbedScatter.PassEnds | user/block_filter_client.cpp:73-87 | such a pass, copying each word once, takes K * (width + 1) + n + 3 steps for n deliveries, n at most K |
| UndisturbedScatter.PassGoesOn | user/block_filter_client.cpp:73-87 | until it publishes it can take a step, without copying a word again |
| Undisturbed.RecoveryInRuns | user/block_filter_client.cpp:89-123 | a lap-free run that is quiet, then one undisturbed skip-ahead pass: exactly the last min(K, n-e) tickets with their producers' metrics, and rd_idx = wr_idx |
| Undisturbed.UndisturbedCommit | block_filter/telemetry_block.c:32-38 | reservation, one store per field in any order, and stamp of an undisturbed producer leave the ring as the one-call commit does |
| Undisturbed.CommitGoesOn | block_filter/telemetry_block.c:36-38 | at every point in between either a missing field can be stored or the stamp can be set |
| NetHook.GuardAlwaysHolds | net_filter/net_filter_kernel.c:93 | the loop guard holds for every slot and hint |
| NetHook.FailureMeansProgress | net_filter/net_filter_kernel.c:96-110 | a failed swap means that another hook succeeded since this hook's last look |
| NetHook.SwapExactly | net_filter/net_filter_kernel.c:96-110 | a swap succeeds if and only if the hint holds what it held at the hook's last load or swap; it then leaves the slot of the hook's ticket plus one, and otherwise leaves the hint alone and counts a failure |
| NetHook.FailuresSinceLoad | net_filter/net_filter_kernel.c:92-111 | in any run a hook fails at most as often as swaps succeeded between its own load of the hint and its own success, or now |
| NetHook.FailuresPerHook | net_filter/net_filter_kernel.c:92-111 | in a batch of n hooks that starts on any quiet lane, the hook that succeeds after r others of the batch failed at most r times, and r < n |
| NetHook.TotalFailures | net_filter/net_filter_kernel.c:92-111 | at no time have the n hooks of such a batch failed more than n(n-1)/2 times in total |
| NetHook.HintInRange | net_filter/net_filter_kernel.c:76-106 | the hint is 0 or one plus the slot of the last successful swap's ticket, hence 0..24 |
| NetHook.TicketDrawn | net_filter/net_filter_kernel.c:53 | a hook's ticket is what the dispenser held when it drew |
| NetHook.TicketsAreUnique | net_filter/net_filter_kernel.c:53 | as long as fewer than 2^32 hooks have come they have drawn distinct, dense tickets |
| NetLane.Lane.PacketHook | net_filter/net_filter_kernel.c:52-114 | one hook call stamps its slot, leaves the hint at its slot index plus one, and fails as long as each swap meets a hint that changed since the look before it, and no longer |
| CharFifo.StepInv | kernel/telemetry_core.c:40-221 | every step of any writer or reader keeps the cells from rd_idx to wr_idx equal to the bytes in but not out, with one cell free |
| CharRuns.FifoRefinement | kernel/telemetry_core.c:45-63 | over every interleaving consumed is a prefix of produced, the live cells are the rest, occupancy is at most N-1 |
| CharRuns.StreamMerge | kernel/telemetry_core.c:290-308 | every byte produced is some writer's, and produced merges the writers' streams in order; a successful frame is 16 contiguous bytes, a failed one a contiguous proper prefix |
| CharTurns.FrameAlone | kernel/telemetry_core.c:290-308 | push_metric left alone with the lock succeeds if and only if 16 bytes fit, puts in the part that fits, and ends after a known number of steps |
| CharTurns.WriterEnds | kernel/telemetry_core.c:290-308 | whatever the others do a call succeeds only with all its bytes in, a frame fails only because it met a full ring under the lock, and dev_write only by a fault or a signal |
| CharTurns.WriteAlone | kernel/telemetry_core.c:137-221 | dev_write left alone puts everything in if it fits, and otherwise puts in what fits and sleeps on the queue with the flag up |
| CharTurns.WakeAlone | kernel/telemetry_core.c:174-196 | a sleeper that goes on alone after a wake tries again with the flag down if there is room, and sleeps again with the flag as it was if not |
| CharTurns.ReadAlone | kernel/telemetry_core.c:40-70 | dev_read left alone takes the oldest min(len, occupancy) bytes within 3 * len + 2 steps and wakes everyone if it took one and nobody otherwise |
| CharTurns.EmptyTurn | user/telemetry_user.c:239-250 | an iteration of the consumer that finds no byte wakes everyone if the flag is up, nobody otherwise, and leaves the throttle alone |
| CharTurns.ByteTurn | user/telemetry_user.c:194-238 | an iteration that finds a byte takes it, wakes everyone exactly if the flag is up and the throttle at zero, and moves the throttle only if the flag is up |
| CharRuns.NoLostWakeup | kernel/telemetry_core.c:162-196 | a sleeper with no wake on its way sleeps on a full ring, or the reader owes it a wake, or a read faulted after consuming and nobody woke the queue since |
| CharRuns.WakeupLostExactly | kernel/telemetry_core.c:55-57 | unless one is lost already, a step loses a wakeup if and only if it is a fault after a consumed byte met beside a sleeper on a ring that is not full, or the test of a queued writer whose old view of wr_idx makes such a ring look full |
| CharRuns.TwoCellsLoseNothing | kernel/telemetry_core.c:45-67 | on a ring of two cells no wakeup is lost, faults or not |
| CharRuns.OwedWakeIsPaid | kernel/telemetry_core.c:65-67 | over any run a dev_read that consumed a byte wakes everyone on the queue within 3 * len + 2 of its own fault-free steps |
| CharRuns.NobodyIsStuck | kernel/telemetry_core.c:153-218 | in reachable states the reader inside a call and the holder of the lock can always move |
| CharWake.StaleViewIsFull | kernel/telemetry_core.c:174-176 | although wr_idx and rd_idx are loaded separately, a false wait condition with no byte gone since means the ring is full now |
| CharFault.LostWakeupAfterFault | kernel/telemetry_core.c:55-57 | on every ring of three or more cells a run leaves the only writer asleep beside a free cell with nobody left to wake it |
| CharFault.StaleSleeperAfterFault | kernel/telemetry_core.c:174-176 | on every such ring a run in which nobody sleeps at the fault and a writer goes to sleep beside free cells after it |
| CharFault.LossNeedsThreeCells | kernel/telemetry_core.c:45-67 | a run can lose a wakeup if and only if the ring has three or more cells |
| CharThrottle.SingleStep | kernel/telemetry_core.c:162-196 | with one writer thread and no signals the asleep flag is set for the whole wait and at no other time |
| CharThrottle.RankStep | user/telemetry_user.c:194-251 | each consumer step wakes the sleeper with room in the ring or brings the wake strictly closer |
| CharThrottle.BoundedWake | user/telemetry_user.c:194-251 | the wake comes exactly in iteration min(o, KicksOff) + 1, finds room, and the number of steps until then is bounded |
| CharThrottle.KicksOffIsRemainder | user/telemetry_user.c:224-235 | for M >= 2 KicksOff is (M - kick_count) mod M |
| CharFlag.FlagDecides | user/telemetry_user.c:215-240 | with any number of writers and only the consumer moving, a sleeper is woken if and only if the flag is up when the iteration begins |
| CharFlag.FlagDownSleepsOn | user/telemetry_user.c:194-251 | while the flag is down a sleeper sleeps on, whatever consumer and writers do, but for a signal, a dev_read or a kick by hand |
| CharFlag.UnflaggedSleeper | kernel/telemetry_core.c:162-196 | on every ring two writers can leave one asleep beside a free cell with the flag down and the other done |
| CharStream.CharRing.DevRead | kernel/telemetry_core.c:40-70 | takes the oldest min(len, occupancy) bytes and wakes exactly when it took one |
| CharStream.CharRing.PushMetric | kernel/telemetry_core.c:277-309 | succeeds exactly when 16 bytes fit, and otherwise appends the part that fits |
| CharStream.CharRing.DevWrite | kernel/telemetry_core.c:137-221 | what the reader took and the ring holds is the old contents and the published part of the data: all, or up to the fault or the signal; it sleeps on a full ring each time, exactly as often as the bytes it gets to and the bytes the reader takes make necessary; a call without data only kicks |
| MmapConsumer.Consumer.Iterate | user/telemetry_user.c:194-251 | one turn takes a byte if there is one and kicks exactly when the writer sleeps and the ring was empty or the throttle at zero |
| MmapConsumer.Consumer.RunUntilKick | user/telemetry_user.c:194-251 | with a sleeping writer the kick comes in exactly the iteration numbered min(o, KicksOff) + 1, with room in the ring |

## Left out

- SlotRing.LapFreeRunInv: for a capacity that does not divide 2^32 (net) it covers the first 2^32 reservations only, because slots change their owners' spacing at the wrap.
- SlotRing.TicketsDenseAndUnique: stated before the counter wraps, where 32-bit tickets repeat by construction.
- BlockRuns.DeliveryOrder: for lapping runs stated before the counter wraps, because a slot may keep a stamp for 2^32 tickets there; Positions.DeliveryOrderAcrossWraps carries lap-free runs over the wrap, for capacities below 2^30 that divide 2^32.
- CharRuns.NoLostWakeup: the reader is dev_read; the mmap consumer's kick is the subject of CharThrottle.
- CharThrottle.BoundedWake: one writer thread, no signals and no other caller that kicks, because with several writers the bound is false: CharFlag.UnflaggedSleeper is never woken by the consumer.
- Phantom.ScatterPhantomInRuns: stated before the counter wraps, for any capacity; Positions.ScatterPhantomAcrossWraps goes on from there.
- Recovery.EnginesAgreeOnReachable: the consumer is less than 2^31 behind, as far as the signed distance reaches; how a lapped slot comes to show a coming ticket after the wrap is not modelled beyond the stated condition.
- CharStream.CharRing.DevWrite: one call with the only other party a reader that acts while it sleeps; every interleaving is in CharSystem.
- Weak memory: each shared load, store, fetch-add and swap is one sequentially consistent step, on the strength of the barriers in the source.
- Net skip-ahead delivery: its hint is a slot number that the client compares with tickets, so nothing is claimed about what it delivers.
- The net client's calls of process_metric on unmatched slots (user/net_filter_client.c:90, 116, 131), which are debug output.
- Several char readers or several ticket consumers: the source has no protection for them.
- The signal path of the wait is over-approximated: an interrupted sleeper may return even if the condition became true meanwhile.
- A get_user fault stores 0 in a cell outside the queue, as the kernel macro does; the fault ends the call with the bytes written so far.
- telemetry_net_dev_push_metric, which has no caller here, and the code under `#if 0`, SIMPLE_CHAR_DRIVER and BASE_CHAR_DRIVER.
- Null checks of the page pointer, module init and exit, hook and probe registration, cdev and mmap plumbing, minor numbers, telemetry_net_read, printing, thread and context set-up, the thread-active flags, the layout of the page.
- Header parsing of packets and bios beyond the fields copied into a metric.
