# Slotted multiple access and finite-buffer queue — a Dafny model

This project models the two integer state machines inside two small simpy
scripts.

- **simulation1.py**, a finite-buffer single-server queue (M/M/1/B). Each packet
  process arrives. If `packetsInBuffer >= BUFFER_CAPACITY` it is dropped and
  `droppedPackets` grows by one. Otherwise it is admitted (`packetsInBuffer += 1`),
  waits for the one server, is served, and leaves (`packetsInBuffer -= 1`).
  Module `FiniteBuffer` models this as a `Buffer` record with three steps:
  `Arrive`, `Serve` (the request is granted) and `Depart`. The server is reduced
  to a single `serving` flag, so at most one admitted packet is in service.
- **simulation2.py**, slotted multiple access with exponential or linear backoff.
  Each node has a queued-packet count, a next-attempt tick (`-1` when idle) and a
  consecutive-collision count. Module `SlottedAccess` models these as a sequence
  of `Node` records inside a `Channel`, which also holds the driver's clock and
  `packets_transmitted`. `Arrive` is a packet arrival and `Tick` is one pass of
  the slot driver's loop body: a success, a collision with backoff, or nothing.
  Module `SlotCount` models the two list queries the driver makes, `count` and
  `index`, and the three-way classification they decide.
- Module `Arrivals` models the spawning loops that both scripts share. Arrival
  times are running totals of the inter-arrival gaps, and simulation2 rounds
  them up with `Ceil` to pick a slot.

The random draws are parameters. A backoff draw `ceil(uniform(0, bound))` is an
integer `d` with `0 <= d <= bound`. Inter-arrival gaps and service times are
reals. Whole runs are replayed as sequences of events (`Run` in both modules).
Each event is one resume of a packet process or of the slot driver, in whatever
order the simpy scheduler would pick. Invariants are proved for every such order.

Two details follow simulation2.py as written:
- an idle node's next slot is the integer `-1` (line 37), not a separate "none" value;
- the retransmission count itself is never clamped. Only the exponent or window
  size computed from it is capped, at 10 or 1024 (lines 85-91).

## Model

| member | source | states |
|---|---|---|
| FiniteBuffer.Arrive | simulation1.py:20-24 | every arriving packet is classified exactly once (dropped + admitted grows by one); it is dropped iff occupancy >= B; a drop leaves occupancy unchanged, an admission raises it by one |
| FiniteBuffer.Serve | simulation1.py:25-26 | the server is granted only when it is free and an admitted packet is waiting; the grant leaves occupancy, the drop count and the tallies unchanged |
| FiniteBuffer.Depart | simulation1.py:27-29 | a departure needs a packet in service; it frees the server and lowers occupancy by exactly one, leaving the drop count and the admitted tally unchanged |
| FiniteBuffer.EmptyIsValid | simulation1.py:9-11 | the initial counters satisfy the buffer invariant |
| FiniteBuffer.ArrivePreservesValid | simulation1.py:20-24 | arrival keeps 0 <= occupancy <= B and occupancy == admitted - departed |
| FiniteBuffer.ServePreservesValid | simulation1.py:25-26 | granting the server keeps the buffer invariant |
| FiniteBuffer.DepartPreservesValid | simulation1.py:27-29 | departure keeps the buffer invariant (occupancy never goes negative) |
| FiniteBuffer.DepartureUndoesAdmission | simulation1.py:24-29 | admitting a packet into an idle server, serving it and letting it leave restores occupancy exactly |
| FiniteBuffer.RunPreservesValid | simulation1.py:14-29 | along any interleaving of packet events the invariant holds and dropped + admitted grows by the number of arrivals |
| FiniteBuffer.RunFromEmpty | simulation1.py:9-29 | from the empty buffer, occupancy stays in [0, B] and dropped + admitted equals the packet count |
| FiniteBuffer.NoRoomDropsAll | simulation1.py:20-22 | with capacity <= 0 every arrival is a drop and nothing is admitted |
| FiniteBuffer.ZeroCapacityDropsAll | simulation1.py:20-22 | with B = 0 every packet is dropped, because 0 >= 0 holds at every arrival |
| FiniteBuffer.Spawn | simulation1.py:51-58 | packet i gets the sum of the first i+1 gaps as its arrival time and the i-th service draw; with non-negative gaps the arrival times are non-negative and non-decreasing |
| Arrivals.ArrivalTimes | simulation1.py:52-55 | the accumulating loop yields, for each packet, the sum of the gaps up to and including its own |
| Arrivals.SumPrefixMonotone | simulation1.py:53-55 | with non-negative gaps, a longer prefix never sums to less and no prefix sum is negative |
| Arrivals.ArrivalTimesNondecreasing | simulation2.py:106-110 | arrival times are non-decreasing in packet index |
| Arrivals.Ceil | simulation2.py:56 | the slot is the least integer not below the arrival time |
| Arrivals.CeilMonotone | simulation2.py:56 | rounding up keeps order and maps non-negative times to non-negative slots |
| SlotCount.CountAt | simulation2.py:68 | `count(now)`: the number of positions holding the tick (its meaning is given by CountAtIsMultiplicity, CountAtZero, CountAtOne and CountAtTwo) |
| SlotCount.FirstAt | simulation2.py:69 | `index` returns a position holding the tick, with no earlier position holding it |
| SlotCount.FirstAtFindsUnique | simulation2.py:68-69 | when the count is 1, `index` finds the one and only scheduled node |
| SlotCount.CountAtIsMultiplicity | simulation2.py:68 | `count` equals the multiplicity of the tick in the multiset of slots |
| SlotCount.CountAtZero | simulation2.py:68 | the count is 0 iff no node is scheduled at the tick |
| SlotCount.CountAtOne | simulation2.py:68 | for a scheduled node, the count is 1 iff no other node is scheduled at the tick |
| SlotCount.CountAtTwo | simulation2.py:81 | the count is at least 2 iff two distinct nodes are scheduled at the tick |
| SlotCount.Classify | simulation2.py:68-81 | a tick is silent iff no node is scheduled, a success iff exactly one is, and a collision iff two distinct ones are |
| SlotCount.ClassifyOrderIndependent | simulation2.py:68-81 | permuting the nodes never changes the classification of a tick |
| SlottedAccess.BackoffBoundRange | simulation2.py:86-91 | after a collision both backoff windows are non-empty, capped at 1024, and never shrink as the count grows |
| SlottedAccess.BackoffBound | simulation2.py:86-91 | the window `2**min(k,10)` for exponential and `min(k,1024)` for linear backoff (its range is given by BackoffBoundRange) |
| SlottedAccess.Arrive | simulation2.py:50-59 | arrival adds one packet to the node; the next slot becomes the arrival slot only if the node was empty and is otherwise unchanged; other nodes are untouched |
| SlottedAccess.Succeed | simulation2.py:68-78 | on success the scheduled node loses one packet, its retransmit count becomes 0, and it becomes idle or is rescheduled at now+1; the success counter grows by one; every other node is untouched |
| SlottedAccess.Backoff | simulation2.py:85-91 | a colliding node keeps its packets, gains one retransmission and moves to now plus its draw (stated per node in Collide) |
| SlottedAccess.Collide | simulation2.py:81-92 | every node scheduled now keeps its packets, gains one retransmission and is rescheduled at now plus its draw, which lies within [now, now + bound(k)]; nodes not scheduled now are untouched |
| SlottedAccess.Tick | simulation2.py:64-92 | the success counter grows iff the tick is a success; a success applies Succeed's update to the one scheduled node and a collision applies Collide's update to every scheduled node; a silent tick changes nothing; nodes not scheduled now are never changed |
| SlottedAccess.CollideInPlace | simulation2.py:82-92 | the in-place, index-order loop backs off exactly the nodes that were scheduled at the start of the tick |
| SlottedAccess.Step | simulation2.py:94-99 | the driver halts iff the tick's success counter equals packet_count * node_count, with node_count the parsed `-n`; a halted driver keeps the tick's state and clock, a running one is the tick's state one tick later |
| SlottedAccess.NegativeTargetNeverHalts | simulation2.py:95-99 | with a negative target (a negative `-n`) the driver never halts, since the success counter is never negative |
| SlottedAccess.InitialWellFormed | simulation2.py:34-40 | the initial arrays, empty for a negative node count, satisfy the idle-iff-empty invariant |
| SlottedAccess.ArrivePreservesWellFormed | simulation2.py:53-56 | an arrival at a non-negative slot keeps the idle-iff-empty invariant |
| SlottedAccess.TickPreservesWellFormed | simulation2.py:68-92 | a tick keeps the invariant, and an idle node neither transmits nor collides |
| SlottedAccess.ArriveAddsOnePacket | simulation2.py:53 | an arrival adds exactly one packet to the total queued over all nodes |
| SlottedAccess.TickConservesPackets | simulation2.py:70-78 | a tick moves at most one packet from the queues to the transmitted count and loses none |
| SlottedAccess.HaltedMeansAllSent | simulation2.py:94-98 | if all packets have arrived when the driver halts, every node is idle |
| SlottedAccess.SpawnNode | simulation2.py:105-110 | a node's k-th packet asks for the ceiling of its running arrival time as its slot; with non-negative gaps these slots are non-negative and in order |
| SlottedAccess.RunPreservesWellFormed | simulation2.py:50-99 | along any interleaving of arrivals and ticks, the invariant holds and transmitted + queued grows by the number of arrivals |
| SlottedAccess.RunFromInitial | simulation2.py:34-99 | from the initial arrays, every reachable state satisfies the invariant and transmitted + queued equals the number of arrivals |
| SlottedAccess.ZeroDrawStrandsNode | simulation2.py:86-91 | a zero backoff draw in a collision reschedules the node at a tick already processed |
| SlottedAccess.ApplyKeepsStranded | simulation2.py:64-99 | a resume never moves a node whose slot lies behind the clock |
| SlottedAccess.StrandedStaysStranded | simulation2.py:64-99 | a stranded node keeps its packets and its past slot for the rest of any run |
| SlottedAccess.StrandedPacketsNeverSent | simulation2.py:95-99 | for the rest of any run, the success counter stays short of the arrived packets by at least the stranded node's packets, so a target counting them is never reached |
| SlottedAccess.TickCorrected | simulation2.py:86-91 | the corrected step is exactly Tick with zero draws raised to one (still inside the backoff window), followed by the clock advance; it keeps the invariant, keeps every node with packets at or after the clock, and conserves packets |
| SlottedAccess.ArriveKeepsNoneStranded | simulation2.py:55-56 | an arrival whose slot is not behind the clock strands no node |

## Left out

- The simpy engine is not modelled: its event queue, `Environment.run`, process suspension and the `Resource` FIFO grant order (simulation1.py:47-48, simulation2.py:101-112). It is a third-party library whose source is not part of this model. Its possible interleavings are covered by the event-sequence `Run` functions.
- Random number generation (`random.expovariate`, `random.uniform`, seeding) is left out because it is floating point and external. Draws are parameters, bounded by preconditions.
- `formula` (simulation1.py:31-35), the closed-form blocking probability, is left out. It is floating point and only printed for comparison.
- Argument parsing, usage exits and all printed output are left out (simulation1.py:37-45, 61-64, simulation2.py:1-20). This includes the utilization figure (simulation2.py:96-97).
- Logging (simulation2.py:22-25, 45-48, and the `log` calls) is left out because it is file I/O.
- The results tables are statistical outcomes, not provable properties.
- Arrivals.ArrivalTimes: arrival times are exact real sums. The source adds the gaps in binary floating point (simulation1.py:55, simulation2.py:109), and rounding can move a running total across an integer. So `Ceil` of the exact sum may differ by one from Python's `math.ceil` of the rounded sum. Rounding is monotone, so the ordering results are unaffected.
- SlottedAccess.Arrive: the slot is taken as an integer parameter, the ceiling of the arrival time. Whether an arrival at an exact integer time is seen before or after the driver's tick at that time depends on simpy's event order, which is not modelled.
- SlottedAccess.Step: does not state that the driver eventually halts. Termination depends on the random draws and, as the finding below shows, fails for a zero draw.

## Findings

| source | as written | input that shows it | evidently intended | confidence | as-written member | corrected member |
|---|---|---|---|---|---|---|
| simulation2.py:88 | a colliding node is rescheduled at `now + ceil(uniform(0, 2**k))` (and likewise at line 91) | two nodes collide at tick t and `random.uniform` returns exactly 0.0 for one of them (possible since `random()` can return 0.0). That node is rescheduled at t, which the driver has already passed. It is never looked at again, so its packets are never sent and the loop never reaches its target (StrandedPacketsNeverSent) | the backoff waits at least one tick | low: needs a draw of exactly 0.0; not executed | SlottedAccess.ZeroDrawStrandsNode | SlottedAccess.TickCorrected |

`TickCorrected` is stated, in its contract, to be `Tick` with every zero draw
raised to one, followed by the clock advance. Its contract also states that
the raised draws stay inside the backoff window. So every property proved of
`Tick` (the invariant, conservation, the success and collision contracts)
holds for it too. In addition it leaves no node behind the clock.
