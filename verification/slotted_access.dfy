/** The slotted multiple-access network of simulation2.py. Each node keeps a
    count of queued packets, the tick of its next transmission attempt (-1
    when idle) and how many consecutive collisions its current packet has
    suffered. Packets arrive at nodes; once per tick the slot driver lets a
    lone scheduled node transmit, or backs off every node of a collision.
    Random backoff draws are parameters: `ceil(uniform(0, bound))` is an
    integer in [0, bound]. */
module SlottedAccess {

  import opened Options
  import opened SlotCount
  import Arrivals

  /** `next_transmit_timeslot` of a node with nothing queued. */
  const Idle: int := -1

  datatype Node = Node(
    packets: int,      // packets_in_node[i]
    nextSlot: int,     // next_transmit_timeslot[i]
    retransmits: int)  // num_times_retransmitted[i]

  datatype Algorithm = Exponential | Linear

  /** The node arrays, the driver's clock `env.now` and `packets_transmitted`. */
  datatype Channel = Channel(nodes: seq<Node>, now: int, transmitted: int)

  /** The initial arrays: no packets, every node idle, no retransmissions. */
  function InitialNodes(count: int): seq<Node>
  {
    // `[0] * n` is the empty list for a negative n
    seq(if count < 0 then 0 else count, _ => Node(0, Idle, 0))
  }

  function Initial(count: int): Channel
  {
    Channel(InitialNodes(count), 0, 0)
  }

  /** The slot array as the driver's `count` and `index` see it. */
  function Slots(nodes: seq<Node>): (s: seq<int>)
    ensures |s| == |nodes|
    ensures forall k :: 0 <= k < |nodes| ==> s[k] == nodes[k].nextSlot
  {
    seq(|nodes|, k requires 0 <= k < |nodes| => nodes[k].nextSlot)
  }

  function Pow2(e: nat): (p: nat)
    ensures p >= 1
  {
    if e == 0 then 1 else 2 * Pow2(e - 1)
  }

  function Min(a: int, b: int): int
  {
    if a < b then a else b
  }

  /** The upper end of the backoff window after the k-th consecutive
      collision: 2^min(k,10) for exponential, min(k,1024) for linear. */
  function BackoffBound(alg: Algorithm, k: int): int
  {
    match alg
    case Exponential => if k < 0 then 1 else Pow2(Min(k, 10))
    case Linear => Min(k, 1024)
  }

  /** Both windows are capped at 1024 ticks and never empty after a collision. */
  lemma BackoffBoundRange(alg: Algorithm, k: int)
    requires k >= 1
    ensures 1 <= BackoffBound(alg, k) <= 1024
    ensures BackoffBound(alg, k) <= BackoffBound(alg, k + 1)
  {
    if alg == Exponential {
      Pow2Monotone(Min(k, 10), Min(k + 1, 10));
      Pow2Monotone(Min(k + 1, 10), 10);
    }
  }

  lemma {:induction false} Pow2Monotone(a: nat, b: nat)
    requires a <= b
    ensures Pow2(a) <= Pow2(b)
  {
    if a < b {
      Pow2Monotone(a, b - 1);
    }
  }

  /** The draws the source's `random.uniform` can deliver this tick: for every
      node scheduled now, an integer in [0, bound] for its incremented count. */
  predicate DrawsInRange(c: Channel, alg: Algorithm, draws: seq<int>)
  {
    && |draws| == |c.nodes|
    && forall k :: 0 <= k < |c.nodes| && c.nodes[k].nextSlot == c.now ==>
         0 <= draws[k] <= BackoffBound(alg, c.nodes[k].retransmits + 1)
  }

  /** A packet for node i arrives at a time whose ceiling is `slot`. */
  function Arrive(c: Channel, i: int, slot: int): (r: Channel)
    requires 0 <= i < |c.nodes|
    ensures |r.nodes| == |c.nodes| && r.now == c.now && r.transmitted == c.transmitted
    ensures r.nodes[i].packets == c.nodes[i].packets + 1
    ensures r.nodes[i].retransmits == c.nodes[i].retransmits
    ensures r.nodes[i].nextSlot == (if c.nodes[i].packets == 0 then slot else c.nodes[i].nextSlot)
    ensures forall k :: 0 <= k < |c.nodes| && k != i ==> r.nodes[k] == c.nodes[k]
  {
    var n := c.nodes[i];
    var packets := n.packets + 1;
    var next := if packets == 1 then slot else n.nextSlot;
    c.(nodes := c.nodes[i := Node(packets, next, n.retransmits)])
  }

  /** The lone node scheduled now transmits one packet. */
  function Succeed(c: Channel): (r: Channel)
    requires CountAt(Slots(c.nodes), c.now) == 1
    ensures |r.nodes| == |c.nodes| && r.now == c.now
    ensures r.transmitted == c.transmitted + 1
    ensures forall k :: 0 <= k < |c.nodes| && c.nodes[k].nextSlot != c.now ==> r.nodes[k] == c.nodes[k]
    ensures forall k :: 0 <= k < |c.nodes| && c.nodes[k].nextSlot == c.now ==>
              && r.nodes[k].packets == c.nodes[k].packets - 1
              && r.nodes[k].retransmits == 0
              && r.nodes[k].nextSlot == (if r.nodes[k].packets == 0 then Idle else c.now + 1)
  {
    var slots := Slots(c.nodes);
    FirstAtFindsUnique(slots, c.now);
    var i := FirstAt(slots, c.now);
    var packets := c.nodes[i].packets - 1;
    var next := if packets == 0 then Idle else c.now + 1;
    Channel(c.nodes[i := Node(packets, next, 0)], c.now, c.transmitted + 1)
  }

  /** The backoff of one colliding node, with this tick's draw. */
  function Backoff(n: Node, now: int, draw: int): Node
  {
    Node(n.packets, now + draw, n.retransmits + 1)
  }

  /** Every node scheduled now collided: each backs off by its own draw. */
  function Collide(c: Channel, alg: Algorithm, draws: seq<int>): (r: Channel)
    requires DrawsInRange(c, alg, draws)
    ensures |r.nodes| == |c.nodes| && r.now == c.now && r.transmitted == c.transmitted
    ensures forall k :: 0 <= k < |c.nodes| && c.nodes[k].nextSlot != c.now ==> r.nodes[k] == c.nodes[k]
    ensures forall k :: 0 <= k < |c.nodes| && c.nodes[k].nextSlot == c.now ==>
              && r.nodes[k].packets == c.nodes[k].packets
              && r.nodes[k].retransmits == c.nodes[k].retransmits + 1
              && r.nodes[k].nextSlot == c.now + draws[k]
              && c.now <= r.nodes[k].nextSlot <= c.now + BackoffBound(alg, r.nodes[k].retransmits)
  {
    var nodes := seq(|c.nodes|, k requires 0 <= k < |c.nodes| =>
                   if c.nodes[k].nextSlot == c.now then Backoff(c.nodes[k], c.now, draws[k])
                   else c.nodes[k]);
    c.(nodes := nodes)
  }

  /** One pass of the driver's loop body at tick `c.now`, before the
      termination check. */
  function Tick(c: Channel, alg: Algorithm, draws: seq<int>): (r: Channel)
    requires DrawsInRange(c, alg, draws)
    ensures |r.nodes| == |c.nodes| && r.now == c.now
    ensures r.transmitted == if Classify(Slots(c.nodes), c.now) == Success then c.transmitted + 1 else c.transmitted
    ensures Classify(Slots(c.nodes), c.now) == Silence ==> r == c
    ensures Classify(Slots(c.nodes), c.now) == Success ==>
              CountAt(Slots(c.nodes), c.now) == 1 && r == Succeed(c)
    ensures Classify(Slots(c.nodes), c.now) == Collision ==> r == Collide(c, alg, draws)
    ensures forall k :: 0 <= k < |c.nodes| && c.nodes[k].nextSlot != c.now ==> r.nodes[k] == c.nodes[k]
  {
    var count := CountAt(Slots(c.nodes), c.now);
    if count == 1 then Succeed(c)
    else if count > 1 then Collide(c, alg, draws)
    else c
  }

  /** The collision loop as the source writes it: visiting nodes in index
      order and overwriting each one in place. Each node's test reads only its
      own, not yet rewritten, entry, so the in-place loop backs off exactly the
      nodes that were scheduled at the start of the tick. */
  method CollideInPlace(c: Channel, alg: Algorithm, draws: seq<int>) returns (nodes: seq<Node>)
    requires DrawsInRange(c, alg, draws)
    ensures nodes == Collide(c, alg, draws).nodes
  {
    nodes := c.nodes;
    for i := 0 to |nodes|
      invariant |nodes| == |c.nodes|
      invariant forall k :: 0 <= k < i ==> nodes[k] == Collide(c, alg, draws).nodes[k]
      invariant forall k :: i <= k < |nodes| ==> nodes[k] == c.nodes[k]
    {
      if nodes[i].nextSlot == c.now {
        var retransmits := nodes[i].retransmits + 1;
        nodes := nodes[i := Node(nodes[i].packets, c.now + draws[i], retransmits)];
      }
    }
  }

  datatype Progress = Running(channel: Channel) | Halted(channel: Channel)

  /** The loop body with its exit test: halt when `packets_transmitted`
      reaches `packet_count * node_count`, else wait one tick. `nodeCount` is
      the parsed `-n`, which may differ from the number of nodes (a negative
      `-n` gives no nodes at all). */
  function Step(c: Channel, alg: Algorithm, draws: seq<int>, packetsPerNode: int, nodeCount: int): (r: Progress)
    requires DrawsInRange(c, alg, draws)
    ensures r.Halted? ==> r.channel.transmitted == packetsPerNode * nodeCount && r.channel.now == c.now
    ensures r.Running? ==> r.channel.transmitted != packetsPerNode * nodeCount && r.channel.now == c.now + 1
    ensures r.Halted? <==> Tick(c, alg, draws).transmitted == packetsPerNode * nodeCount
    ensures r.channel == if r.Halted? then Tick(c, alg, draws) else Tick(c, alg, draws).(now := c.now + 1)
  {
    var t := Tick(c, alg, draws);
    if t.transmitted == packetsPerNode * nodeCount then Halted(t) else Running(t.(now := t.now + 1))
  }

  /** The invariant of the node arrays: counts are non-negative and a node is
      idle (slot -1) exactly when it holds no packets. */
  predicate NodeOk(n: Node)
  {
    && n.packets >= 0
    && n.retransmits >= 0
    && (n.nextSlot == Idle <==> n.packets == 0)
  }

  predicate WellFormed(c: Channel)
  {
    && c.now >= 0
    && c.transmitted >= 0
    && forall k :: 0 <= k < |c.nodes| ==> NodeOk(c.nodes[k])
  }

  lemma InitialWellFormed(count: int)
    ensures WellFormed(Initial(count))
    ensures |Initial(count).nodes| == if count < 0 then 0 else count
  {
  }

  /** Arrival at a non-negative slot keeps the invariant. */
  lemma ArrivePreservesWellFormed(c: Channel, i: int, slot: int)
    requires WellFormed(c) && 0 <= i < |c.nodes| && slot >= 0
    ensures WellFormed(Arrive(c, i, slot))
  {
  }

  /** A tick keeps the invariant, and since ticks are never negative an idle
      node neither transmits nor collides. */
  lemma TickPreservesWellFormed(c: Channel, alg: Algorithm, draws: seq<int>)
    requires WellFormed(c) && DrawsInRange(c, alg, draws)
    ensures WellFormed(Tick(c, alg, draws))
    ensures forall k :: 0 <= k < |c.nodes| && c.nodes[k].packets == 0 ==>
              Tick(c, alg, draws).nodes[k] == c.nodes[k]
  {
    var r := Tick(c, alg, draws);
    forall k | 0 <= k < |c.nodes|
      ensures NodeOk(r.nodes[k])
    {
      if c.nodes[k].nextSlot == c.now {
        var count := CountAt(Slots(c.nodes), c.now);
        if count == 1 {
          assert r == Succeed(c);
        } else {
          CountAtZero(Slots(c.nodes), c.now);
          assert r == Collide(c, alg, draws);
        }
      }
    }
  }

  /** Total packets queued over all nodes. */
  function Queued(nodes: seq<Node>): int
  {
    if |nodes| == 0 then 0 else Queued(nodes[..|nodes| - 1]) + nodes[|nodes| - 1].packets
  }

  lemma {:induction false} QueuedUpdate(nodes: seq<Node>, i: int, n: Node)
    requires 0 <= i < |nodes|
    ensures Queued(nodes[i := n]) == Queued(nodes) - nodes[i].packets + n.packets
  {
    var last := |nodes| - 1;
    assert nodes[i := n][..last] == if i == last then nodes[..last] else nodes[..last][i := n];
    if i < last {
      QueuedUpdate(nodes[..last], i, n);
    }
  }

  lemma {:induction false} QueuedSamePackets(a: seq<Node>, b: seq<Node>)
    requires |a| == |b|
    requires forall k :: 0 <= k < |a| ==> a[k].packets == b[k].packets
    ensures Queued(a) == Queued(b)
  {
    if |a| > 0 {
      QueuedSamePackets(a[..|a| - 1], b[..|b| - 1]);
    }
  }

  /** No packet is lost or invented: an arrival adds one queued packet, and a
      tick moves at most one packet from the queues to the transmitted count. */
  lemma ArriveAddsOnePacket(c: Channel, i: int, slot: int)
    requires 0 <= i < |c.nodes|
    ensures Queued(Arrive(c, i, slot).nodes) == Queued(c.nodes) + 1
  {
    var n := c.nodes[i];
    var next := if n.packets + 1 == 1 then slot else n.nextSlot;
    QueuedUpdate(c.nodes, i, Node(n.packets + 1, next, n.retransmits));
  }

  lemma TickConservesPackets(c: Channel, alg: Algorithm, draws: seq<int>)
    requires DrawsInRange(c, alg, draws)
    ensures var r := Tick(c, alg, draws);
            Queued(r.nodes) + r.transmitted == Queued(c.nodes) + c.transmitted
  {
    var slots := Slots(c.nodes);
    var count := CountAt(slots, c.now);
    if count == 1 {
      FirstAtFindsUnique(slots, c.now);
      var i := FirstAt(slots, c.now);
      var packets := c.nodes[i].packets - 1;
      QueuedUpdate(c.nodes, i, Node(packets, if packets == 0 then Idle else c.now + 1, 0));
    } else if count > 1 {
      QueuedSamePackets(c.nodes, Collide(c, alg, draws).nodes);
    }
  }

  /** With every queue empty, every node is idle. */
  lemma {:induction false} NothingQueuedMeansIdle(nodes: seq<Node>)
    requires forall k :: 0 <= k < |nodes| ==> NodeOk(nodes[k])
    requires Queued(nodes) == 0
    ensures forall k :: 0 <= k < |nodes| ==> nodes[k].packets == 0 && nodes[k].nextSlot == Idle
  {
    if |nodes| > 0 {
      var last := |nodes| - 1;
      QueuedNonNegative(nodes[..last]);
      NothingQueuedMeansIdle(nodes[..last]);
      assert forall k :: 0 <= k < last ==> nodes[k] == nodes[..last][k];
    }
  }

  lemma {:induction false} QueuedNonNegative(nodes: seq<Node>)
    requires forall k :: 0 <= k < |nodes| ==> NodeOk(nodes[k])
    ensures Queued(nodes) >= 0
  {
    if |nodes| > 0 {
      QueuedNonNegative(nodes[..|nodes| - 1]);
    }
  }

  datatype Event = PacketArrives(node: int, slot: int) | SlotEnds(draws: seq<int>)

  /** Applies one resume of a packet process or of the slot driver; None for
      a resume the scripts never perform (an unknown node, a negative arrival
      slot, draws outside the windows). */
  function Apply(c: Channel, alg: Algorithm, e: Event): Option<Channel>
  {
    match e
    case PacketArrives(i, slot) =>
      if 0 <= i < |c.nodes| && slot >= 0 then Some(Arrive(c, i, slot)) else None
    case SlotEnds(draws) =>
      if DrawsInRange(c, alg, draws) then
        var t := Tick(c, alg, draws);
        Some(t.(now := t.now + 1))
      else None
  }

  /** The spawning loop for one node: its k-th packet arrives at the running
      total of its gaps and asks for the ceiling of that time as its slot.
      With non-negative gaps the slots are non-negative and in order. */
  method SpawnNode(node: int, gaps: seq<real>) returns (arrivals: seq<Event>)
    ensures |arrivals| == |gaps|
    ensures forall k :: 0 <= k < |gaps| ==>
              arrivals[k] == PacketArrives(node, Arrivals.Ceil(Arrivals.Sum(gaps[..k + 1])))
    ensures Arrivals.NonNegative(gaps) ==>
              forall k, l :: 0 <= k <= l < |arrivals| ==> 0 <= arrivals[k].slot <= arrivals[l].slot
  {
    var times := Arrivals.ArrivalTimes(gaps);
    arrivals := seq(|gaps|, k requires 0 <= k < |gaps| => PacketArrives(node, Arrivals.Ceil(times[k])));
    if Arrivals.NonNegative(gaps) {
      forall k, l | 0 <= k <= l < |arrivals|
        ensures 0 <= arrivals[k].slot <= arrivals[l].slot
      {
        Arrivals.ArrivalTimesNondecreasing(gaps, k, l);
        Arrivals.CeilMonotone(times[k], times[l]);
      }
    }
  }

  function Run(c: Channel, alg: Algorithm, events: seq<Event>): Option<Channel>
    decreases |events|
  {
    if |events| == 0 then Some(c)
    else match Apply(c, alg, events[0])
      case None => None
      case Some(c') => Run(c', alg, events[1..])
  }

  function ArrivalCount(events: seq<Event>): nat
  {
    if |events| == 0 then 0
    else (if events[0].PacketArrives? then 1 else 0) + ArrivalCount(events[1..])
  }

  lemma {:induction false} RunPreservesWellFormed(c: Channel, alg: Algorithm, events: seq<Event>)
    requires WellFormed(c)
    requires Run(c, alg, events).Some?
    ensures var r := Run(c, alg, events).value;
            && WellFormed(r)
            && |r.nodes| == |c.nodes|
            && Queued(r.nodes) + r.transmitted == Queued(c.nodes) + c.transmitted + ArrivalCount(events)
    decreases |events|
  {
    if |events| > 0 {
      var c' := Apply(c, alg, events[0]).value;
      match events[0] {
        case PacketArrives(i, slot) =>
          ArrivePreservesWellFormed(c, i, slot);
          ArriveAddsOnePacket(c, i, slot);
        case SlotEnds(draws) =>
          TickPreservesWellFormed(c, alg, draws);
          TickConservesPackets(c, alg, draws);
      }
      RunPreservesWellFormed(c', alg, events[1..]);
    }
  }

  /** From the initial arrays, every reachable state keeps the idle-iff-empty
      invariant, and transmitted plus queued packets equals arrived packets. */
  lemma RunFromInitial(count: int, alg: Algorithm, events: seq<Event>)
    requires Run(Initial(count), alg, events).Some?
    ensures var r := Run(Initial(count), alg, events).value;
            && WellFormed(r)
            && |r.nodes| == (if count < 0 then 0 else count)
            && Queued(r.nodes) + r.transmitted == ArrivalCount(events)
  {
    InitialWellFormed(count);
    assert Queued(InitialNodes(count)) == 0 by {
      ZeroQueued(InitialNodes(count));
    }
    RunPreservesWellFormed(Initial(count), alg, events);
  }

  lemma {:induction false} ZeroQueued(nodes: seq<Node>)
    requires forall k :: 0 <= k < |nodes| ==> nodes[k].packets == 0
    ensures Queued(nodes) == 0
  {
    if |nodes| > 0 {
      ZeroQueued(nodes[..|nodes| - 1]);
    }
  }

  /** When the driver halts after all arrivals, every node is idle again: the
      target is reached only once every arrived packet has been sent. */
  lemma HaltedMeansAllSent(c: Channel, alg: Algorithm, draws: seq<int>, packetsPerNode: int, nodeCount: int)
    requires WellFormed(c) && DrawsInRange(c, alg, draws)
    requires Queued(c.nodes) + c.transmitted == packetsPerNode * nodeCount
    ensures Step(c, alg, draws, packetsPerNode, nodeCount).Halted? ==>
              forall k :: 0 <= k < |c.nodes| ==>
                Step(c, alg, draws, packetsPerNode, nodeCount).channel.nodes[k].nextSlot == Idle
  {
    TickPreservesWellFormed(c, alg, draws);
    TickConservesPackets(c, alg, draws);
    if Step(c, alg, draws, packetsPerNode, nodeCount).Halted? {
      NothingQueuedMeansIdle(Tick(c, alg, draws).nodes);
    }
  }

  /** A negative target, from a negative `-n`, is never met: the success
      counter starts at 0 and never falls, so the driver ticks forever. */
  lemma NegativeTargetNeverHalts(c: Channel, alg: Algorithm, draws: seq<int>, packetsPerNode: int, nodeCount: int)
    requires WellFormed(c) && DrawsInRange(c, alg, draws)
    requires packetsPerNode * nodeCount < 0
    ensures Step(c, alg, draws, packetsPerNode, nodeCount).Running?
  {
    TickPreservesWellFormed(c, alg, draws);
  }

  /** Every node holding packets is scheduled at the current tick or later,
      so the driver, which only ever looks at `now`, will reach it. */
  predicate NoneStranded(c: Channel)
  {
    forall k :: 0 <= k < |c.nodes| && c.nodes[k].packets > 0 ==> c.nodes[k].nextSlot >= c.now
  }

  /** As written, `ceil(uniform(0, bound))` is 0 when `uniform` returns 0.0:
      a node i colliding with some node j is then rescheduled at the tick just
      processed, which the driver has already left behind. */
  lemma ZeroDrawStrandsNode(c: Channel, alg: Algorithm, draws: seq<int>, i: int, j: int)
    requires WellFormed(c) && DrawsInRange(c, alg, draws)
    requires 0 <= i < |c.nodes| && 0 <= j < |c.nodes| && i != j
    requires c.nodes[i].nextSlot == c.now && c.nodes[j].nextSlot == c.now
    requires draws[i] == 0
    ensures Apply(c, alg, SlotEnds(draws)).Some?
    ensures var r := Apply(c, alg, SlotEnds(draws)).value;
            r.nodes[i].packets > 0 && r.nodes[i].nextSlot < r.now && !NoneStranded(r)
  {
    var slots := Slots(c.nodes);
    assert slots[i] == c.now && slots[j] == c.now;
    assert Classify(slots, c.now) == Collision;
    var t := Collide(c, alg, draws);
    assert Tick(c, alg, draws) == t;
    assert t.nodes[i].nextSlot == c.now;
  }

  /** One resume leaves a stranded node where it is: an arrival only adds to
      its queue, and a tick never looks at a slot behind it. */
  lemma ApplyKeepsStranded(c: Channel, alg: Algorithm, e: Event, i: int)
    requires WellFormed(c) && 0 <= i < |c.nodes|
    requires c.nodes[i].packets > 0 && c.nodes[i].nextSlot < c.now
    requires Apply(c, alg, e).Some?
    ensures var r := Apply(c, alg, e).value;
            && WellFormed(r) && |r.nodes| == |c.nodes|
            && r.nodes[i].packets >= c.nodes[i].packets
            && r.nodes[i].nextSlot == c.nodes[i].nextSlot < r.now
  {
    match e {
      case PacketArrives(j, slot) => ArrivePreservesWellFormed(c, j, slot);
      case SlotEnds(draws) => TickPreservesWellFormed(c, alg, draws);
    }
  }

  /** A stranded node stays stranded: no later arrival or tick reschedules it,
      so its packets are never sent and `packets_transmitted` never reaches
      a target that counts them. */
  lemma {:induction false} StrandedStaysStranded(c: Channel, alg: Algorithm, events: seq<Event>, i: int)
    requires WellFormed(c) && 0 <= i < |c.nodes|
    requires c.nodes[i].packets > 0 && c.nodes[i].nextSlot < c.now
    requires Run(c, alg, events).Some?
    ensures |Run(c, alg, events).value.nodes| == |c.nodes|
    ensures Run(c, alg, events).value.nodes[i].nextSlot == c.nodes[i].nextSlot
    ensures Run(c, alg, events).value.nodes[i].packets >= c.nodes[i].packets
    decreases |events|
  {
    if |events| > 0 {
      ApplyKeepsStranded(c, alg, events[0], i);
      StrandedStaysStranded(Apply(c, alg, events[0]).value, alg, events[1..], i);
    }
  }

  /** One node's queue is part of the total. */
  lemma QueuedCoversNode(nodes: seq<Node>, i: int)
    requires forall k :: 0 <= k < |nodes| ==> NodeOk(nodes[k])
    requires 0 <= i < |nodes|
    ensures nodes[i].packets <= Queued(nodes)
  {
    var emptied := nodes[i := Node(0, Idle, nodes[i].retransmits)];
    QueuedUpdate(nodes, i, Node(0, Idle, nodes[i].retransmits));
    QueuedNonNegative(emptied);
  }

  /** A stranded node's packets are never counted as sent: the success counter
      stays at least that many short of every packet that has arrived, so with
      `packet_count * node_count` packets in all it never reaches its target. */
  lemma StrandedPacketsNeverSent(c: Channel, alg: Algorithm, events: seq<Event>, i: int)
    requires WellFormed(c) && 0 <= i < |c.nodes|
    requires c.nodes[i].packets > 0 && c.nodes[i].nextSlot < c.now
    requires Run(c, alg, events).Some?
    ensures Run(c, alg, events).value.transmitted + c.nodes[i].packets
              <= c.transmitted + Queued(c.nodes) + ArrivalCount(events)
  {
    var r := Run(c, alg, events).value;
    StrandedStaysStranded(c, alg, events, i);
    RunPreservesWellFormed(c, alg, events);
    QueuedCoversNode(r.nodes, i);
  }

  /** The evidently intended backoff: wait at least one tick. */
  function LiveDraws(draws: seq<int>): (live: seq<int>)
    ensures |live| == |draws|
    ensures forall k :: 0 <= k < |draws| ==> live[k] >= 1 && (draws[k] >= 1 ==> live[k] == draws[k])
  {
    seq(|draws|, k requires 0 <= k < |draws| => if draws[k] < 1 then 1 else draws[k])
  }

  /** The corrected tick: the same step with every zero draw raised to one.
      The raised draws still lie in the backoff window, so everything proved
      about `Tick` holds of it; in addition it strands no node. */
  function TickCorrected(c: Channel, alg: Algorithm, draws: seq<int>): (r: Channel)
    requires WellFormed(c) && NoneStranded(c) && DrawsInRange(c, alg, draws)
    ensures DrawsInRange(c, alg, LiveDraws(draws))
    ensures r == Tick(c, alg, LiveDraws(draws)).(now := c.now + 1)
    ensures WellFormed(r) && NoneStranded(r)
    ensures r.now == c.now + 1 && |r.nodes| == |c.nodes|
    ensures Queued(r.nodes) + r.transmitted == Queued(c.nodes) + c.transmitted
  {
    var live := LiveDraws(draws);
    forall k | 0 <= k < |c.nodes| && c.nodes[k].nextSlot == c.now
      ensures 0 <= live[k] <= BackoffBound(alg, c.nodes[k].retransmits + 1)
    {
      BackoffBoundRange(alg, c.nodes[k].retransmits + 1);
    }
    var t := Tick(c, alg, live);
    TickPreservesWellFormed(c, alg, live);
    TickConservesPackets(c, alg, live);
    var r := t.(now := t.now + 1);
    forall k | 0 <= k < |c.nodes| && r.nodes[k].packets > 0
      ensures r.nodes[k].nextSlot >= r.now
    {
      if c.nodes[k].nextSlot == c.now {
        var count := CountAt(Slots(c.nodes), c.now);
        if count == 1 {
          assert t == Succeed(c);
        } else {
          CountAtZero(Slots(c.nodes), c.now);
          assert t == Collide(c, alg, live);
        }
      }
    }
    r
  }

  /** Arrivals keep the property when their slot is not behind the driver. */
  lemma ArriveKeepsNoneStranded(c: Channel, i: int, slot: int)
    requires NoneStranded(c) && 0 <= i < |c.nodes| && slot >= c.now
    ensures NoneStranded(Arrive(c, i, slot))
  {
  }

}
