/** The finite-buffer single-server queue of simulation1.py. Each packet, on
    arrival, is either dropped (buffer full) or admitted; an admitted packet
    waits for the one server, is served, and leaves. The model keeps the
    counters the script keeps (`packetsInBuffer`, `droppedPackets`) plus the
    admitted/departed tallies that the classification argument needs, and
    reduces the server to one flag: at most one admitted packet is in service. */
module FiniteBuffer {

  import opened Options
  import Arrivals

  datatype Buffer = Buffer(
    occupancy: int,   // packetsInBuffer: admitted and not yet departed
    serving: bool,    // the single-capacity server is held
    dropped: nat,     // droppedPackets
    admitted: nat,
    departed: nat)

  /** The state before any packet arrives. */
  const Empty: Buffer := Buffer(0, false, 0, 0, 0)

  function Max(a: int, b: int): int
  {
    if a < b then b else a
  }

  /** What holds at every resume point of every packet process. A negative
      capacity admits nothing, so occupancy then stays at 0. */
  predicate Valid(b: Buffer, capacity: int)
  {
    && 0 <= b.occupancy <= Max(capacity, 0)
    && b.occupancy == b.admitted - b.departed
    && (b.serving ==> b.occupancy >= 1)
  }

  /** A packet reaches the buffer: drop it when `packetsInBuffer >= BUFFER_CAPACITY`,
      otherwise count it in. */
  function Arrive(b: Buffer, capacity: int): (r: Buffer)
    ensures r.dropped + r.admitted == b.dropped + b.admitted + 1
    ensures r.dropped == b.dropped + 1 <==> b.occupancy >= capacity
    ensures b.occupancy >= capacity ==> r.admitted == b.admitted && r.occupancy == b.occupancy
    ensures b.occupancy < capacity ==>
              r.dropped == b.dropped && r.admitted == b.admitted + 1 && r.occupancy == b.occupancy + 1
    ensures r.serving == b.serving && r.departed == b.departed
  {
    if b.occupancy >= capacity then
      b.(dropped := b.dropped + 1)
    else
      b.(occupancy := b.occupancy + 1, admitted := b.admitted + 1)
  }

  /** The request is granted (`yield req` returns): only when the server is
      free and some admitted packet is waiting for it. */
  function Serve(b: Buffer): (r: Option<Buffer>)
    ensures r.Some? <==> !b.serving && b.occupancy > 0
    ensures r.Some? ==> r.value.serving && r.value.occupancy == b.occupancy
    ensures r.Some? ==> r.value.dropped == b.dropped && r.value.admitted == b.admitted
                        && r.value.departed == b.departed
  {
    if !b.serving && b.occupancy > 0 then Some(b.(serving := true)) else None
  }

  /** Service ends: the server is released and `packetsInBuffer -= 1`. */
  function Depart(b: Buffer): (r: Option<Buffer>)
    ensures r.Some? <==> b.serving
    ensures r.Some? ==> !r.value.serving && r.value.occupancy == b.occupancy - 1
                        && r.value.departed == b.departed + 1 && r.value.dropped == b.dropped
                        && r.value.admitted == b.admitted
  {
    if b.serving then Some(b.(occupancy := b.occupancy - 1, serving := false, departed := b.departed + 1))
    else None
  }

  lemma EmptyIsValid(capacity: int)
    ensures Valid(Empty, capacity)
  {
  }

  /** Each step keeps the invariant: occupancy stays within [0, B]. */
  lemma ArrivePreservesValid(b: Buffer, capacity: int)
    requires Valid(b, capacity)
    ensures Valid(Arrive(b, capacity), capacity)
  {
  }

  lemma ServePreservesValid(b: Buffer, capacity: int)
    requires Valid(b, capacity) && Serve(b).Some?
    ensures Valid(Serve(b).value, capacity)
  {
  }

  lemma DepartPreservesValid(b: Buffer, capacity: int)
    requires Valid(b, capacity) && Depart(b).Some?
    ensures Valid(Depart(b).value, capacity)
  {
  }

  /** An admitted packet that is served and leaves gives back exactly the
      buffer slot its admission took. */
  lemma DepartureUndoesAdmission(b: Buffer, capacity: int)
    requires Valid(b, capacity) && !b.serving && b.occupancy < capacity
    ensures Serve(Arrive(b, capacity)).Some?
    ensures Depart(Serve(Arrive(b, capacity)).value).Some?
    ensures var d := Depart(Serve(Arrive(b, capacity)).value).value;
            d.occupancy == b.occupancy && !d.serving && d.dropped == b.dropped
            && d.admitted == b.admitted + 1 && d.departed == b.departed + 1
  {
  }

  datatype Event = PacketArrives | ServiceStarts | PacketDeparts

  function Apply(b: Buffer, capacity: int, e: Event): Option<Buffer>
  {
    match e
    case PacketArrives => Some(Arrive(b, capacity))
    case ServiceStarts => Serve(b)
    case PacketDeparts => Depart(b)
  }

  /** Replays an interleaving of packet events; None if some event was not
      possible at its point (a grant with the server busy, a departure with
      nothing in service). */
  function Run(b: Buffer, capacity: int, events: seq<Event>): Option<Buffer>
    decreases |events|
  {
    if |events| == 0 then Some(b)
    else match Apply(b, capacity, events[0])
      case None => None
      case Some(b') => Run(b', capacity, events[1..])
  }

  function ArrivalCount(events: seq<Event>): nat
  {
    if |events| == 0 then 0
    else (if events[0] == PacketArrives then 1 else 0) + ArrivalCount(events[1..])
  }

  /** Along any interleaving the invariant holds, and every arriving packet is
      classified exactly once: dropped or admitted. */
  lemma {:induction false} RunPreservesValid(b: Buffer, capacity: int, events: seq<Event>)
    requires Valid(b, capacity)
    requires Run(b, capacity, events).Some?
    ensures Valid(Run(b, capacity, events).value, capacity)
    ensures var r := Run(b, capacity, events).value;
            r.dropped + r.admitted == b.dropped + b.admitted + ArrivalCount(events)
    decreases |events|
  {
    if |events| > 0 {
      var b' := Apply(b, capacity, events[0]).value;
      match events[0] {
        case PacketArrives => ArrivePreservesValid(b, capacity);
        case ServiceStarts => ServePreservesValid(b, capacity);
        case PacketDeparts => DepartPreservesValid(b, capacity);
      }
      RunPreservesValid(b', capacity, events[1..]);
    }
  }

  /** From the empty buffer: occupancy never leaves [0, B] and
      dropped + admitted equals the number of packets that arrived. */
  lemma RunFromEmpty(capacity: int, events: seq<Event>)
    requires Run(Empty, capacity, events).Some?
    ensures var r := Run(Empty, capacity, events).value;
            && 0 <= r.occupancy <= Max(capacity, 0)
            && r.dropped + r.admitted == ArrivalCount(events)
  {
    RunPreservesValid(Empty, capacity, events);
  }

  /** With no buffer room at all nothing is ever admitted: `0 >= 0` holds at
      every arrival. */
  lemma {:induction false} NoRoomDropsAll(b: Buffer, capacity: int, events: seq<Event>)
    requires capacity <= 0 && Valid(b, capacity)
    requires Run(b, capacity, events).Some?
    ensures var r := Run(b, capacity, events).value;
            r.dropped == b.dropped + ArrivalCount(events) && r.admitted == b.admitted
    decreases |events|
  {
    if |events| > 0 {
      var b' := Apply(b, capacity, events[0]).value;
      match events[0] {
        case PacketArrives => ArrivePreservesValid(b, capacity);
        case ServiceStarts => ServePreservesValid(b, capacity);
        case PacketDeparts => DepartPreservesValid(b, capacity);
      }
      NoRoomDropsAll(b', capacity, events[1..]);
    }
  }

  lemma ZeroCapacityDropsAll(events: seq<Event>)
    requires Run(Empty, 0, events).Some?
    ensures Run(Empty, 0, events).value.dropped == ArrivalCount(events)
    ensures Run(Empty, 0, events).value.admitted == 0
  {
    NoRoomDropsAll(Empty, 0, events);
  }

  datatype PacketSpec = PacketSpec(arriveTime: real, serviceTime: real)

  /** The spawning loop of `simulate`: packet i arrives at the sum of the
      first i+1 gaps and carries the i-th service-time draw, both drawn in
      packet-index order. */
  method Spawn(gaps: seq<real>, serviceTimes: seq<real>) returns (packets: seq<PacketSpec>)
    requires |gaps| == |serviceTimes|
    ensures |packets| == |gaps|
    ensures forall i :: 0 <= i < |packets| ==>
              packets[i] == PacketSpec(Arrivals.Sum(gaps[..i + 1]), serviceTimes[i])
    ensures Arrivals.NonNegative(gaps) ==>
              forall i, j :: 0 <= i <= j < |packets| ==> 0.0 <= packets[i].arriveTime <= packets[j].arriveTime
  {
    var times := Arrivals.ArrivalTimes(gaps);
    packets := seq(|gaps|, i requires 0 <= i < |gaps| => PacketSpec(times[i], serviceTimes[i]));
    if Arrivals.NonNegative(gaps) {
      forall i, j | 0 <= i <= j < |packets|
        ensures 0.0 <= packets[i].arriveTime <= packets[j].arriveTime
      {
        Arrivals.ArrivalTimesNondecreasing(gaps, i, j);
      }
    }
  }

}
