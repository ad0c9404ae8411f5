/** Packet arrival times. Both simulations draw independent inter-arrival gaps
    and hand each packet the running total of the gaps so far
    (simulation1.py `simulate`, simulation2.py's spawning loop). */
module Arrivals {

  /** Sum of a sequence of gaps, peeling off the last one. */
  function Sum(xs: seq<real>): real
  {
    if |xs| == 0 then 0.0 else Sum(xs[..|xs| - 1]) + xs[|xs| - 1]
  }

  predicate NonNegative(xs: seq<real>)
  {
    forall i :: 0 <= i < |xs| ==> xs[i] >= 0.0
  }

  /** The spawning loop: `totalTime += interval` and the packet gets `totalTime`. */
  method ArrivalTimes(gaps: seq<real>) returns (times: seq<real>)
    ensures |times| == |gaps|
    ensures forall i :: 0 <= i < |gaps| ==> times[i] == Sum(gaps[..i + 1])
  {
    var total := 0.0;
    times := [];
    var i := 0;
    while i < |gaps|
      invariant 0 <= i <= |gaps|
      invariant |times| == i
      invariant total == Sum(gaps[..i])
      invariant forall k :: 0 <= k < i ==> times[k] == Sum(gaps[..k + 1])
    {
      assert gaps[..i + 1][..i] == gaps[..i];
      total := total + gaps[i];
      times := times + [total];
      i := i + 1;
    }
  }

  /** With non-negative gaps a longer prefix never sums to less. */
  lemma {:induction false} SumPrefixMonotone(xs: seq<real>, i: nat, j: nat)
    requires NonNegative(xs)
    requires i <= j <= |xs|
    ensures 0.0 <= Sum(xs[..i]) <= Sum(xs[..j])
  {
    if j == 0 {
      assert xs[..0] == [];
    } else {
      assert xs[..j][..j - 1] == xs[..j - 1];
      // when i == j the earlier prefix is the one just short of j
      SumPrefixMonotone(xs, if i == j then j - 1 else i, j - 1);
    }
  }

  /** Arrival times never decrease in packet index, and are never negative. */
  lemma ArrivalTimesNondecreasing(gaps: seq<real>, i: nat, j: nat)
    requires NonNegative(gaps)
    requires i <= j < |gaps|
    ensures 0.0 <= Sum(gaps[..i + 1]) <= Sum(gaps[..j + 1])
  {
    SumPrefixMonotone(gaps, i + 1, j + 1);
  }

  /** `math.ceil` of a time, as an integer slot. */
  function Ceil(x: real): (n: int)
    ensures x <= n as real < x + 1.0
  {
    -((-x).Floor)
  }

  /** Rounding up keeps order and keeps non-negative times at non-negative slots. */
  lemma CeilMonotone(x: real, y: real)
    requires 0.0 <= x <= y
    ensures 0 <= Ceil(x) <= Ceil(y)
  {
  }

}
