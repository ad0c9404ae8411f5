/** The two list queries the slot driver makes on `next_transmit_timeslot`:
    how many nodes are scheduled at the current tick (`list.count`) and which
    node that is (`list.index`), and the three-way classification of a tick
    that the count decides. */
module SlotCount {

  /** `slots.count(t)` */
  function CountAt(slots: seq<int>, t: int): nat
  {
    if |slots| == 0 then 0
    else CountAt(slots[..|slots| - 1], t) + (if slots[|slots| - 1] == t then 1 else 0)
  }

  /** `slots.index(t)`: the first position holding t, or |slots| when there is
      none (where Python would raise; the driver only asks after a count of 1). */
  function FirstAt(slots: seq<int>, t: int): (i: nat)
    ensures i <= |slots|
    ensures i < |slots| ==> slots[i] == t
    ensures forall j :: 0 <= j < i ==> slots[j] != t
  {
    if |slots| == 0 then 0
    else if slots[0] == t then 0
    else 1 + FirstAt(slots[1..], t)
  }

  /** The count is the multiplicity of t in the slot multiset. */
  lemma {:induction false} CountAtIsMultiplicity(slots: seq<int>, t: int)
    ensures CountAt(slots, t) == multiset(slots)[t]
  {
    if |slots| > 0 {
      var n := |slots| - 1;
      assert slots == slots[..n] + [slots[n]];
      CountAtIsMultiplicity(slots[..n], t);
    }
  }

  /** No node at t exactly when the count is 0. */
  lemma {:induction false} CountAtZero(slots: seq<int>, t: int)
    ensures CountAt(slots, t) == 0 <==> forall j :: 0 <= j < |slots| ==> slots[j] != t
  {
    if |slots| > 0 {
      var n := |slots| - 1;
      CountAtZero(slots[..n], t);
    }
  }

  /** When node i is at t, the count is 1 exactly when no other node is. */
  lemma {:induction false} CountAtOne(slots: seq<int>, t: int, i: int)
    requires 0 <= i < |slots| && slots[i] == t
    ensures CountAt(slots, t) == 1 <==> forall j :: 0 <= j < |slots| && j != i ==> slots[j] != t
  {
    var n := |slots| - 1;
    if i == n {
      CountAtZero(slots[..n], t);
    } else {
      CountAtOne(slots[..n], t, i);
      if slots[n] == t {
        CountAtZero(slots[..n], t);
      }
    }
  }

  /** Two or more nodes at t exactly when two distinct positions hold t. */
  lemma {:induction false} CountAtTwo(slots: seq<int>, t: int)
    ensures CountAt(slots, t) >= 2 <==>
            exists i, j :: 0 <= i < j < |slots| && slots[i] == t && slots[j] == t
  {
    if |slots| > 0 {
      var n := |slots| - 1;
      var pre := slots[..n];
      CountAtTwo(pre, t);
      CountAtZero(pre, t);
      if slots[n] == t {
        if CountAt(slots, t) >= 2 {
          var i :| 0 <= i < |pre| && pre[i] == t;
          assert slots[i] == t && slots[n] == t;
        }
      } else {
        if exists i, j :: 0 <= i < j < |slots| && slots[i] == t && slots[j] == t {
          var i, j :| 0 <= i < j < |slots| && slots[i] == t && slots[j] == t;
          assert pre[i] == t && pre[j] == t;
        }
      }
    }
  }

  datatype Outcome = Silence | Success | Collision

  /** Lines `count(now) == 1` / `count(now) > 1` of the slot driver, stated by
      which positions hold the current tick. */
  function Classify(slots: seq<int>, t: int): (o: Outcome)
    ensures o == Silence <==> forall j :: 0 <= j < |slots| ==> slots[j] != t
    ensures o == Success <==>
            exists i :: 0 <= i < |slots| && slots[i] == t &&
                        forall j :: 0 <= j < |slots| && j != i ==> slots[j] != t
    ensures o == Collision <==>
            exists i, j :: 0 <= i < j < |slots| && slots[i] == t && slots[j] == t
  {
    var c := CountAt(slots, t);
    CountAtZero(slots, t);
    CountAtTwo(slots, t);
    if c == 1 then
      var i := FirstAt(slots, t);
      CountAtOne(slots, t, i);
      Success
    else if c > 1 then
      Collision
    else
      Silence
  }

  /** Permuting the nodes never changes the classification of a tick: only the
      number of nodes at the tick matters, not the order they are visited in. */
  lemma ClassifyOrderIndependent(a: seq<int>, b: seq<int>, t: int)
    requires multiset(a) == multiset(b)
    ensures Classify(a, t) == Classify(b, t)
  {
    CountAtIsMultiplicity(a, t);
    CountAtIsMultiplicity(b, t);
  }

  /** With exactly one node at t, `index` finds that node. */
  lemma FirstAtFindsUnique(slots: seq<int>, t: int)
    requires CountAt(slots, t) == 1
    ensures FirstAt(slots, t) < |slots|
    ensures forall j :: 0 <= j < |slots| && slots[j] == t ==> j == FirstAt(slots, t)
  {
    CountAtZero(slots, t);
    CountAtOne(slots, t, FirstAt(slots, t));
  }

}
