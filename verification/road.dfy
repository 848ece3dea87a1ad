/**
 One approach road's worker: it waits for its green, lets a batch of cars
 through, and hands green on to the next road while it still holds it.
 */
module RoadWorker {
  import opened Signal

  /** Every draw is a car count the worker can produce: between 1 and 5. */
  predicate CarCounts(draws: seq<int>)
  {
    forall i :: 0 <= i < |draws| ==> 1 <= draws[i] <= 5
  }

  /** The total of a sequence of car counts. */
  function Sum(s: seq<int>): (t: int)
  {
    if s == [] then 0 else Sum(s[..|s| - 1]) + s[|s| - 1]
  }

  lemma SumSnoc(s: seq<int>, x: int)
    ensures Sum(s + [x]) == Sum(s) + x
  {
    assert (s + [x])[..|s|] == s;
  }

  /** Extending a prefix by one element adds that element to the sum. */
  lemma PrefixSum(s: seq<int>, i: nat)
    requires i < |s|
    ensures Sum(s[..i + 1]) == Sum(s[..i]) + s[i]
  {
    assert s[..i + 1] == s[..i] + [s[i]];
    SumSnoc(s[..i], s[i]);
  }

  /** `n` green cycles let through at least `n` and at most `5n` cars. */
  lemma {:induction false} SumBounds(s: seq<int>)
    requires CarCounts(s)
    ensures |s| <= Sum(s) <= 5 * |s|
  {
    if s != [] {
      SumBounds(s[..|s| - 1]);
    }
  }

  /** `s` with every occurrence of `x` removed, the rest kept in order. */
  function Without(s: seq<string>, x: string): (t: seq<string>)
    ensures forall r :: r in t <==> r in s && r != x
    ensures |t| <= |s|
    ensures x !in s ==> t == s
  {
    if s == [] then []
    else if s[0] == x then Without(s[1..], x)
    else [s[0]] + Without(s[1..], x)
  }

  /**
   Removing the element at place `i` of a list without repetitions leaves
   the elements before it followed by the elements after it.
   */
  lemma {:induction false} WithoutAt(s: seq<string>, i: nat)
    requires i < |s|
    requires forall j, k :: 0 <= j < k < |s| ==> s[j] != s[k]
    ensures Without(s, s[i]) == s[..i] + s[i + 1..]
  {
    if i == 0 {
      assert s[0] !in s[1..];
    } else {
      WithoutAt(s[1..], i - 1);
      assert s[1..][i - 1] == s[i];
      assert s[1..][..i - 1] == s[1..i];
      assert s[..i] == [s[0]] + s[1..i];
    }
  }

  /** `printRedRoads`: the roads other than `roadName`, in the fixed order, without printing them. */
  function RedRoads(roadName: string): (reds: seq<string>)
    ensures forall r :: r in reds <==> r in Roads && r != roadName
  {
    Without(Roads, roadName)
  }

  /**
   For a road, the red roads are exactly the three other roads, in cycle
   order: the roads before it followed by the roads after it.
   */
  lemma RedRoadsInOrder(roadName: string)
    requires roadName in Roads
    ensures RedRoads(roadName) == Roads[..Position(roadName)] + Roads[Position(roadName) + 1..]
    ensures |RedRoads(roadName)| == 3
  {
    WithoutAt(Roads, Position(roadName));
  }

  /** The worker of one road: its name, the shared controller and its running total. */
  class Road {
    const roadName: string
    const controller: TrafficSignalController
    var carsPassed: int
    /** The number of green cycles this worker has completed; it exists only to state the bounds on `carsPassed`. */
    ghost var cycles: nat

    /** Each completed cycle let through between 1 and 5 cars. */
    ghost predicate Valid()
      reads this
    {
      cycles <= carsPassed <= 5 * cycles
    }

    /** A new worker has let no cars through. */
    constructor (roadName: string, controller: TrafficSignalController)
      ensures this.roadName == roadName && this.controller == controller
      ensures Valid() && carsPassed == 0 && cycles == 0
    {
      this.roadName := roadName;
      this.controller := controller;
      carsPassed := 0;
      cycles := 0;
    }

    /**
     The end of a green cycle: the worker hands green on only if its road
     still holds it, and then green moves to the next road; otherwise the
     signal is left alone.
     */
    method HandOff()
      requires controller.Valid()
      modifies controller
      ensures controller.Valid()
      ensures old(controller.IsGreen(roadName)) ==>
                controller.currentGreen == Next(roadName) && !controller.IsGreen(roadName)
                && controller.switches == old(controller.switches) + 1
      ensures !old(controller.IsGreen(roadName)) ==>
                controller.currentGreen == old(controller.currentGreen)
                && controller.switches == old(controller.switches)
    {
      if controller.IsGreen(roadName) {
        controller.SwitchSignal();
      }
    }

    /**
     One pass of the worker's loop: wait for green, let `cars` through, then
     hand green on. Afterwards the next road holds green and the total has
     grown by exactly `cars`.
     */
    method Cycle(cars: int)
      requires Valid() && controller.Valid()
      requires roadName in Roads && 1 <= cars <= 5
      modifies this, controller
      ensures Valid() && controller.Valid()
      ensures carsPassed == old(carsPassed) + cars && cycles == old(cycles) + 1
      ensures controller.currentGreen == Next(roadName)
      ensures controller.switches
              == old(controller.switches) + CyclicDistance(old(controller.currentGreen), roadName) + 1
    {
      controller.WaitForGreen(roadName);
      carsPassed := carsPassed + cars;
      cycles := cycles + 1;
      HandOff();
    }

    /**
     The worker's loop, run for as many passes as there are draws: the total
     grows by the sum of the draws, so it never decreases, and each pass
     adds between 1 and 5. The first pass waits for this road's green; each
     later pass waits for the other three roads, so the signal moves four
     places per pass. With no passes the signal is left alone.
     */
    method Run(draws: seq<int>)
      requires Valid() && controller.Valid()
      requires roadName in Roads && CarCounts(draws)
      modifies this, controller
      ensures Valid() && controller.Valid()
      ensures carsPassed == old(carsPassed) + Sum(draws)
      ensures cycles == old(cycles) + |draws|
      ensures old(carsPassed) + |draws| <= carsPassed <= old(carsPassed) + 5 * |draws|
      ensures draws != [] ==> controller.currentGreen == Next(roadName)
      ensures draws != [] ==>
                controller.switches
                == old(controller.switches) + CyclicDistance(old(controller.currentGreen), roadName) + 4 * |draws| - 3
      ensures draws == [] ==>
                controller.currentGreen == old(controller.currentGreen)
                && controller.switches == old(controller.switches)
    {
      var i := 0;
      while i < |draws|
        invariant 0 <= i <= |draws|
        invariant Valid() && controller.Valid()
        invariant carsPassed == old(carsPassed) + Sum(draws[..i])
        invariant cycles == old(cycles) + i
        invariant i > 0 ==> controller.currentGreen == Next(roadName)
        invariant i > 0 ==>
                    controller.switches
                    == old(controller.switches) + CyclicDistance(old(controller.currentGreen), roadName) + 4 * i - 3
        invariant i == 0 ==>
                    controller.currentGreen == old(controller.currentGreen)
                    && controller.switches == old(controller.switches)
      {
        if i > 0 {
          NextDistance(roadName);
        }
        Cycle(draws[i]);
        PrefixSum(draws, i);
        i := i + 1;
      }
      assert draws[..i] == draws;
      SumBounds(draws);
    }
  }
}
