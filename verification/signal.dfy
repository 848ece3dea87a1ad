/**
 The shared signal of a four-way intersection: the fixed, ordered set of
 approach roads and the controller that grants green to exactly one of them
 at a time, handing it on in round-robin order.
 */
module Signal {

  /** The approach roads, in the order in which green is handed on. */
  const Roads: seq<string> := ["North", "East", "South", "West"]

  /** `List.indexOf`: the position of the first occurrence of `x` in `s`, or -1 when `x` does not occur. */
  function IndexOf(s: seq<string>, x: string): (i: int)
    ensures -1 <= i < |s|
    ensures i == -1 <==> x !in s
    ensures 0 <= i ==> s[i] == x && x !in s[..i]
  {
    if |s| == 0 then -1
    else if s[0] == x then 0
    else
      var j := IndexOf(s[1..], x);
      if j == -1 then -1
      else
        assert s[..j + 1] == [s[0]] + s[1..][..j];
        j + 1
  }

  /** The place of `r` in the cycle, counted from North; -1 for a name that is not a road. */
  function Position(r: string): (i: int)
    ensures -1 <= i < |Roads|
    ensures i == -1 <==> r !in Roads
    ensures 0 <= i ==> Roads[i] == r
  {
    if r == "North" then 0
    else if r == "East" then 1
    else if r == "South" then 2
    else if r == "West" then 3
    else -1
  }

  /**
   The road that receives green after `r`: North, East, South, West, then
   North again. A name that is not a road is followed by North.
   */
  function Next(r: string): (n: string)
    ensures n in Roads
  {
    if r == "North" then "East"
    else if r == "East" then "South"
    else if r == "South" then "West"
    else "North"
  }

  /** The road that holds green after `k` hand-offs, starting from `r`. */
  function Advance(r: string, k: nat): (g: string)
  {
    if k == 0 then r else Next(Advance(r, k - 1))
  }

  /** How many hand-offs green needs to travel from `from` to `to`. */
  function CyclicDistance(from: string, to: string): (d: nat)
  {
    (Position(to) - Position(from)) % 4
  }

  /**
   `indexOf` on the road list agrees with the place in the cycle, for every
   string, including names that are not roads (both give -1).
   */
  lemma IndexOfRoads(r: string)
    ensures IndexOf(Roads, r) == Position(r)
  {
  }

  /**
   The hand-off table is what `switchSignal` computes: for every string `r`,
   the next road is the road at index `indexOf(r) + 1` modulo the number of
   roads, so a name outside the list is followed by North.
   */
  lemma NextByIndex(r: string)
    ensures Next(r) == Roads[(IndexOf(Roads, r) + 1) % |Roads|]
  {
    IndexOfRoads(r);
    NextStep(r);
    assert Roads[Position(Next(r))] == Next(r);
  }

  /**
   A hand-off moves green one place forward in the cycle and never leaves it
   where it was; a name outside the cycle (place -1) is followed by North
   (place 0).
   */
  lemma NextStep(r: string)
    ensures Position(Next(r)) == (Position(r) + 1) % 4
    ensures Next(r) != r
  {
  }

  // Facts about places in the cycle, which are counted modulo 4.

  lemma ModSucc(n: int, y: int)
    requires n >= 0 && y == n % 4
    ensures (y + 1) % 4 == (n + 1) % 4
  {
  }

  lemma ModPeriod(x: int, k: nat)
    requires 0 <= x < 4
    ensures (x + k) % 4 == x <==> k % 4 == 0
  {
  }

  lemma ModDiff(f: int, t: int)
    requires 0 <= f < 4 && 0 <= t < 4
    ensures (t - f) % 4 == 0 <==> f == t
    ensures (f + (t - f) % 4) % 4 == t
  {
  }

  lemma ModDiffStep(f: int, t: int)
    requires 0 <= f < 4 && 0 <= t < 4 && f != t
    ensures (t - (f + 1) % 4) % 4 == (t - f) % 4 - 1
  {
  }

  lemma ModNextBack(p: int)
    requires 0 <= p < 4
    ensures (p - (p + 1) % 4) % 4 == 3
  {
  }

  /** After `k` hand-offs from road `r`, green is at place `(place of r + k) mod 4`. */
  lemma {:induction false} AdvanceIndex(r: string, k: nat)
    requires r in Roads
    ensures Advance(r, k) in Roads
    ensures Position(Advance(r, k)) == (Position(r) + k) % 4
  {
    if k > 0 {
      var a := Advance(r, k - 1);
      AdvanceIndex(r, k - 1);
      NextStep(a);
      ModSucc(Position(r) + k - 1, Position(a));
    }
  }

  /** The cycle has period exactly 4: `k` hand-offs bring green back to where it was if and only if 4 divides `k`. */
  lemma AdvancePeriod(r: string, k: nat)
    requires r in Roads
    ensures Advance(r, k) == r <==> k % 4 == 0
  {
    AdvanceIndex(r, k);
    ModPeriod(Position(r), k);
  }

  /**
   No road is skipped: from any road, green reaches any road `to` in fewer
   than four hand-offs, and in none exactly when `to` already holds it.
   */
  lemma ReachesEveryRoad(from: string, to: string)
    requires from in Roads && to in Roads
    ensures CyclicDistance(from, to) < 4
    ensures CyclicDistance(from, to) == 0 <==> from == to
    ensures Advance(from, CyclicDistance(from, to)) == to
  {
    var f, t := Position(from), Position(to);
    var d := CyclicDistance(from, to);
    assert d == (t - f) % 4;
    ModDiff(f, t);
    assert (f + d) % 4 == t;
    AdvanceIndex(from, d);
    var a := Advance(from, d);
    assert Position(a) == t;
    assert a == Roads[t] == to;
  }

  /** One hand-off from a road other than `to` brings green one step closer to `to`. */
  lemma DistanceStep(from: string, to: string)
    requires from in Roads && to in Roads && from != to
    ensures CyclicDistance(Next(from), to) == CyclicDistance(from, to) - 1
  {
    NextStep(from);
    ModDiffStep(Position(from), Position(to));
  }

  /** From the road after `r`, green needs three more hand-offs to come back to `r`. */
  lemma NextDistance(r: string)
    requires r in Roads
    ensures CyclicDistance(Next(r), r) == 3
  {
    NextStep(r);
    ModDiff(Position(r), Position(r));
    ModNextBack(Position(r));
  }

  /** Starting from North, `k` hand-offs give green to the road at index `k mod 4`. */
  lemma {:induction false} GreenAfterSwitches(k: nat)
    ensures Advance(Roads[0], k) == Roads[k % 4]
  {
    AdvanceIndex(Roads[0], k);
  }

  /** The shared signal: which road currently holds green. */
  class TrafficSignalController {
    var currentGreen: string
    const roads: seq<string>
    /** The number of hand-offs since construction; it exists only to state the cyclic invariant. */
    ghost var switches: nat

    /** `currentGreen` is the road reached by `switches` hand-offs from North. */
    ghost predicate Valid()
      reads this
    {
      roads == Roads && currentGreen == Advance(Roads[0], switches)
    }

    /** A new controller gives green to North, the first road of the cycle. */
    constructor ()
      ensures Valid() && switches == 0
      ensures currentGreen == "North" && currentGreen == roads[0]
    {
      currentGreen := "North";
      roads := Roads;
      switches := 0;
    }

    /**
     `switchSignal`: green moves to the successor of the current road, one
     place forward in `roads`.
     */
    method SwitchSignal()
      requires Valid()
      modifies this
      ensures Valid() && switches == old(switches) + 1
      ensures currentGreen == Next(old(currentGreen)) && currentGreen != old(currentGreen)
      ensures IndexOf(roads, currentGreen) == (IndexOf(roads, old(currentGreen)) + 1) % |roads|
    {
      GreenAfterSwitches(switches);
      var index := IndexOf(roads, currentGreen);
      currentGreen := roads[(index + 1) % |roads|];
      switches := switches + 1;
      NextByIndex(old(currentGreen));
      NextStep(old(currentGreen));
      IndexOfRoads(old(currentGreen));
      IndexOfRoads(currentGreen);
    }

    /** `isGreen`: whether `road` holds green; it only reads the state. */
    function IsGreen(road: string): bool
      reads this
    {
      currentGreen == road
    }

    /**
     `waitForGreen`, sequentially: each time the loop waits, the worker that
     holds green hands it on, so every iteration is one `SwitchSignal`. The
     loop ends as soon as `road` is green and never runs when `road` is green
     on entry.
     */
    method WaitForGreen(road: string)
      requires Valid() && road in Roads
      modifies this
      ensures Valid() && IsGreen(road)
      ensures switches == old(switches) + CyclicDistance(old(currentGreen), road)
      ensures old(IsGreen(road)) ==> currentGreen == old(currentGreen) && switches == old(switches)
    {
      GreenAfterSwitches(switches);
      ReachesEveryRoad(currentGreen, road);
      while !IsGreen(road)
        invariant Valid() && currentGreen in Roads
        invariant switches + CyclicDistance(currentGreen, road)
                  == old(switches) + CyclicDistance(old(currentGreen), road)
        decreases CyclicDistance(currentGreen, road)
      {
        DistanceStep(currentGreen, road);
        SwitchSignal();
      }
    }
  }

  /**
   Exactly one road holds green: among the roads, `IsGreen` holds for the
   one at index `switches mod 4` and for no other, and it holds for no name
   outside the list.
   */
  lemma ExactlyOneGreen(c: TrafficSignalController)
    requires c.Valid()
    ensures forall i :: 0 <= i < |Roads| ==> (c.IsGreen(Roads[i]) <==> i == c.switches % 4)
    ensures forall r :: c.IsGreen(r) ==> r in Roads
  {
    GreenAfterSwitches(c.switches);
  }
}
