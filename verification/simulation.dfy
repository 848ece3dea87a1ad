/**
 The simulation run as one sequential schedule: a controller and one worker
 per road, green passed round the four roads in order, and the total of the
 four workers' counts at the end.
 */
module TrafficSimulation {
  import opened Signal
  import opened RoadWorker

  /**
   Runs `|north|` full rounds of the intersection. In each round North, East,
   South and West take their green in that order, each letting through its
   own draw for that round. The total is the sum of the four workers'
   counts: every draw is counted once, for its own road, so each round adds
   between 4 and 20 cars.
   */
  method Simulate(north: seq<int>, east: seq<int>, south: seq<int>, west: seq<int>) returns (total: int)
    requires |east| == |north| && |south| == |north| && |west| == |north|
    requires CarCounts(north) && CarCounts(east) && CarCounts(south) && CarCounts(west)
    ensures total == Sum(north) + Sum(east) + Sum(south) + Sum(west)
    ensures 4 * |north| <= total <= 20 * |north|
  {
    var controller := new TrafficSignalController();
    var n := new Road("North", controller);
    var e := new Road("East", controller);
    var s := new Road("South", controller);
    var w := new Road("West", controller);

    var i := 0;
    while i < |north|
      invariant 0 <= i <= |north|
      invariant controller.Valid() && controller.currentGreen == "North"
      invariant n.Valid() && e.Valid() && s.Valid() && w.Valid()
      invariant n.carsPassed == Sum(north[..i]) && e.carsPassed == Sum(east[..i])
      invariant s.carsPassed == Sum(south[..i]) && w.carsPassed == Sum(west[..i])
    {
      n.Cycle(north[i]);
      e.Cycle(east[i]);
      s.Cycle(south[i]);
      w.Cycle(west[i]);
      PrefixSum(north, i);
      PrefixSum(east, i);
      PrefixSum(south, i);
      PrefixSum(west, i);
      i := i + 1;
    }
    total := n.carsPassed + e.carsPassed + s.carsPassed + w.carsPassed;

    assert north[..i] == north && east[..i] == east && south[..i] == south && west[..i] == west;
    SumBounds(north);
    SumBounds(east);
    SumBounds(south);
    SumBounds(west);
  }
}
