# Traffic signal controller: a sequential Dafny model

This project models the state logic of a four-way traffic intersection. The
source program is `SignalController.java`. One shared signal gives green to
exactly one of four roads at a time: North, East, South, West. It hands
green on in that fixed round-robin order. One worker per road waits for its
green, lets a batch of 1 to 5 cars through and hands green on to the next
road. At the end the four workers' counts are added up.

The Java program runs each worker on its own thread and coordinates them
with `wait`/`notifyAll`. The model keeps the state and drops the threads:

- `signal.dfy` (module `Signal`) holds the fixed road list and the
  `TrafficSignalController` class. The class has the mutable field
  `currentGreen` and the methods `SwitchSignal`, `IsGreen` and
  `WaitForGreen`. A ghost counter `switches` records how many hand-offs
  have happened. The class invariant `Valid()` says that `currentGreen` is
  the road reached from North after `switches` hand-offs. The spec
  functions `Next`, `Advance` and `CyclicDistance` describe the cycle, and
  lemmas prove its properties: it moves one place per hand-off, has
  period 4, skips no road, and exactly one road is green.
- `road.dfy` (module `RoadWorker`) holds the `Road` class. It stores
  `carsPassed`, the road's name and a reference to the shared controller.
  One pass of the worker loop is `Road.Cycle`, and `Road.Run` is the loop
  itself. `RedRoads` models `printRedRoads` as a function that returns the
  other roads.
- `simulation.dfy` (module `TrafficSimulation`) models `main`. `Simulate`
  builds the controller and the four workers. It runs whole rounds in which
  the roads take green in cycle order, then returns the sum of the four
  counts.

Modelling choices:

- Road names stay strings, as in the source. `switchSignal` finds the
  current road with `List.indexOf` (`IndexOf`) and takes the road at
  `(index + 1) % size`. `NextByIndex` proves that this computation agrees
  with the hand-off table `Next` for every string. A name outside the list
  has index -1, so it would be followed by North.
- `waitForGreen` loops while the road is not green and calls `wait()` in
  the body. Sequentially, a `wait()` returns only after the worker holding
  green has called `switchSignal`. So each iteration of `WaitForGreen` is
  one `SwitchSignal`, and the loop ends after `CyclicDistance` iterations.
  These hand-offs stand for other workers' turns. Their car counts belong
  to those workers and are not modelled inside `WaitForGreen`.
- The random draws are inputs. A worker's car counts are a sequence whose
  every element is in [1, 5]. The `while (running.get())` loop runs once
  per draw.
- Shutdown follows the code. `waitForGreen` returns only when its road is
  green (SignalController.java:19): the shutdown `notifyAll` in `main` only
  makes the loop test again. Also, `run` does not test `running` again
  between `waitForGreen` and counting cars (SignalController.java:48-53).

## Model

| member | source | states |
|---|---|---|
| `Signal.IndexOf` | SignalController.java:9 | `List.indexOf`: the result is -1 exactly when the name is absent; otherwise the name is at that index and does not occur before it |
| `Signal.Position` | SignalController.java:6 | a road's place in the fixed order North, East, South, West; -1 exactly for names that are not roads |
| `Signal.Next` | SignalController.java:9-10 | the successor of any name is always one of the four roads |
| `Signal.IndexOfRoads` | SignalController.java:6-9 | `indexOf` on the road list gives each road's place in the cycle, and -1 for any other name |
| `Signal.NextByIndex` | SignalController.java:9-10 | for every string, the road at `(indexOf + 1) % size` is its successor North→East→South→West→North |
| `Signal.NextStep` | SignalController.java:9-10 | for every name, a hand-off moves green exactly one place forward (mod 4) and never leaves it where it was; a name outside the list (place -1) is followed by North |
| `Signal.NextDistance` | SignalController.java:9-10 | from the road after a road, green needs exactly three more hand-offs to come back to it |
| `Signal.AdvanceIndex` | SignalController.java:8-12 | after k hand-offs from a road, green is at place (start + k) mod 4 and is still one of the roads |
| `Signal.AdvancePeriod` | SignalController.java:8-12 | k hand-offs bring green back to its starting road if and only if 4 divides k |
| `Signal.ReachesEveryRoad` | SignalController.java:8-12 | no road is skipped: every road is reached from every road in fewer than 4 hand-offs, and in 0 exactly when it already holds green |
| `Signal.DistanceStep` | SignalController.java:19-21 | each hand-off while a road waits brings green one step closer to it, so the wait ends |
| `Signal.GreenAfterSwitches` | SignalController.java:5-10 | starting from North, k hand-offs leave green at the road with index k mod 4 |
| `Signal.TrafficSignalController.constructor` | SignalController.java:5-6 | a new controller gives green to North, the first element of `roads`, and satisfies the invariant |
| `Signal.TrafficSignalController.SwitchSignal` | SignalController.java:8-12 | keeps the invariant; `currentGreen` becomes the successor of its old value, differs from it, and its index grows by one mod the list size |
| `Signal.TrafficSignalController.IsGreen` | SignalController.java:14-16 | a read-only test of whether `road` holds green; `ExactlyOneGreen` proves that under the invariant it holds for exactly one road |
| `Signal.TrafficSignalController.WaitForGreen` | SignalController.java:18-26 | on return the road is green; it takes exactly the cyclic distance in hand-offs, and none (state unchanged) when the road is already green |
| `Signal.ExactlyOneGreen` | SignalController.java:14-16 | under the invariant `isGreen` holds for exactly one of the four roads, the one at index `switches mod 4`, and for no other name |
| `RoadWorker.SumBounds` | SignalController.java:52-53 | n draws in [1, 5] add up to a total in [n, 5n] |
| `RoadWorker.Without` | SignalController.java:72-73 | the filter keeps exactly the elements other than the given name, never grows the list, and leaves it unchanged when the name is absent |
| `RoadWorker.WithoutAt` | SignalController.java:72-73 | in a list without repetitions, filtering out the element at place i leaves the elements before it followed by those after it |
| `RoadWorker.RedRoads` | SignalController.java:71-77 | the red roads are exactly the roads other than `roadName` |
| `RoadWorker.RedRoadsInOrder` | SignalController.java:71-77 | for a road, the red roads are the three other roads in fixed order |
| `RoadWorker.Road.constructor` | SignalController.java:38-44 | a new worker keeps its road name and the shared controller, and starts with `carsPassed == 0` |
| `RoadWorker.Road.HandOff` | SignalController.java:63-64 | the worker switches only if its road still holds green; then its road is no longer green and the next road is; otherwise the signal is unchanged |
| `RoadWorker.Road.Cycle` | SignalController.java:49-66 | one pass: the count grows by exactly the draw (1 to 5), and afterwards the road after this one holds green |
| `RoadWorker.Road.Run` | SignalController.java:47-67 | after n passes the count has grown by the sum of the draws, so it never decreases and grows by between n and 5n; the next road then holds green and the signal has moved the cyclic distance to this road plus 4n - 3 places; with no passes the signal is unchanged |
| `TrafficSimulation.Simulate` | SignalController.java:87-115 | the total is the sum of every draw, each counted once for its own road; n rounds give a total in [4n, 20n] |

## Left out

- Threads, `synchronized`, `wait`/`notifyAll` and the shutdown `notifyAll` in `main`: the model is sequential. A `wait()` is modelled as another worker's hand-off (see `WaitForGreen`), and interleavings are not modelled.
- Spurious wake-ups: they would only add loop iterations that change nothing.
- The `AtomicBoolean running` flag, `start`/`join` and the 30-second `Thread.sleep` in `main`: they control timing. The number of loop passes is given by the number of draws instead.
- The green-time `Thread.sleep` and the `InterruptedException` handlers: they affect timing only and do not change the counts or the signal.
- `java.util.Random`: each car-count draw is an input constrained to [1, 5]. The green-time draw only feeds the sleep, so it is left out.
- All `System.out.println` output. The list of red roads is returned by `RedRoads` instead of printed.
- `getCurrentGreen`: it is an unsynchronised read, and its only feature beyond `isGreen` is a data race.
- Signal.TrafficSignalController.WaitForGreen: requires the road to be one of the four roads. For any other name the source's loop never ends.
- RoadWorker.Road.Cycle: `carsPassed` is an unbounded integer. Java's 32-bit `int` would wrap only after more than 400 million passes, which a 30-second run cannot reach.
- TrafficSimulation.Simulate: runs whole rounds only. The source's run can stop part-way through a round.
