# Factorio train balancer: verified model of the per-station dispatch decision

The balancer decides, for each drop-off station of a resource network, how
many trains the station wants assigned to it. A station is built from three
constants: its storage capacity (`MAX_STOREABLE`), the units one train
delivers (`UNITS_IN_TRAIN_LOAD`) and the number of trains that may queue for
it (`QUEUE_LENGTH`). On every circuit-network tick it receives six values.
These are the precision of the percentage arithmetic, the number of stations,
the network total of their percentages, the units stored at this station, the
trains assigned to it, and the ID of the train stopped at it (0 when none is).
It answers with two values:

- its fill percentage, scaled by the precision, in which every train still en
  route counts as a full load already delivered;
- its train limit: one more train than now when one more load fits, the
  station is at or below the network average and the queue has room;
  otherwise as many trains as now.

The model has two modules:

- `PythonInt` (`python_int.dfy`) gives Python's floor division `//` for every
  sign of divisor. Dafny's own `/` is Euclidean: it agrees with `//` for
  every dividend only when the divisor is positive, and for a negative
  divisor it rounds the exact quotient up where `//` rounds it down. A zero
  divisor is a precondition, because Python raises `ZeroDivisionError`
  there.
- `TrainBalancer` (`train_balancer.dfy`) holds the rest.
  - `factorio_percentage` is `FactorioPercentage`.
  - The station is the immutable datatype `DropoffTrainStation`. Its
    constructor is Python's `__init__`, which stores the three constants
    unchecked.
  - `__call__` is `Call`. It returns `Signals(percentageStored, trainsLimit)`
    in place of the Python tuple.
  - `__get_percentage_stored` is `PercentageStored` and `__get_trains_limit`
    is `TrainsLimit`. The three gates of `TrainsLimit` are the predicates
    `SpaceAvailable`, `DeservesResupply` and `SpaceInTheQueue`.

Python integers are unbounded, so Dafny's `int` models them exactly.
The only conditions under which the code fails are zero divisors. `Call`
therefore requires a nonzero capacity, station count and precision, and
nothing more; negative values follow Python's floor semantics. Lemmas whose
statement only makes sense for positive values (the mean, monotonicity)
require them themselves.

The code computes no deficit-proportional train count. Its doc comment
(train_balancer.py:77-88) records that such a count was dropped in favour of
adding at most one train per tick. The limit is the current train count plus
one when every gate passes and the current train count otherwise. The code
validates neither the constructor's arguments nor any overflow; Python's
integers cannot overflow.

## Model

| member | source | states |
|---|---|---|
| `PythonInt.FloorDiv` | train_balancer.py:4 | Python's `a // b` for a nonzero divisor: the quotient q is floor(a / b), stated as `b*q <= a < b*q + b` for b > 0 and `b*q + b < a <= b*q` for b < 0 |
| `PythonInt.FloorDivUnique` | train_balancer.py:4 | for a positive divisor, any q with `b*q <= a < b*q + b` is `a // b`, so the floor bounds determine the result |
| `PythonInt.FloorDivScaledThenUnscaled` | train_balancer.py:91 | scaling by a positive precision, dividing by any nonzero divisor, then dividing by the precision is plain `a // b` |
| `TrainBalancer.FactorioPercentage` | train_balancer.py:1-4 | the scaled percentage is floor(numerator * precision / denominator), stated as bounds for both signs of denominator |
| `TrainBalancer.FactorioPercentageIsFloor` | train_balancer.py:1-4 | for a positive denominator, the percentage equals q exactly when `d*q <= n*p < d*q + d` (both directions) |
| `TrainBalancer.FactorioPercentageMonotone` | train_balancer.py:1-4 | with non-negative precision and positive denominator, a larger numerator never gives a smaller percentage |
| `TrainBalancer.FactorioPercentageWithinScale` | train_balancer.py:1-4 | for a positive denominator and non-negative precision, a numerator between 0 and the denominator gives a percentage between 0 and precision |
| `TrainBalancer.PercentageStored` | train_balancer.py:54-59 | for a positive capacity and non-negative precision, the station's percentage lies in 0..precision whenever its accounted units lie in 0..capacity, as the return comment at line 32 promises |
| `TrainBalancer.NetworkAverage` | train_balancer.py:91 | the threshold `((total * precision) // n) // precision` equals `total // n`, the floored mean percentage, for positive precision |
| `TrainBalancer.UnitsAccounted` | train_balancer.py:35-36 | the units at the station plus one full load per assigned train, where a stopped train (nonzero ID) is not counted as en route |
| `TrainBalancer.SpaceAvailable` | train_balancer.py:90 | for a positive load size the gate passes exactly when one more load fits (`units + load <= max`), so the "not full" conjunct adds nothing; for a load size of zero or less it passes exactly when the station is not full |
| `TrainBalancer.DeservesResupply` | train_balancer.py:91 | for positive precision and station count, the second gate passes exactly when `percentage * n <= total`, i.e. at or below the network mean (both directions) |
| `TrainBalancer.TrainsLimit` | train_balancer.py:61-93 | the limit is the train count or one more; a rise implies the station is not full, one more load fits, the new count is within the queue length and the percentage is at or below the threshold; for positive precision and station count the limit rises exactly when those gates hold (both directions) |
| `TrainBalancer.NetworkTotalAtLeastLowerBound` | train_balancer.py:25-26 | the network total, as the sum of the stations' percentages, is at least the station count times any lower bound on those percentages |
| `TrainBalancer.SomeStationDeservesResupply` | train_balancer.py:91 | when the total is the sum of exactly the percentages being compared, the station with the lowest of them passes the average gate; this covers only a tick on which no station's percentage changed since the total was formed |
| `TrainBalancer.OneTickLagCanShutOutEveryStation` | train_balancer.py:91 | the total compared against is last tick's sum: two identical stations reporting 500 per mille (total 1000) are each given a train, then report 562 and are both refused another |
| `TrainBalancer.Call` | train_balancer.py:21-93 | for any nonzero capacity the percentage is floor(units accounted * precision / capacity), as bounds for both signs of capacity, with en-route trains as full loads and a stopped train excluded; the limit is the train count or one more; it rises only if the station is not full, one more load fits, the queue has room and the percentage is at or below the threshold |
| `TrainBalancer.AboveAverageKeepsTrainCount` | train_balancer.py:91-93 | a station whose percentage exceeds the network mean keeps its train count, whatever its space or queue |
| `TrainBalancer.NoRoomKeepsTrainCount` | train_balancer.py:90-93 | a full station, or one where one more load does not fit, keeps its train count |
| `TrainBalancer.FullQueueKeepsTrainCount` | train_balancer.py:92-93 | a full queue keeps the train count; a train count within the queue length stays within it |
| `TrainBalancer.AllGatesOpenAddsOneTrain` | train_balancer.py:70-93 | when the load fits, the station is at or below the mean and the queue has room, the limit is exactly one more train |
| `TrainBalancer.PercentageMonotoneInUnits` | train_balancer.py:36-41 | for a positive capacity and precision, more units at the station, all else fixed, never lower the reported percentage |
| `TrainBalancer.PercentageMonotoneInTrainCount` | train_balancer.py:35-41 | for a positive capacity and precision and a non-negative load size, more trains assigned, all else fixed, never lower the reported percentage |
| `TrainBalancer.ArrivalAndDepartureKeepUnitsAccounted` | train_balancer.py:27-36 | a train stopping and unloading one load leaves the accounted units unchanged, and so does the emptied train leaving the assignment |
| `TrainBalancer.OneMoreTrainAddsOneLoad` | train_balancer.py:35-36 | one more assigned train commits exactly one more full load |
| `TrainBalancer.FeedbackKeepsCommitmentWithinBounds` | train_balancer.py:90-93 | feeding the limit back as the next train count, with stock unchanged, keeps accounted units within capacity and the count within the queue length once both hold |
| `TrainBalancer.DemonstrationStationExamples` | train_tester.py:4-8 | the demonstration station (128000 units, 8000 per train, queue 3) at per-mille among five stations: with an empty network, empty it asks for 1 train, at 120000 or 125000 units (937 and 976 per mille) it asks for none, and at the driver's 63000 units (492 per mille) it asks for none; with a network total of 5000 and 120000 units, where exactly one load fits and it is below the mean, it asks for 1 |

## Left out

- `train_tester.py`: the demonstration driver, with its endless loop, printing,
  keyboard wait and hard-coded stations and distances. It is input/output
  with no logic of its own. Only its first station's constants are used, in
  `DemonstrationStationExamples`.
- Arguments that are not integers: Python accepts any object at run time; the
  model types every argument as an integer.
- Construction-time validation and overflow errors: the code raises neither,
  so neither is modelled.
- A deficit-proportional dispatch count: the code does not compute one (its
  doc comment at train_balancer.py:77-88 says it was dropped).
- The Factorio circuit-network and constant-combinator setting: the comments
  at train_balancer.py:7-8 and 19-20 use it as background; no code depends
  on it.
- SomeStationDeservesResupply: states the balancing guarantee only for a
  total formed from the very percentages being compared. In the driver the
  total is one tick old (train_tester.py:47-48), so on a tick where
  percentages rose every station can be refused at once, as
  `OneTickLagCanShutOutEveryStation` shows; the model proves no progress
  guarantee across ticks.
