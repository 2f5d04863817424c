/**
 * The per-station dispatch decision of a Factorio train balancer.
 *
 * A drop-off station is configured with three constants (how much it can
 * store, how much one train delivers, how many trains may queue for it). On
 * every circuit-network tick it is told the network-wide situation and its
 * own, and answers with its fill level as a scaled integer percentage and the
 * number of trains it wants assigned to it. Everything is integer arithmetic
 * with Python's floor division; nothing is stored between ticks.
 */
module TrainBalancer {
  import opened PythonInt

  /**
   * `(numerator * precision) // denominator`: numerator / denominator as a
   * percentage scaled by precision (100 for percent, 1000 for per-mille),
   * rounded towards negative infinity.
   */
  function FactorioPercentage(precision: int, numerator: int, denominator: int): (r: int)
    requires denominator != 0
    ensures denominator > 0 ==> denominator * r <= numerator * precision < denominator * r + denominator
    ensures denominator < 0 ==> denominator * r + denominator < numerator * precision <= denominator * r
  {
    FloorDiv(numerator * precision, denominator)
  }

  /** The result is exactly floor(numerator * precision / denominator): no other value meets the floor bounds. */
  lemma FactorioPercentageIsFloor(precision: int, numerator: int, denominator: int, q: int)
    requires denominator > 0
    ensures FactorioPercentage(precision, numerator, denominator) == q
        <==> denominator * q <= numerator * precision < denominator * q + denominator
  {
    if denominator * q <= numerator * precision < denominator * q + denominator {
      FloorDivUnique(numerator * precision, denominator, q);
    }
  }

  /** With a positive denominator and a non-negative scale, a larger numerator never gives a smaller percentage. */
  lemma FactorioPercentageMonotone(precision: int, n1: int, n2: int, denominator: int)
    requires precision >= 0 && denominator > 0 && n1 <= n2
    ensures FactorioPercentage(precision, n1, denominator) <= FactorioPercentage(precision, n2, denominator)
  {
    if precision > 0 {
      MulLeftMono(precision, n1, n2);
      assert n1 * precision <= n2 * precision;
    }
    FloorDivMonotone(n1 * precision, n2 * precision, denominator);
  }

  /** A numerator between 0 and the denominator gives a percentage between 0 and the full scale. */
  lemma FactorioPercentageWithinScale(precision: int, numerator: int, denominator: int)
    requires denominator != 0
    ensures precision >= 0 && denominator > 0 && 0 <= numerator <= denominator
      ==> 0 <= FactorioPercentage(precision, numerator, denominator) <= precision
  {
    if precision >= 0 && denominator > 0 && 0 <= numerator <= denominator {
      assert 0 <= numerator * precision;
      if precision > 0 {
        MulLeftMono(precision, numerator, denominator);
      }
      assert numerator * precision <= denominator * precision < denominator * (precision + 1);
      FloorDivBetween(numerator * precision, denominator, 0, precision + 1);
    }
  }

  /**
   * The constants of one drop-off station, fixed when it is built and never
   * changed. Building one checks nothing.
   */
  datatype DropoffTrainStation = DropoffTrainStation(
    maxStoreable: int,
    unitsInTrainLoad: int,
    queueLength: int
  )

  /** The two signals a station sends back on each tick. */
  datatype Signals = Signals(percentageStored: int, trainsLimit: int)

  /** Trains still travelling to the station: a stopped train is no longer en route. */
  function TrainsEnRoute(trainCount: int, stoppedTrainId: int): (n: int) {
    if stoppedTrainId == 0 then trainCount else trainCount - 1
  }

  /**
   * Units at the station plus one full load per train still en route: what
   * the station will hold once every train assigned to it has unloaded.
   */
  function UnitsAccounted(station: DropoffTrainStation, unitsAtThisStation: int, trainCount: int, stoppedTrainId: int): (u: int)
    ensures stoppedTrainId == 0 ==> u == unitsAtThisStation + trainCount * station.unitsInTrainLoad
    ensures stoppedTrainId != 0 ==> u == unitsAtThisStation + (trainCount - 1) * station.unitsInTrainLoad
  {
    unitsAtThisStation + TrainsEnRoute(trainCount, stoppedTrainId) * station.unitsInTrainLoad
  }

  /** The station's accounted units as a percentage of its capacity, scaled by precision. */
  function PercentageStored(station: DropoffTrainStation, unitsAccounted: int, precision: int): (r: int)
    requires station.maxStoreable != 0
    ensures station.maxStoreable > 0 && precision >= 0 && 0 <= unitsAccounted <= station.maxStoreable
      ==> 0 <= r <= precision
  {
    FactorioPercentageWithinScale(precision, unitsAccounted, station.maxStoreable);
    FactorioPercentage(precision, unitsAccounted, station.maxStoreable)
  }

  /**
   * The threshold a station's percentage is compared with: the network total
   * scaled up, divided among the stations, then scaled back down. It is the
   * floored mean of the stations' percentages.
   */
  function NetworkAverage(precision: int, totalPercentageStored: int, numberOfStations: int): (avg: int)
    requires precision != 0 && numberOfStations != 0
    ensures precision > 0 ==> avg == FloorDiv(totalPercentageStored, numberOfStations)
  {
    FloorDivScaledThenUnscaled(totalPercentageStored, precision, numberOfStations);
    FloorDiv(FactorioPercentage(precision, totalPercentageStored, numberOfStations), precision)
  }

  /**
   * Gate 1: the station is not full and one more full train load fits. For a
   * positive load size the "not full" half adds nothing; it matters only for
   * a load size of zero or less.
   */
  predicate SpaceAvailable(station: DropoffTrainStation, unitsAccounted: int)
    ensures station.unitsInTrainLoad > 0 ==>
      (SpaceAvailable(station, unitsAccounted) <==> unitsAccounted + station.unitsInTrainLoad <= station.maxStoreable)
    ensures station.unitsInTrainLoad <= 0 ==>
      (SpaceAvailable(station, unitsAccounted) <==> unitsAccounted < station.maxStoreable)
  {
    unitsAccounted < station.maxStoreable && station.maxStoreable - unitsAccounted >= station.unitsInTrainLoad
  }

  /**
   * Gate 2: the station's percentage is at or below the network average.
   * For a positive precision and station count this means exactly that the
   * station's percentage, counted once per station, does not exceed the
   * network total.
   */
  predicate DeservesResupply(percentageStored: int, totalPercentageStored: int, numberOfStations: int, precision: int)
    requires precision != 0 && numberOfStations != 0
    ensures precision > 0 && numberOfStations > 0 ==>
      (DeservesResupply(percentageStored, totalPercentageStored, numberOfStations, precision) <==>
       percentageStored * numberOfStations <= totalPercentageStored)
  {
    AtMostFloorDivIff(percentageStored, totalPercentageStored, numberOfStations);
    percentageStored <= NetworkAverage(precision, totalPercentageStored, numberOfStations)
  }

  /** Gate 3: fewer trains are assigned than the queue holds. */
  predicate SpaceInTheQueue(station: DropoffTrainStation, trainCount: int) {
    trainCount < station.queueLength
  }

  /**
   * The sum of a list of station percentages. The driver forms the network
   * total this way from the percentages reported on one tick and passes it
   * in on the next, so on that next tick it is the sum of last tick's
   * percentages, not of the ones being compared.
   */
  function NetworkTotal(percentages: seq<int>): (total: int) {
    if percentages == [] then 0 else percentages[0] + NetworkTotal(percentages[1..])
  }

  /** The index of a station with the lowest percentage. */
  function LowestStation(percentages: seq<int>): (k: nat)
    requires |percentages| > 0
    ensures k < |percentages|
    ensures forall j :: 0 <= j < |percentages| ==> percentages[k] <= percentages[j]
  {
    if |percentages| == 1 then 0
    else
      var k := LowestStation(percentages[1..]);
      if percentages[0] <= percentages[1..][k] then 0 else k + 1
  }

  /** A lower bound on every station's percentage, times the station count, bounds the total from below. */
  lemma {:induction false} NetworkTotalAtLeastLowerBound(percentages: seq<int>, low: int)
    requires forall i :: 0 <= i < |percentages| ==> low <= percentages[i]
    ensures low * |percentages| <= NetworkTotal(percentages)
  {
    if percentages != [] {
      var rest := percentages[1..];
      assert forall i :: 0 <= i < |rest| ==> low <= rest[i] by {
        forall i | 0 <= i < |rest| ensures low <= rest[i] {
          assert rest[i] == percentages[i + 1];
        }
      }
      NetworkTotalAtLeastLowerBound(rest, low);
      assert low * |percentages| == low + low * |rest|;
    }
  }

  /**
   * When the network total is the sum of exactly the percentages being
   * compared, the average gate never shuts out every station at once: the
   * station with the lowest percentage is at or below the mean. This holds
   * on a tick only if no station's percentage has changed since the total
   * was formed; see OneTickLagCanShutOutEveryStation.
   */
  lemma SomeStationDeservesResupply(percentages: seq<int>, precision: int)
    requires precision > 0 && |percentages| > 0
    ensures var k := LowestStation(percentages);
      DeservesResupply(percentages[k], NetworkTotal(percentages), |percentages|, precision)
  {
    var k := LowestStation(percentages);
    NetworkTotalAtLeastLowerBound(percentages, percentages[k]);
  }

  /**
   * The total is one tick old, so the gate can shut out every station at
   * once. Two identical stations (128000 units, 8000 per train, queue of 3)
   * each reported 500 per mille, a total of 1000, and each was given a
   * train. On the next tick each now reports 562 per mille, above the stale
   * average of 500, and neither gets another train.
   */
  lemma OneTickLagCanShutOutEveryStation()
    ensures NetworkTotal([500, 500]) == 1000
    ensures Call(DropoffTrainStation(128000, 8000, 3), 1000, 2, 1000, 64000, 0, 0) == Signals(500, 1)
    ensures Call(DropoffTrainStation(128000, 8000, 3), 1000, 2, 1000, 64000, 1, 0) == Signals(562, 1)
  {
    assert NetworkTotal([500]) == 500;
    assert FactorioPercentage(1000, 64000, 128000) == 500;
    assert FactorioPercentage(1000, 72000, 128000) == 562;
    assert NetworkAverage(1000, 1000, 2) == 500;
  }

  /** One more train than now when all three gates pass, otherwise as many as now. */
  function TrainsLimit(
    station: DropoffTrainStation,
    unitsAccounted: int,
    percentageStored: int,
    totalPercentageStored: int,
    numberOfStations: int,
    trainCount: int,
    precision: int
  ): (limit: int)
    requires precision != 0 && numberOfStations != 0
    ensures limit == trainCount || limit == trainCount + 1
    ensures limit == trainCount + 1 ==>
      && unitsAccounted < station.maxStoreable
      && unitsAccounted + station.unitsInTrainLoad <= station.maxStoreable
      && limit <= station.queueLength
      && percentageStored <= NetworkAverage(precision, totalPercentageStored, numberOfStations)
    ensures precision > 0 && numberOfStations > 0 ==>
      (limit == trainCount + 1 <==>
       (&& unitsAccounted < station.maxStoreable
        && unitsAccounted + station.unitsInTrainLoad <= station.maxStoreable
        && trainCount < station.queueLength
        && percentageStored * numberOfStations <= totalPercentageStored))
  {
    if SpaceAvailable(station, unitsAccounted)
       && DeservesResupply(percentageStored, totalPercentageStored, numberOfStations, precision)
       && SpaceInTheQueue(station, trainCount)
    then trainCount + 1
    else trainCount
  }

  /**
   * One tick of the station. The percentage is the accounted units (trains
   * en route counted as full loads) over the capacity; the train limit moves
   * by at most one, and only upwards, and only when the extra load fits.
   * Python raises ZeroDivisionError when the capacity, the number of stations
   * or the precision is zero.
   */
  function Call(
    station: DropoffTrainStation,
    precision: int,
    numberOfStations: int,
    totalPercentageStored: int,
    unitsAtThisStation: int,
    trainCount: int,
    stoppedTrainId: int
  ): (out: Signals)
    requires station.maxStoreable != 0 && numberOfStations != 0 && precision != 0
    ensures var accounted := UnitsAccounted(station, unitsAtThisStation, trainCount, stoppedTrainId);
      station.maxStoreable > 0 ==>
        station.maxStoreable * out.percentageStored
          <= accounted * precision
          < station.maxStoreable * out.percentageStored + station.maxStoreable
    ensures var accounted := UnitsAccounted(station, unitsAtThisStation, trainCount, stoppedTrainId);
      station.maxStoreable < 0 ==>
        station.maxStoreable * out.percentageStored + station.maxStoreable
          < accounted * precision
          <= station.maxStoreable * out.percentageStored
    ensures out.trainsLimit == trainCount || out.trainsLimit == trainCount + 1
    ensures var accounted := UnitsAccounted(station, unitsAtThisStation, trainCount, stoppedTrainId);
      out.trainsLimit == trainCount + 1 ==>
        && accounted < station.maxStoreable
        && accounted + station.unitsInTrainLoad <= station.maxStoreable
        && out.trainsLimit <= station.queueLength
        && out.percentageStored <= NetworkAverage(precision, totalPercentageStored, numberOfStations)
  {
    var accounted := UnitsAccounted(station, unitsAtThisStation, trainCount, stoppedTrainId);
    var percentageStored := PercentageStored(station, accounted, precision);
    Signals(
      percentageStored,
      TrainsLimit(station, accounted, percentageStored, totalPercentageStored, numberOfStations, trainCount, precision))
  }

  /** A station above the network average keeps its train count, whatever its space or queue. */
  lemma AboveAverageKeepsTrainCount(
    station: DropoffTrainStation, precision: int, numberOfStations: int,
    totalPercentageStored: int, unitsAtThisStation: int, trainCount: int, stoppedTrainId: int)
    requires station.maxStoreable != 0 && numberOfStations > 0 && precision > 0
    ensures var out := Call(station, precision, numberOfStations, totalPercentageStored,
                            unitsAtThisStation, trainCount, stoppedTrainId);
      out.percentageStored * numberOfStations > totalPercentageStored ==> out.trainsLimit == trainCount
  {
  }

  /** A station that is full, or cannot take one more full load, keeps its train count. */
  lemma NoRoomKeepsTrainCount(
    station: DropoffTrainStation, precision: int, numberOfStations: int,
    totalPercentageStored: int, unitsAtThisStation: int, trainCount: int, stoppedTrainId: int)
    requires station.maxStoreable != 0 && numberOfStations != 0 && precision != 0
    ensures var accounted := UnitsAccounted(station, unitsAtThisStation, trainCount, stoppedTrainId);
      (accounted >= station.maxStoreable || station.maxStoreable - accounted < station.unitsInTrainLoad)
        ==> Call(station, precision, numberOfStations, totalPercentageStored,
                 unitsAtThisStation, trainCount, stoppedTrainId).trainsLimit == trainCount
  {
  }

  /**
   * A station whose queue is full keeps its train count, so a train count
   * within the queue length stays within it.
   */
  lemma FullQueueKeepsTrainCount(
    station: DropoffTrainStation, precision: int, numberOfStations: int,
    totalPercentageStored: int, unitsAtThisStation: int, trainCount: int, stoppedTrainId: int)
    requires station.maxStoreable != 0 && numberOfStations != 0 && precision != 0
    ensures var out := Call(station, precision, numberOfStations, totalPercentageStored,
                            unitsAtThisStation, trainCount, stoppedTrainId);
      && (trainCount >= station.queueLength ==> out.trainsLimit == trainCount)
      && (trainCount <= station.queueLength ==> out.trainsLimit <= station.queueLength)
  {
  }

  /**
   * When the extra load fits, the station is at or below the network mean and
   * the queue has room, exactly one more train is asked for.
   */
  lemma AllGatesOpenAddsOneTrain(
    station: DropoffTrainStation, precision: int, numberOfStations: int,
    totalPercentageStored: int, unitsAtThisStation: int, trainCount: int, stoppedTrainId: int)
    requires station.maxStoreable != 0 && numberOfStations > 0 && precision > 0
    ensures var accounted := UnitsAccounted(station, unitsAtThisStation, trainCount, stoppedTrainId);
      var out := Call(station, precision, numberOfStations, totalPercentageStored,
                      unitsAtThisStation, trainCount, stoppedTrainId);
      (&& accounted < station.maxStoreable
       && accounted + station.unitsInTrainLoad <= station.maxStoreable
       && out.percentageStored * numberOfStations <= totalPercentageStored
       && trainCount < station.queueLength)
        ==> out.trainsLimit == trainCount + 1
  {
  }

  /** More units at the station never lower its reported percentage. */
  lemma PercentageMonotoneInUnits(
    station: DropoffTrainStation, precision: int, numberOfStations: int,
    totalPercentageStored: int, units1: int, units2: int, trainCount: int, stoppedTrainId: int)
    requires station.maxStoreable > 0 && numberOfStations != 0 && precision > 0
    requires units1 <= units2
    ensures Call(station, precision, numberOfStations, totalPercentageStored, units1, trainCount, stoppedTrainId).percentageStored
         <= Call(station, precision, numberOfStations, totalPercentageStored, units2, trainCount, stoppedTrainId).percentageStored
  {
    FactorioPercentageMonotone(precision,
      UnitsAccounted(station, units1, trainCount, stoppedTrainId),
      UnitsAccounted(station, units2, trainCount, stoppedTrainId),
      station.maxStoreable);
  }

  /** More trains assigned never lower the reported percentage, since each counts as a full load. */
  lemma PercentageMonotoneInTrainCount(
    station: DropoffTrainStation, precision: int, numberOfStations: int,
    totalPercentageStored: int, unitsAtThisStation: int, count1: int, count2: int, stoppedTrainId: int)
    requires station.maxStoreable > 0 && numberOfStations != 0 && precision > 0
    requires station.unitsInTrainLoad >= 0 && count1 <= count2
    ensures Call(station, precision, numberOfStations, totalPercentageStored, unitsAtThisStation, count1, stoppedTrainId).percentageStored
         <= Call(station, precision, numberOfStations, totalPercentageStored, unitsAtThisStation, count2, stoppedTrainId).percentageStored
  {
    var load := station.unitsInTrainLoad;
    var en1, en2 := TrainsEnRoute(count1, stoppedTrainId), TrainsEnRoute(count2, stoppedTrainId);
    if load > 0 {
      MulLeftMono(load, en1, en2);
    }
    assert en1 * load <= en2 * load;
    FactorioPercentageMonotone(precision,
      UnitsAccounted(station, unitsAtThisStation, count1, stoppedTrainId),
      UnitsAccounted(station, unitsAtThisStation, count2, stoppedTrainId),
      station.maxStoreable);
  }

  /**
   * A train arriving and unloading its load does not change the accounted
   * units: the load leaves the en-route count and enters the station's stock.
   * Nor does the emptied train leaving the station and the assignment.
   */
  lemma ArrivalAndDepartureKeepUnitsAccounted(
    station: DropoffTrainStation, unitsAtThisStation: int, trainCount: int, stoppedTrainId: int)
    requires stoppedTrainId != 0
    ensures UnitsAccounted(station, unitsAtThisStation + station.unitsInTrainLoad, trainCount, stoppedTrainId)
         == UnitsAccounted(station, unitsAtThisStation, trainCount, 0)
    ensures UnitsAccounted(station, unitsAtThisStation, trainCount - 1, 0)
         == UnitsAccounted(station, unitsAtThisStation, trainCount, stoppedTrainId)
  {
    assert (trainCount - 1) * station.unitsInTrainLoad + station.unitsInTrainLoad
        == trainCount * station.unitsInTrainLoad;
  }

  /** Assigning one more train commits exactly one more full load. */
  lemma OneMoreTrainAddsOneLoad(
    station: DropoffTrainStation, unitsAtThisStation: int, trainCount: int, stoppedTrainId: int)
    ensures UnitsAccounted(station, unitsAtThisStation, trainCount + 1, stoppedTrainId)
         == UnitsAccounted(station, unitsAtThisStation, trainCount, stoppedTrainId) + station.unitsInTrainLoad
  {
    var enRoute := TrainsEnRoute(trainCount, stoppedTrainId);
    assert TrainsEnRoute(trainCount + 1, stoppedTrainId) == enRoute + 1;
    assert (enRoute + 1) * station.unitsInTrainLoad == enRoute * station.unitsInTrainLoad + station.unitsInTrainLoad;
  }

  /**
   * Feeding the train limit back as the next tick's train count, with the
   * stock unchanged, never commits the station beyond its capacity or its
   * queue beyond its length, once both hold.
   */
  lemma FeedbackKeepsCommitmentWithinBounds(
    station: DropoffTrainStation, precision: int, numberOfStations: int,
    totalPercentageStored: int, unitsAtThisStation: int, trainCount: int, stoppedTrainId: int)
    requires station.maxStoreable != 0 && numberOfStations != 0 && precision != 0
    requires UnitsAccounted(station, unitsAtThisStation, trainCount, stoppedTrainId) <= station.maxStoreable
    requires trainCount <= station.queueLength
    ensures var next := Call(station, precision, numberOfStations, totalPercentageStored,
                             unitsAtThisStation, trainCount, stoppedTrainId).trainsLimit;
      && UnitsAccounted(station, unitsAtThisStation, next, stoppedTrainId) <= station.maxStoreable
      && next <= station.queueLength
  {
    var next := Call(station, precision, numberOfStations, totalPercentageStored,
                     unitsAtThisStation, trainCount, stoppedTrainId).trainsLimit;
    if next == trainCount + 1 {
      OneMoreTrainAddsOneLoad(station, unitsAtThisStation, trainCount, stoppedTrainId);
    }
  }

  /**
   * The first station of the demonstration network (128000 units, 8000 per
   * train, queue of 3) on per-mille precision among five stations with an
   * empty network: empty, it asks for its first train; with 120000 units
   * (937 per mille) or 125000 units (976 per mille) it is above the average
   * of 0 and asks for none. With a network total of 5000 (an average of
   * 1000) and 120000 units, exactly one more load fits and it asks for one.
   * On the driver's own first tick, with 63000 units (492 per mille) and an
   * empty network, it is above the average of 0 and asks for none; so does
   * every other station, the one-tick lag of OneTickLagCanShutOutEveryStation.
   */
  lemma DemonstrationStationExamples()
    ensures Call(DropoffTrainStation(128000, 8000, 3), 1000, 5, 0, 0, 0, 0) == Signals(0, 1)
    ensures Call(DropoffTrainStation(128000, 8000, 3), 1000, 5, 0, 120000, 0, 0) == Signals(937, 0)
    ensures Call(DropoffTrainStation(128000, 8000, 3), 1000, 5, 0, 125000, 0, 0) == Signals(976, 0)
    ensures Call(DropoffTrainStation(128000, 8000, 3), 1000, 5, 5000, 120000, 0, 0) == Signals(937, 1)
    ensures Call(DropoffTrainStation(128000, 8000, 3), 1000, 5, 0, 63000, 0, 0) == Signals(492, 0)
  {
    assert FactorioPercentage(1000, 0, 128000) == 0;
    assert FactorioPercentage(1000, 120000, 128000) == 937;
    assert FactorioPercentage(1000, 125000, 128000) == 976;
    assert FactorioPercentage(1000, 63000, 128000) == 492;
    assert NetworkAverage(1000, 0, 5) == 0;
    assert NetworkAverage(1000, 5000, 5) == 1000;
  }
}
