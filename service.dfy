/**
 * Services: one run of a route, with one scheduled time per stop. Valid
 * times are strictly ascending and non-negative.
 */
module Services {
  import opened Wrappers
  import opened Exceptions
  import Lists
  import opened Routes

  datatype Service = Service(route: Route, times: seq<int>)

  /** Time i is no smaller than the one before it. */
  predicate StepUp(times: seq<int>, i: int)
    requires 1 <= i < |times|
  {
    times[i - 1] <= times[i]
  }

  /** What the source's ascending check tests: no time is smaller than the one before it. */
  predicate NonDecreasing(times: seq<int>)
  {
    forall i :: 1 <= i < |times| ==> StepUp(times, i)
  }

  predicate NonNegative(times: seq<int>)
  {
    forall i :: 0 <= i < |times| ==> times[i] >= 0
  }

  predicate StrictlyAscending(times: seq<int>)
  {
    forall i, j :: 0 <= i < j < |times| ==> times[i] < times[j]
  }

  /** The four conditions the constructor and the consistency check test on the times. */
  predicate TimesOk(route: Route, times: seq<int>)
  {
    && |times| == NumStops(route)
    && Lists.NoDuplicates(times)
    && NonDecreasing(times)
    && NonNegative(times)
  }

  /** A service as the source can build it: its route is a valid route and its times pass. */
  predicate Valid(s: Service)
  {
    Routes.Valid(s.route) && TimesOk(s.route, s.times)
  }

  /** Together the four checks mean exactly: one time per stop, strictly ascending, non-negative. */
  lemma {:induction false} TimesOkMeaning(route: Route, times: seq<int>)
    ensures TimesOk(route, times) <==>
      |times| == NumStops(route) && StrictlyAscending(times) && NonNegative(times)
  {
    Lists.NoDuplicatesMeaning(times);
    if TimesOk(route, times) {
      forall i, j | 0 <= i < j < |times|
        ensures times[i] < times[j]
      {
        AscendingBetween(times, i, j);
      }
    }
  }

  /** Helper: non-decreasing and duplicate-free times grow strictly from i to j. */
  lemma {:induction false} AscendingBetween(times: seq<int>, i: int, j: int)
    requires NonDecreasing(times) && Lists.NoDuplicates(times)
    requires 0 <= i < j < |times|
    ensures times[i] < times[j]
    decreases j - i
  {
    Lists.NoDuplicatesMeaning(times);
    assert StepUp(times, j) && times[j - 1] != times[j];
    if i < j - 1 {
      AscendingBetween(times, i, j - 1);
    }
  }

  /** The ascending check: an index loop that stops at the first time smaller than its predecessor. */
  method CheckAscendingElements(times: seq<int>) returns (ascending: bool)
    ensures ascending <==> NonDecreasing(times)
  {
    var i := 1;
    while i < |times|
      invariant 1 <= i <= |times| || |times| == 0
      invariant forall k :: 1 <= k < i && k < |times| ==> times[k - 1] <= times[k]
    {
      if times[i] < times[i - 1] {
        assert !StepUp(times, i);
        return false;
      }
      i := i + 1;
    }
    return true;
  }

  /** The negative-time check: true as soon as some time is below zero. */
  method CheckNegativeElements(times: seq<int>) returns (negative: bool)
    ensures negative <==> !NonNegative(times)
  {
    for i := 0 to |times|
      invariant forall k :: 0 <= k < i ==> times[k] >= 0
    {
      if times[i] < 0 {
        return true;
      }
    }
    return false;
  }

  /**
   * The constructor. Checks, in order, the number of times, duplicate times,
   * ascending order and negative times, and fails with the first problem found.
   */
  method NewService(route: Route, times: seq<int>) returns (res: Result<Service, Error>)
    requires Routes.Valid(route)
    ensures res.Ok? <==> TimesOk(route, times)
    ensures res.Ok? ==> res.value == Service(route, times) && Valid(res.value)
    ensures |times| != NumStops(route) ==> res == Err(InvalidService(WrongTimeCount))
    ensures |times| == NumStops(route) && !Lists.NoDuplicates(times) ==>
      res == Err(InvalidService(DuplicateTimes))
    ensures |times| == NumStops(route) && Lists.NoDuplicates(times) && !NonDecreasing(times) ==>
      res == Err(InvalidService(NotAscending))
    ensures (|times| == NumStops(route) && Lists.NoDuplicates(times) && NonDecreasing(times) &&
             !NonNegative(times)) ==> res == Err(InvalidService(NegativeTime))
  {
    if NumStops(route) != |times| {
      return Err(InvalidService(WrongTimeCount));
    }
    var dup := Lists.CheckDuplicateElements(times);
    if dup {
      return Err(InvalidService(DuplicateTimes));
    }
    var ascending := CheckAscendingElements(times);
    if !ascending {
      return Err(InvalidService(NotAscending));
    }
    var negative := CheckNegativeElements(times);
    if negative {
      return Err(InvalidService(NegativeTime));
    }
    return Ok(Service(route, times));
  }

  /** The consistency check: true exactly when the four conditions on the times hold. */
  method CheckInv(s: Service) returns (ok: bool)
    ensures ok <==> TimesOk(s.route, s.times)
  {
    var dup := Lists.CheckDuplicateElements(s.times);
    if dup {
      return false;
    }
    var ascending := CheckAscendingElements(s.times);
    if !ascending {
      return false;
    } else if |s.times| != NumStops(s.route) {
      return false;
    }
    var negative := CheckNegativeElements(s.times);
    if negative {
      return false;
    }
    return true;
  }

  /** The time at stop number `i`, or NoSuchStop. */
  function GetStopTime(s: Service, i: int): (res: Result<int, Error>)
    ensures Valid(s) ==> (res.Ok? <==> 1 <= i <= NumStops(s.route))
    ensures res.Ok? ==> 1 <= i <= |s.times| && res.value == s.times[i - 1]
    ensures res.Err? ==> res.error == NoSuchStop
  {
    if 1 <= i <= |s.times| then Ok(s.times[i - 1]) else Err(NoSuchStop)
  }

  /** The time at a station: its stop number on the route, then the time at that stop. */
  function GetStopTimeAt(s: Service, st: Station): (res: Result<int, Error>)
    ensures Valid(s) ==> (res.Ok? <==> StopsAt(s.route, st))
    ensures res.Ok? ==> StopsAt(s.route, st) && res == GetStopTime(s, GetStopNumber(s.route, st).value)
    ensures res.Ok? ==> res.value == s.times[Lists.IndexOf(s.route.stations, st)]
    ensures !StopsAt(s.route, st) ==> res == Err(NoSuchStop)
  {
    match GetStopNumber(s.route, st)
    case Err(e) => Err(e)
    case Ok(n) => GetStopTime(s, n)
  }

  /** On a valid service, the time at the station in position k is the k-th time. */
  lemma {:induction false} StopTimeAtPosition(s: Service, k: nat)
    requires Valid(s) && k < |s.route.stations|
    ensures GetStopTimeAt(s, s.route.stations[k]) == Ok(s.times[k])
  {
    Lists.IndexOfDistinct(s.route.stations, k);
  }

  /**
   * True iff the route allows travel from s1 to s2 and the service leaves s1
   * no earlier than t. Thanks to the short-circuit the time is only looked
   * up for a station on the route.
   */
  function CanTravelFrom(s: Service, s1: Station, s2: Station, t: int): (b: bool)
    requires Valid(s)
    ensures b ==> GetStopTimeAt(s, s1).Ok? && GetStopTimeAt(s, s2).Ok?
  {
    Routes.CanTravelFrom(s.route, s1, s2) && GetStopTimeAt(s, s1).value >= t
  }

  /** A service never travels instantaneously: a later stop has a strictly later time. */
  lemma {:induction false} NoInstantTravel(s: Service, a: Station, b: Station)
    requires Valid(s) && Routes.CanTravelFrom(s.route, a, b)
    ensures GetStopTimeAt(s, a).value < GetStopTimeAt(s, b).value
  {
    TimesOkMeaning(s.route, s.times);
    CanTravelFromMeaning(s.route, a, b);
  }

  /** Being able to leave by time t also means being able to leave by any earlier time. */
  lemma CanTravelFromAntitone(s: Service, a: Station, b: Station, t: int, t': int)
    requires Valid(s) && t' <= t && CanTravelFrom(s, a, b, t)
    ensures CanTravelFrom(s, a, b, t')
  {
  }

  /** Service equality as the source defines it: equal routes and equal time lists. */
  function SameService(a: Service, b: Service): (eq: bool)
    ensures eq <==> a == b
  {
    SameRoute(a.route, b.route) && a.times == b.times
  }
}
