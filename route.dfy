/**
 * Routes: a named, ordered list of at least two distinct stations. Stop
 * numbers count from 1.
 */
module Routes {
  import opened Wrappers
  import opened Exceptions
  import Lists

  /** A station is identified by its name alone. */
  datatype Station = Station(name: string)

  datatype Route = Route(name: string, stations: seq<Station>)

  /** The route invariant: at least two stops and no stop twice. */
  predicate Valid(r: Route)
  {
    |r.stations| >= 2 && Lists.NoDuplicates(r.stations)
  }

  /**
   * The constructor: rejects fewer than two stations first, then a repeated
   * station; otherwise the route keeps the given name and stations.
   */
  method NewRoute(name: string, stations: seq<Station>) returns (res: Result<Route, Error>)
    ensures res.Ok? <==> |stations| >= 2 && Lists.NoDuplicates(stations)
    ensures res.Ok? ==> res.value == Route(name, stations) && Valid(res.value)
    ensures |stations| < 2 ==> res == Err(InvalidRoute(TooFewStops))
    ensures |stations| >= 2 && !Lists.NoDuplicates(stations) ==> res == Err(InvalidRoute(DuplicateStops))
  {
    if |stations| < 2 {
      return Err(InvalidRoute(TooFewStops));
    }
    var dup := Lists.CheckDuplicateElements(stations);
    if dup {
      return Err(InvalidRoute(DuplicateStops));
    }
    return Ok(Route(name, stations));
  }

  /** The consistency check: true exactly when the route invariant holds. */
  method CheckInv(r: Route) returns (ok: bool)
    ensures ok <==> Valid(r)
  {
    var dup := Lists.CheckDuplicateElements(r.stations);
    if dup {
      return false;
    } else if |r.stations| < 2 {
      return false;
    }
    return true;
  }

  function NumStops(r: Route): (n: nat)
    ensures Valid(r) ==> n >= 2
  {
    |r.stations|
  }

  /** True iff some stop of the route is `s`. */
  function StopsAt(r: Route, s: Station): bool
  {
    s in r.stations
  }

  /** A route stops at `s` exactly when one of its stop positions holds `s`. */
  lemma StopsAtMeaning(r: Route, s: Station)
    ensures StopsAt(r, s) <==> exists k :: 0 <= k < |r.stations| && r.stations[k] == s
  {
  }

  /** The 1-based stop number of the first stop at `s`, or NoSuchStop. */
  function GetStopNumber(r: Route, s: Station): (res: Result<int, Error>)
    ensures res.Ok? <==> StopsAt(r, s)
    ensures !StopsAt(r, s) ==> res == Err(NoSuchStop)
    ensures res.Ok? ==> 1 <= res.value <= NumStops(r) && r.stations[res.value - 1] == s
  {
    if !StopsAt(r, s) then Err(NoSuchStop) else Ok(Lists.IndexOf(r.stations, s) + 1)
  }

  /** The stop number is that of the first stop at `s`: no earlier stop is `s`. */
  lemma StopNumberFirst(r: Route, s: Station)
    requires StopsAt(r, s)
    ensures forall j :: 0 <= j < GetStopNumber(r, s).value - 1 ==> r.stations[j] != s
  {
    Lists.IndexOfFirst(r.stations, s);
  }

  /** The station at stop number `i`, or NoSuchStop when there is no such stop. */
  function GetStop(r: Route, i: int): (res: Result<Station, Error>)
    ensures res.Ok? <==> 1 <= i <= NumStops(r)
    ensures res.Ok? ==> StopsAt(r, res.value)
    ensures res.Err? ==> res.error == NoSuchStop
  {
    if 1 <= i <= |r.stations| then Ok(r.stations[i - 1]) else Err(NoSuchStop)
  }

  /** Looking up the stop number of a station and then that stop gives the station back. */
  lemma StopOfStopNumber(r: Route, s: Station)
    requires StopsAt(r, s)
    ensures GetStop(r, GetStopNumber(r, s).value) == Ok(s)
  {
  }

  /** On a valid route, stop numbers and stops are inverse to each other. */
  lemma {:induction false} StopNumberOfStop(r: Route, i: int)
    requires Valid(r) && 1 <= i <= NumStops(r)
    ensures GetStopNumber(r, GetStop(r, i).value) == Ok(i)
  {
    Lists.IndexOfDistinct(r.stations, i - 1);
  }

  /**
   * True iff the two stations differ, both are on the route and the first
   * comes earlier. A station that is not on the route gives false rather
   * than NoSuchStop.
   */
  function CanTravelFrom(r: Route, s1: Station, s2: Station): (b: bool)
    ensures b ==> s1 != s2 && StopsAt(r, s1) && StopsAt(r, s2)
    ensures b ==> GetStopNumber(r, s1).value < GetStopNumber(r, s2).value
  {
    if s1 == s2 then false
    else match GetStopNumber(r, s1)
      case Err(_) => false
      case Ok(n1) =>
        match GetStopNumber(r, s2)
        case Err(_) => false
        case Ok(n2) => n1 < n2
  }

  /** CanTravelFrom in terms of positions in the station list. */
  lemma CanTravelFromMeaning(r: Route, s1: Station, s2: Station)
    ensures CanTravelFrom(r, s1, s2) <==>
      s1 != s2 && StopsAt(r, s1) && StopsAt(r, s2) &&
      Lists.IndexOf(r.stations, s1) < Lists.IndexOf(r.stations, s2)
  {
  }

  /** On a valid route, the stop at position i can reach the stop at position j iff i < j. */
  lemma {:induction false} CanTravelFromPositions(r: Route, i: nat, j: nat)
    requires Valid(r) && i < |r.stations| && j < |r.stations|
    ensures CanTravelFrom(r, r.stations[i], r.stations[j]) <==> i < j
  {
    Lists.IndexOfDistinct(r.stations, i);
    Lists.IndexOfDistinct(r.stations, j);
  }

  lemma CanTravelFromIrreflexive(r: Route, s: Station)
    ensures !CanTravelFrom(r, s, s)
  {
  }

  lemma CanTravelFromAsymmetric(r: Route, s1: Station, s2: Station)
    ensures CanTravelFrom(r, s1, s2) ==> !CanTravelFrom(r, s2, s1)
  {
  }

  lemma CanTravelFromTransitive(r: Route, s1: Station, s2: Station, s3: Station)
    requires CanTravelFrom(r, s1, s2) && CanTravelFrom(r, s2, s3)
    ensures CanTravelFrom(r, s1, s3)
  {
  }

  /**
   * The stop after `s`: its stop number plus one, looked up again. Fails
   * with NoSuchStop when `s` is not on the route or is its last stop.
   */
  function GetNextStop(r: Route, s: Station): (res: Result<Station, Error>)
    ensures res.Ok? <==> StopsAt(r, s) && Lists.IndexOf(r.stations, s) < NumStops(r) - 1
    ensures res.Ok? ==> res.value == r.stations[Lists.IndexOf(r.stations, s) + 1]
  {
    match GetStopNumber(r, s)
    case Err(e) => Err(e)
    case Ok(n) => GetStop(r, n + 1)
  }

  /** On a valid route the next stop is reachable from the current one. */
  lemma {:induction false} NextStopReachable(r: Route, s: Station)
    requires Valid(r) && GetNextStop(r, s).Ok?
    ensures CanTravelFrom(r, s, GetNextStop(r, s).value)
  {
    var k := Lists.IndexOf(r.stations, s);
    CanTravelFromPositions(r, k, k + 1);
  }

  /** Route equality as the source defines it: same name and same stations in order. */
  function SameRoute(a: Route, b: Route): (eq: bool)
    ensures eq <==> a == b
  {
    a.name == b.name && a.stations == b.stations
  }
}
