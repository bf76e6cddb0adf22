/**
 * Timetables: each route maps to the list of services that run on it. This
 * module states what the journey search demands of a timetable. It also
 * defines the journeys it must beat: trips over the timetable's services.
 */
module Timetables {
  import opened Routes
  import Services
  import opened Legs
  import opened Journeys

  type Timetable = map<Route, seq<Services.Service>>

  /** Every route is valid and every service listed for a route is a valid service of that route. */
  predicate WellFormedTimetable(tt: Timetable)
  {
    forall r :: r in tt ==>
      Routes.Valid(r) && forall i :: 0 <= i < |tt[r]| ==> tt[r][i].route == r && Services.Valid(tt[r][i])
  }

  /** Services i and j of route r, if different, leave its first stop at different times. */
  predicate DepartApart(tt: Timetable, r: Route, i: int, j: int)
    requires r in tt && 0 <= i < |tt[r]| && 0 <= j < |tt[r]|
  {
    tt[r][i] != tt[r][j] && |tt[r][i].times| > 0 && |tt[r][j].times| > 0 ==>
      tt[r][i].times[0] != tt[r][j].times[0]
  }

  /** Two different services of a route never leave its first stop at the same time. */
  predicate UniqueDepartures(tt: Timetable)
  {
    forall r, i, j {:trigger DepartApart(tt, r, i, j)} ::
      r in tt && 0 <= i < |tt[r]| && 0 <= j < |tt[r]| ==> DepartApart(tt, r, i, j)
  }

  /** If service i of route r leaves the first stop before service j, it reaches every stop before j. */
  predicate StaysAhead(tt: Timetable, r: Route, i: int, j: int)
    requires r in tt && 0 <= i < |tt[r]| && 0 <= j < |tt[r]|
  {
    |tt[r][i].times| > 0 && |tt[r][j].times| > 0 && tt[r][i].times[0] < tt[r][j].times[0] ==>
      forall k :: 0 <= k < |tt[r][i].times| && k < |tt[r][j].times| ==> tt[r][i].times[k] < tt[r][j].times[k]
  }

  /** A service that leaves the first stop before another reaches every stop before it. */
  predicate NoOvertaking(tt: Timetable)
  {
    forall r, i, j {:trigger StaysAhead(tt, r, i, j)} ::
      r in tt && 0 <= i < |tt[r]| && 0 <= j < |tt[r]| ==> StaysAhead(tt, r, i, j)
  }

  /** All three demands together. */
  predicate SearchableTimetable(tt: Timetable)
  {
    WellFormedTimetable(tt) && UniqueDepartures(tt) && NoOvertaking(tt)
  }

  /** Every station some route of the timetable stops at. */
  function AllStops(tt: Timetable): (stops: set<Station>)
    ensures forall r, k :: r in tt && 0 <= k < |r.stations| ==> r.stations[k] in stops
    ensures forall s :: s in stops ==> exists r :: r in tt && StopsAt(r, s)
  {
    set r, k | r in tt && 0 <= k < |r.stations| :: r.stations[k]
  }

  /** Every stop of route r is in `stops`. */
  predicate RouteCovered(r: Route, stops: set<Station>)
  {
    forall k :: 0 <= k < |r.stations| ==> r.stations[k] in stops
  }

  /** Every stop of every route of the timetable is in `stops`. */
  predicate CoversStops(tt: Timetable, stops: set<Station>)
  {
    forall r :: r in tt ==> RouteCovered(r, stops)
  }

  lemma AllStopsCovers(tt: Timetable)
    ensures CoversStops(tt, AllStops(tt))
  {
  }

  /**
   * Without overtaking, catching a service no later than another at some
   * stop means reaching every stop no later than it.
   */
  lemma {:induction false} EarlierStaysEarlier(tt: Timetable, r: Route, i: nat, j: nat, k: nat, k2: nat)
    requires SearchableTimetable(tt) && r in tt && i < |tt[r]| && j < |tt[r]|
    requires k < |r.stations| && k2 < |r.stations|
    requires tt[r][i].times[k] <= tt[r][j].times[k]
    ensures tt[r][i].times[k2] <= tt[r][j].times[k2]
  {
    assert DepartApart(tt, r, i, j) && StaysAhead(tt, r, i, j) && StaysAhead(tt, r, j, i);
    if tt[r][i] != tt[r][j] {
      assert tt[r][i].times[0] != tt[r][j].times[0];
      if tt[r][i].times[0] < tt[r][j].times[0] {
        assert tt[r][i].times[k2] < tt[r][j].times[k2];
      }
    }
  }

  /** A leg whose service is listed in the timetable under its own route. */
  predicate Served(tt: Timetable, l: Leg)
  {
    l.service.route in tt && l.service in tt[l.service.route]
  }

  /**
   * A trip from `start`, leaving no earlier than `time`, over the
   * timetable's services. Adjacent legs may share a service, so trips
   * include every journey the planner can build.
   */
  predicate Trip(tt: Timetable, start: Station, time: int, legs: seq<Leg>)
  {
    && Chained(legs)
    && (forall i :: 0 <= i < |legs| ==> Served(tt, legs[i]))
    && legs[0].start == start
    && StartTimeOf(legs) >= time
  }

  /** A trip to `end` that arrives no later than any other trip from `start` to `end`. */
  ghost predicate EarliestTrip(tt: Timetable, start: Station, end: Station, time: int, legs: seq<Leg>)
  {
    && Trip(tt, start, time, legs)
    && EndStationOf(legs) == end
    && forall other :: Trip(tt, start, time, other) && EndStationOf(other) == end ==>
         EndTimeOf(legs) <= EndTimeOf(other)
  }

  /** A single leg on a listed service, leaving no earlier than `time`, is a trip. */
  lemma SingleLegTrip(tt: Timetable, start: Station, next: Station, service: Services.Service, time: int)
    requires Services.Valid(service) && service.route in tt && service in tt[service.route]
    requires Services.CanTravelFrom(service, start, next, time)
    ensures Legs.Valid(Leg(start, next, service))
    ensures WellFormed([Leg(start, next, service)])
    ensures Trip(tt, start, time, [Leg(start, next, service)])
  {
  }

  /** Extending a trip by a listed service gives a trip with the same start. */
  lemma {:induction false} ExtendTrip(tt: Timetable, start: Station, time: int, legs: seq<Leg>,
                                      service: Services.Service, next: Station)
    requires WellFormed(legs) && Trip(tt, start, time, legs)
    requires Services.Valid(service) && service.route in tt && service in tt[service.route]
    requires Extend(legs, service, next).Ok?
    ensures Trip(tt, start, time, Extend(legs, service, next).value)
  {
    ExtendWellFormed(legs, service, next);
    var ext := Extend(legs, service, next).value;
    if legs[|legs| - 1].service == service {
      ExtendMerges(legs, service, next);
    } else {
      ExtendAppends(legs, service, next);
    }
    forall i | 0 <= i < |ext|
      ensures Served(tt, ext[i])
    {
      if i < |ext| - 1 {
        assert ext[i] == legs[i];
      }
    }
  }

  /** Extending a trip by the legs of another trip, one after the other, gives a trip with the same start. */
  lemma {:induction false} ExtendAllTrip(tt: Timetable, start: Station, time: int, legs: seq<Leg>, more: seq<Leg>)
    requires WellFormed(legs) && Trip(tt, start, time, legs)
    requires forall i :: 0 <= i < |more| ==> Services.Valid(more[i].service) && Served(tt, more[i])
    requires ExtendAll(legs, more).Ok?
    ensures Trip(tt, start, time, ExtendAll(legs, more).value)
    decreases |more|
  {
    if |more| > 0 {
      ExtendTrip(tt, start, time, legs, more[0].service, more[0].end);
      ExtendKeepsWellFormed(legs, more[0].service, more[0].end);
      ExtendAllTrip(tt, start, time, Extend(legs, more[0].service, more[0].end).value, more[1..]);
    }
  }

  /** The first n legs of a trip are a trip, and of a journey a journey. */
  lemma TripPrefix(tt: Timetable, start: Station, time: int, legs: seq<Leg>, n: nat)
    requires Trip(tt, start, time, legs) && 1 <= n <= |legs|
    ensures Trip(tt, start, time, legs[..n])
    ensures WellFormed(legs) ==> WellFormed(legs[..n])
  {
    var pre := legs[..n];
    assert forall i :: 0 <= i < n ==> pre[i] == legs[i];
  }
}
