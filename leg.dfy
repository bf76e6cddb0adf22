/** Legs: one ride on one service from a stop to a later stop of its route. */
module Legs {
  import opened Wrappers
  import opened Exceptions
  import opened Routes
  import opened Services

  datatype Leg = Leg(start: Station, end: Station, service: Service)

  /** The consistency check: the service's route can take you from start to end. */
  predicate CheckInv(l: Leg): (ok: bool)
    ensures ok ==> l.start != l.end && StopsAt(l.service.route, l.start) && StopsAt(l.service.route, l.end)
  {
    Routes.CanTravelFrom(l.service.route, l.start, l.end)
  }

  /** A leg as the source can build it: a valid service and a possible ride. */
  predicate Valid(l: Leg)
  {
    Services.Valid(l.service) && CheckInv(l)
  }

  /**
   * The constructor: fails with InvalidJourney unless the route can take you
   * from start to end, which rules out start == end.
   */
  function NewLeg(start: Station, end: Station, service: Service): (res: Result<Leg, Error>)
    ensures res.Ok? <==> Routes.CanTravelFrom(service.route, start, end)
    ensures res.Ok? ==> res.value == Leg(start, end, service) && CheckInv(res.value)
    ensures res.Ok? ==> start != end && StopsAt(service.route, start) && StopsAt(service.route, end)
    ensures res.Err? ==> res.error == InvalidJourney
  {
    if !Routes.CanTravelFrom(service.route, start, end) then Err(InvalidJourney)
    else Ok(Leg(start, end, service))
  }

  /** Departure time: the service's time at the start station. */
  function StartTime(l: Leg): (t: int)
    requires Valid(l)
    ensures Services.GetStopTimeAt(l.service, l.start) == Ok(t)
  {
    Services.GetStopTimeAt(l.service, l.start).value
  }

  /** Arrival time: the service's time at the end station. */
  function EndTime(l: Leg): (t: int)
    requires Valid(l)
    ensures Services.GetStopTimeAt(l.service, l.end) == Ok(t)
  {
    Services.GetStopTimeAt(l.service, l.end).value
  }

  /** Every leg arrives strictly later than it departs, and departs at a non-negative time. */
  lemma {:induction false} StartBeforeEnd(l: Leg)
    requires Valid(l)
    ensures 0 <= StartTime(l) < EndTime(l)
  {
    Services.NoInstantTravel(l.service, l.start, l.end);
    Services.TimesOkMeaning(l.service.route, l.service.times);
  }

  /** Leg equality as the source defines it: equal start, end and service. */
  function SameLeg(a: Leg, b: Leg): (eq: bool)
    ensures eq <==> a == b
  {
    a.start == b.start && a.end == b.end && SameService(a.service, b.service)
  }
}
