/**
 * Journeys: a non-empty sequence of legs in which every leg departs from the
 * station its predecessor arrives at, no earlier than that arrival, and on a
 * different service. The sequence-level definitions come first; the mutable
 * Journey object follows.
 */
module Journeys {
  import opened Wrappers
  import opened Exceptions
  import opened Routes
  import Services
  import opened Legs

  /** Non-empty and every leg is one the Leg constructor accepts. */
  predicate LegsValid(legs: seq<Leg>)
  {
    |legs| >= 1 && forall i :: 0 <= i < |legs| ==> Legs.Valid(legs[i])
  }

  /** Leg b can be taken after leg a: same interchange station, no earlier than a arrives. */
  predicate Follows(a: Leg, b: Leg)
    requires Legs.Valid(a) && Legs.Valid(b)
  {
    b.start == a.end && StartTime(b) >= EndTime(a)
  }

  /** A sequence of legs that can be travelled one after another. */
  predicate Chained(legs: seq<Leg>)
  {
    LegsValid(legs) && forall i :: 1 <= i < |legs| ==> Follows(legs[i - 1], legs[i])
  }

  /** The journey invariant: chained legs, no two adjacent ones on the same service. */
  predicate WellFormed(legs: seq<Leg>)
  {
    Chained(legs) && forall i :: 1 <= i < |legs| ==> legs[i - 1].service != legs[i].service
  }

  function StartStationOf(legs: seq<Leg>): Station
    requires |legs| >= 1
  {
    legs[0].start
  }

  function EndStationOf(legs: seq<Leg>): Station
    requires |legs| >= 1
  {
    legs[|legs| - 1].end
  }

  function StartTimeOf(legs: seq<Leg>): int
    requires LegsValid(legs)
  {
    StartTime(legs[0])
  }

  function EndTimeOf(legs: seq<Leg>): int
    requires LegsValid(legs)
  {
    EndTime(legs[|legs| - 1])
  }

  /** Difference between the arrival of the last leg and the departure of the first. */
  function TravelTime(legs: seq<Leg>): int
    requires LegsValid(legs)
  {
    EndTimeOf(legs) - StartTimeOf(legs)
  }

  /** Along chained legs every leg arrives strictly after the first one departs. */
  lemma {:induction false} ChainedArrivesLater(legs: seq<Leg>, i: nat)
    requires Chained(legs) && i < |legs|
    ensures StartTimeOf(legs) < EndTime(legs[i])
  {
    StartBeforeEnd(legs[i]);
    if i > 0 {
      ChainedArrivesLater(legs, i - 1);
    }
  }

  /** Chained legs take a positive amount of time. */
  lemma TravelTimePositive(legs: seq<Leg>)
    requires Chained(legs)
    ensures TravelTime(legs) > 0
  {
    ChainedArrivesLater(legs, |legs| - 1);
  }

  /**
   * Extending a journey by catching `service` from its last station to
   * `next`. Fails unless the service can take you there departing no
   * earlier than the journey's arrival. On the same service as the last leg,
   * that leg is replaced by one running on to `next`; otherwise a new leg is
   * appended.
   */
  function Extend(legs: seq<Leg>, service: Services.Service, next: Station): (res: Result<seq<Leg>, Error>)
    requires WellFormed(legs) && Services.Valid(service)
    ensures res.Err? ==> res.error == InvalidJourney
  {
    var last := legs[|legs| - 1];
    if !Services.CanTravelFrom(service, last.end, next, EndTime(last)) then Err(InvalidJourney)
    else if last.end == next then Err(InvalidJourney)
    else if last.service == service then Ok(legs[..|legs| - 1] + [Leg(last.start, next, service)])
    else Ok(legs + [Leg(last.end, next, service)])
  }

  /** Extending fails exactly when the service cannot be caught at the journey's end in time. */
  lemma ExtendOkIff(legs: seq<Leg>, service: Services.Service, next: Station)
    requires WellFormed(legs) && Services.Valid(service)
    ensures Extend(legs, service, next).Ok? <==>
      Services.CanTravelFrom(service, EndStationOf(legs), next, EndTimeOf(legs))
  {
  }

  /**
   * A successful extension is again a journey. It starts where and when the
   * old one did and arrives at `next` at the service's time there. The legs
   * before the last one are kept. On the same service as the last leg the
   * number of legs stays the same; otherwise it grows by one.
   */
  lemma {:induction false} ExtendWellFormed(legs: seq<Leg>, service: Services.Service, next: Station)
    requires WellFormed(legs) && Services.Valid(service)
    requires Extend(legs, service, next).Ok?
    ensures var ext := Extend(legs, service, next).value;
      && WellFormed(ext)
      && StartStationOf(ext) == StartStationOf(legs)
      && StartTimeOf(ext) == StartTimeOf(legs)
      && EndStationOf(ext) == next
      && Services.GetStopTimeAt(service, next) == Ok(EndTimeOf(ext))
      && EndTimeOf(ext) > EndTimeOf(legs)
      && ext[..|legs| - 1] == legs[..|legs| - 1]
      && ext[|ext| - 1].service == service
      && (|ext| == |legs| <==> legs[|legs| - 1].service == service)
      && (|ext| == |legs| + 1 <==> legs[|legs| - 1].service != service)
  {
    var last := legs[|legs| - 1];
    Services.NoInstantTravel(service, last.end, next);
    if last.service == service {
      ExtendMerges(legs, service, next);
    } else {
      ExtendAppends(legs, service, next);
    }
  }

  /** ExtendWellFormed's first conclusion alone: a successful extension is again a journey. */
  lemma ExtendKeepsWellFormed(legs: seq<Leg>, service: Services.Service, next: Station)
    requires WellFormed(legs) && Services.Valid(service)
    requires Extend(legs, service, next).Ok?
    ensures WellFormed(Extend(legs, service, next).value)
  {
    ExtendWellFormed(legs, service, next);
  }

  /** Helper for ExtendWellFormed: on the last leg's service, the last leg runs on to `next`. */
  lemma {:induction false} ExtendMerges(legs: seq<Leg>, service: Services.Service, next: Station)
    requires WellFormed(legs) && Services.Valid(service)
    requires Extend(legs, service, next).Ok? && legs[|legs| - 1].service == service
    ensures var ext := Extend(legs, service, next).value;
      && WellFormed(ext) && |ext| == |legs|
      && StartStationOf(ext) == StartStationOf(legs) && StartTimeOf(ext) == StartTimeOf(legs)
      && ext[..|legs| - 1] == legs[..|legs| - 1]
      && ext[|ext| - 1] == Leg(legs[|legs| - 1].start, next, service)
  {
    var last := legs[|legs| - 1];
    var ext := Extend(legs, service, next).value;
    CanTravelFromTransitive(service.route, last.start, last.end, next);
    var l := Leg(last.start, next, service);
    assert Legs.Valid(l);
    assert StartTime(l) == StartTime(last);
    assert ext == legs[..|legs| - 1] + [l];
    forall i | 1 <= i < |ext|
      ensures Follows(ext[i - 1], ext[i]) && ext[i - 1].service != ext[i].service
    {
      assert ext[i - 1] == legs[i - 1];
      if i < |ext| - 1 {
        assert ext[i] == legs[i];
      } else {
        assert Follows(legs[i - 1], legs[i]);
      }
    }
  }

  /** Helper for ExtendWellFormed: on another service, a new leg is appended. */
  lemma {:induction false} ExtendAppends(legs: seq<Leg>, service: Services.Service, next: Station)
    requires WellFormed(legs) && Services.Valid(service)
    requires Extend(legs, service, next).Ok? && legs[|legs| - 1].service != service
    ensures var ext := Extend(legs, service, next).value;
      && WellFormed(ext) && |ext| == |legs| + 1
      && StartStationOf(ext) == StartStationOf(legs) && StartTimeOf(ext) == StartTimeOf(legs)
      && ext[..|legs|] == legs
      && ext[|ext| - 1] == Leg(legs[|legs| - 1].end, next, service)
  {
    var last := legs[|legs| - 1];
    var ext := Extend(legs, service, next).value;
    var l := Leg(last.end, next, service);
    assert Legs.Valid(l);
    assert ext == legs + [l];
    forall i | 1 <= i < |ext|
      ensures Follows(ext[i - 1], ext[i]) && ext[i - 1].service != ext[i].service
    {
      assert ext[i - 1] == legs[i - 1];
      if i < |ext| - 1 {
        assert ext[i] == legs[i];
      }
    }
  }

  /** The Java class documents a second failure, `next` being the current last station; it is subsumed. */
  lemma ExtendToSameStationFails(legs: seq<Leg>, service: Services.Service)
    requires WellFormed(legs) && Services.Valid(service)
    ensures Extend(legs, service, EndStationOf(legs)).Err?
  {
  }

  /** Extending, one after the other, by each leg's service to that leg's end station. */
  function ExtendAll(legs: seq<Leg>, more: seq<Leg>): (res: Result<seq<Leg>, Error>)
    requires WellFormed(legs) && forall i :: 0 <= i < |more| ==> Services.Valid(more[i].service)
    ensures res.Ok? ==> WellFormed(res.value)
    ensures res.Err? ==> res.error == InvalidJourney
    decreases |more|
  {
    if |more| == 0 then Ok(legs)
    else match Extend(legs, more[0].service, more[0].end)
      case Err(e) => Err(e)
      case Ok(ext) =>
        ExtendKeepsWellFormed(legs, more[0].service, more[0].end);
        ExtendAll(ext, more[1..])
  }

  /** Re-extending by the legs of a journey rebuilds it leg by leg from its first leg. */
  lemma {:induction false} ExtendPrefix(legs: seq<Leg>, i: nat)
    requires WellFormed(legs) && 1 <= i < |legs|
    ensures WellFormed(legs[..i]) && WellFormed(legs[..i + 1])
    ensures Extend(legs[..i], legs[i].service, legs[i].end) == Ok(legs[..i + 1])
  {
    var pre := legs[..i];
    assert Follows(legs[i - 1], legs[i]);
    assert pre[|pre| - 1] == legs[i - 1];
    assert Leg(legs[i - 1].end, legs[i].end, legs[i].service) == legs[i];
    assert legs[..i] + [legs[i]] == legs[..i + 1];
  }

  /** Starting from the first leg and extending by the legs 1 to k rebuilds the first k + 1 legs. */
  lemma {:induction false} ExtendAllRebuilds(legs: seq<Leg>, k: nat)
    requires WellFormed(legs) && k < |legs|
    ensures WellFormed(legs[..1])
    ensures ExtendAll(legs[..1], legs[1..k + 1]) == Ok(legs[..k + 1])
  {
    if k == 0 {
      assert legs[1..1] == [];
    } else {
      var more := legs[1..k + 1];
      ExtendAllRebuilds(legs, k - 1);
      ExtendAllStep(legs[..1], more);
      assert more[..|more| - 1] == legs[1..k] && more[|more| - 1] == legs[k];
      ExtendPrefix(legs, k);
    }
  }

  /** Extending by all legs is extending by all but the last, then by the last. */
  lemma {:induction false} ExtendAllStep(legs: seq<Leg>, more: seq<Leg>)
    requires WellFormed(legs) && forall i :: 0 <= i < |more| ==> Services.Valid(more[i].service)
    requires |more| >= 1
    ensures ExtendAll(legs, more) ==
      match ExtendAll(legs, more[..|more| - 1])
      case Err(e) => Err(e)
      case Ok(pre) => Extend(pre, more[|more| - 1].service, more[|more| - 1].end)
    decreases |more|
  {
    if |more| > 1 {
      var init := more[..|more| - 1];
      assert init[0] == more[0];
      match Extend(legs, more[0].service, more[0].end)
      case Err(_) =>
      case Ok(ext) =>
        ExtendKeepsWellFormed(legs, more[0].service, more[0].end);
        ExtendAllStep(ext, more[1..]);
        assert more[1..][..|more[1..]| - 1] == init[1..];
        assert ExtendAll(legs, init) == ExtendAll(ext, init[1..]);
    }
  }

  /** If extending by all of `more` succeeds, so does extending by its first k legs. */
  lemma {:induction false} ExtendAllPrefixOk(legs: seq<Leg>, more: seq<Leg>, k: nat)
    requires WellFormed(legs) && forall i :: 0 <= i < |more| ==> Services.Valid(more[i].service)
    requires k <= |more| && ExtendAll(legs, more).Ok?
    ensures ExtendAll(legs, more[..k]).Ok?
    decreases |more|
  {
    if k > 0 {
      var ext := Extend(legs, more[0].service, more[0].end).value;
      ExtendKeepsWellFormed(legs, more[0].service, more[0].end);
      ExtendAllPrefixOk(ext, more[1..], k - 1);
      assert more[..k][0] == more[0] && more[..k][1..] == more[1..][..k - 1];
    }
  }

  /** A successful ExtendAll keeps the start of the journey and, when `more` is not empty, arrives where its last leg does. */
  lemma ExtendAllEnds(legs: seq<Leg>, more: seq<Leg>)
    requires WellFormed(legs) && forall i :: 0 <= i < |more| ==> Services.Valid(more[i].service)
    requires ExtendAll(legs, more).Ok?
    ensures var res := ExtendAll(legs, more).value;
      && StartStationOf(res) == StartStationOf(legs) && StartTimeOf(res) == StartTimeOf(legs)
      && (|more| > 0 ==> EndStationOf(res) == more[|more| - 1].end)
  {
    ExtendAllStart(legs, more);
    if |more| > 0 {
      ExtendAllArrives(legs, more);
    }
  }

  /** Helper for ExtendAllEnds: the start station and time. */
  lemma {:induction false} ExtendAllStart(legs: seq<Leg>, more: seq<Leg>)
    requires WellFormed(legs) && forall i :: 0 <= i < |more| ==> Services.Valid(more[i].service)
    requires ExtendAll(legs, more).Ok?
    ensures StartStationOf(ExtendAll(legs, more).value) == StartStationOf(legs)
    ensures StartTimeOf(ExtendAll(legs, more).value) == StartTimeOf(legs)
    decreases |more|
  {
    if |more| > 0 {
      var ext := Extend(legs, more[0].service, more[0].end).value;
      ExtendWellFormed(legs, more[0].service, more[0].end);
      ExtendAllStart(ext, more[1..]);
    }
  }

  /** Helper for ExtendAllEnds: the arrival station. */
  lemma {:induction false} ExtendAllArrives(legs: seq<Leg>, more: seq<Leg>)
    requires WellFormed(legs) && forall i :: 0 <= i < |more| ==> Services.Valid(more[i].service)
    requires |more| > 0 && ExtendAll(legs, more).Ok?
    ensures EndStationOf(ExtendAll(legs, more).value) == more[|more| - 1].end
    decreases |more|
  {
    var ext := Extend(legs, more[0].service, more[0].end).value;
    ExtendWellFormed(legs, more[0].service, more[0].end);
    if |more| > 1 {
      ExtendAllArrives(ext, more[1..]);
      assert more[1..][|more[1..]| - 1] == more[|more| - 1];
    }
  }

  /**
   * Splicing: extending a journey by chained legs that leave its end station
   * no earlier than it arrives always succeeds. The result keeps the
   * journey's start and arrives where and when the added legs do.
   */
  lemma {:induction false} ExtendAllChained(legs: seq<Leg>, more: seq<Leg>)
    requires WellFormed(legs) && Chained(more)
    requires more[0].start == EndStationOf(legs) && StartTime(more[0]) >= EndTimeOf(legs)
    ensures ExtendAll(legs, more).Ok?
    ensures var res := ExtendAll(legs, more).value;
      && StartStationOf(res) == StartStationOf(legs) && StartTimeOf(res) == StartTimeOf(legs)
      && EndStationOf(res) == EndStationOf(more) && EndTimeOf(res) == EndTimeOf(more)
    decreases |more|
  {
    var l := more[0];
    assert Services.CanTravelFrom(l.service, EndStationOf(legs), l.end, EndTimeOf(legs));
    ExtendWellFormed(legs, l.service, l.end);
    var ext := Extend(legs, l.service, l.end).value;
    assert EndTimeOf(ext) == EndTime(l);
    if |more| > 1 {
      ChainedTail(more);
      ExtendAllChained(ext, more[1..]);
    }
  }

  /** The legs after the first of a chain are a chain that the first leg leads into. */
  lemma ChainedTail(more: seq<Leg>)
    requires Chained(more) && |more| > 1
    ensures Follows(more[0], more[1]) && Chained(more[1..])
  {
    forall i | 1 <= i < |more[1..]|
      ensures Follows(more[1..][i - 1], more[1..][i])
    {
      assert Follows(more[i], more[i + 1]);
    }
  }

  /**
   * A mutable journey. `legs` is the Java list of legs and `totalTravelTime`
   * the cached total, which every operation recomputes.
   */
  class Journey {
    var legs: seq<Leg>
    var totalTravelTime: int

    /** The class invariant: well-formed legs and an up-to-date total. */
    ghost predicate Valid()
      reads this
    {
      WellFormed(legs) && totalTravelTime == TravelTime(legs)
    }

    /** A one-leg journey; the caller guarantees the route can make the ride. */
    constructor (startStation: Station, endStation: Station, service: Services.Service)
      requires Services.Valid(service) && Routes.CanTravelFrom(service.route, startStation, endStation)
      ensures Valid()
      ensures legs == [Leg(startStation, endStation, service)]
    {
      legs := [Leg(startStation, endStation, service)];
      totalTravelTime := 0;
      new;
      UpdateTotalTravelTime();
    }

    /** The one-leg constructor with its exception: InvalidJourney unless the route can make the ride. */
    static method Create(startStation: Station, endStation: Station, service: Services.Service)
      returns (res: Result<Journey, Error>)
      requires Services.Valid(service)
      ensures res.Ok? <==> Routes.CanTravelFrom(service.route, startStation, endStation)
      ensures res.Ok? ==> fresh(res.value) && res.value.Valid()
      ensures res.Ok? ==> res.value.legs == [Leg(startStation, endStation, service)]
      ensures res.Err? ==> res.error == InvalidJourney
    {
      if !Routes.CanTravelFrom(service.route, startStation, endStation) {
        return Err(InvalidJourney);
      }
      var j := new Journey(startStation, endStation, service);
      return Ok(j);
    }

    /** The copy constructor: a new object holding the same legs and total. */
    constructor Copy(other: Journey)
      requires other.Valid()
      ensures Valid()
      ensures legs == other.legs && totalTravelTime == other.totalTravelTime
    {
      legs := other.legs;
      totalTravelTime := other.totalTravelTime;
    }

    function StartTime(): (t: int)
      reads this
      requires Valid()
      ensures t == Legs.StartTime(legs[0]) && t < EndTime()
    {
      TravelTimePositive(legs);
      StartTimeOf(legs)
    }

    function EndTime(): (t: int)
      reads this
      requires Valid()
      ensures t == Legs.EndTime(legs[|legs| - 1])
    {
      EndTimeOf(legs)
    }

    function StartStation(): (s: Station)
      reads this
      requires Valid()
      ensures s == legs[0].start
    {
      StartStationOf(legs)
    }

    function EndStation(): (s: Station)
      reads this
      requires Valid()
      ensures s == legs[|legs| - 1].end
    {
      EndStationOf(legs)
    }

    /** One transfer between each pair of adjacent legs. */
    function Transfers(): (n: int)
      reads this
      requires Valid()
      ensures n >= 0 && n + 1 == |legs|
    {
      |legs| - 1
    }

    /** The cached total is the arrival time minus the departure time, and is positive. */
    function TotalTravelTime(): (t: int)
      reads this
      requires Valid()
      ensures t == EndTime() - StartTime() && t > 0
    {
      TravelTimePositive(legs);
      totalTravelTime
    }

    /** Recomputes the cached total from the first and last leg. */
    method UpdateTotalTravelTime()
      requires LegsValid(legs)
      modifies this
      ensures legs == old(legs) && totalTravelTime == TravelTime(legs)
    {
      totalTravelTime := Legs.EndTime(legs[|legs| - 1]) - Legs.StartTime(legs[0]);
    }

    /**
     * Extends the journey in place as Extend describes. On failure (the Java
     * InvalidJourneyException) nothing changes and `ok` is false.
     */
    method ExtendJourney(service: Services.Service, nextStation: Station) returns (ok: bool)
      requires Valid() && Services.Valid(service)
      modifies this
      ensures Valid()
      ensures ok <==> Extend(old(legs), service, nextStation).Ok?
      ensures ok ==> legs == Extend(old(legs), service, nextStation).value
      ensures !ok ==> legs == old(legs) && totalTravelTime == old(totalTravelTime)
    {
      var last := legs[|legs| - 1];
      if !Services.CanTravelFrom(service, last.end, nextStation, Legs.EndTime(last)) {
        return false;
      } else if last.end == nextStation {
        return false;
      }
      ghost var expected := Extend(legs, service, nextStation).value;
      ExtendWellFormed(legs, service, nextStation);
      if last.service == service {
        var startStation := last.start;
        legs := legs[..|legs| - 1];
        legs := legs + [Leg(startStation, nextStation, service)];
        UpdateTotalTravelTime();
      } else {
        legs := legs + [Leg(last.end, nextStation, service)];
        UpdateTotalTravelTime();
      }
      assert legs == expected;
      return true;
    }

    /**
     * Whether leg i is possible: the first leg on its route alone, every
     * later one by its service leaving no earlier than the previous leg arrives.
     */
    function CheckPossibleTrip(i: int): (ok: bool)
      reads this
      requires 0 <= i < |legs| && forall k :: 0 <= k < |legs| ==> Legs.Valid(legs[k])
      ensures ok ==> Legs.CheckInv(legs[i])
      ensures ok && i > 0 ==> Legs.StartTime(legs[i]) >= Legs.EndTime(legs[i - 1])
      ensures i > 0 && Legs.CheckInv(legs[i]) && Legs.StartTime(legs[i]) >= Legs.EndTime(legs[i - 1]) ==> ok
      ensures i == 0 ==> (ok <==> Legs.CheckInv(legs[i]))
    {
      assert Legs.Valid(legs[i]);
      if i > 0 then Services.CanTravelFrom(legs[i].service, legs[i].start, legs[i].end, Legs.EndTime(legs[i - 1]))
      else Routes.CanTravelFrom(legs[i].service.route, legs[i].start, legs[i].end)
    }

    /**
     * The consistency check: a non-negative total, at least one leg (no
     * negative transfer count) and every leg possible. It does not look at
     * whether consecutive legs share their interchange station.
     */
    method CheckInv() returns (ok: bool)
      requires forall k :: 0 <= k < |legs| ==> Legs.Valid(legs[k])
      ensures ok <==> (totalTravelTime >= 0 && |legs| >= 1 &&
                       forall i :: 0 <= i < |legs| ==> CheckPossibleTrip(i))
    {
      if totalTravelTime < 0 {
        return false;
      } else if |legs| - 1 < 0 {
        return false;
      }
      for i := 0 to |legs|
        invariant forall k :: 0 <= k < i ==> CheckPossibleTrip(k)
      {
        if !CheckPossibleTrip(i) {
          return false;
        }
      }
      return true;
    }

    /** Every journey satisfying the class invariant passes the consistency check. */
    lemma ValidPassesCheckInv()
      requires Valid()
      ensures totalTravelTime >= 0 && |legs| >= 1
      ensures forall i :: 0 <= i < |legs| ==> CheckPossibleTrip(i)
    {
      TravelTimePositive(legs);
      forall i | 0 <= i < |legs|
        ensures CheckPossibleTrip(i)
      {
        if i > 0 {
          assert Follows(legs[i - 1], legs[i]);
        }
      }
    }
  }
}
