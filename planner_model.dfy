/**
 * The model behind the planner's window: the journey found last, the
 * timetable it was found in, and the found journey's legs copied into an
 * array for the controls that re-plan from an interchange station.
 */
module PlannerGui {
  import opened Wrappers
  import opened Exceptions
  import opened Routes
  import Services
  import opened Legs
  import opened Journeys
  import opened Timetables
  import JourneyFinder

  /** A journey the search can hand back: a trip over the timetable from its own first station at its own departure. */
  ghost predicate OnTimetable(tt: Timetable, legs: seq<Leg>)
  {
    forall l {:trigger TripFromStart(tt, l)} :: l == legs ==> TripFromStart(tt, l)
  }

  ghost predicate TripFromStart(tt: Timetable, legs: seq<Leg>)
  {
    WellFormed(legs) && Trip(tt, StartStationOf(legs), StartTimeOf(legs), legs)
  }

  /** OnTimetable is packed so that it is unfolded only here. */
  lemma OnTimetableMeaning(tt: Timetable, legs: seq<Leg>)
    ensures OnTimetable(tt, legs) <==> WellFormed(legs) && Trip(tt, StartStationOf(legs), StartTimeOf(legs), legs)
  {
    if OnTimetable(tt, legs) {
      assert TripFromStart(tt, legs);
    }
  }

  /**
   * Re-planning keeps the journey's first num + 1 legs and splices on a trip
   * `more` from the end of leg num. When `more` leaves no earlier than leg
   * num arrives, the splice succeeds; the result leaves from the journey's
   * first station at its old departure time and arrives where and when
   * `more` does.
   */
  lemma SpliceSucceeds(legs: seq<Leg>, num: nat, more: seq<Leg>)
    requires WellFormed(legs) && num < |legs| && Chained(more)
    requires more[0].start == legs[num].end && StartTime(more[0]) >= EndTime(legs[num])
    ensures WellFormed(legs[..num + 1])
    ensures ExtendAll(legs[..num + 1], more).Ok?
    ensures var res := ExtendAll(legs[..num + 1], more).value;
      && StartStationOf(res) == legs[0].start && StartTimeOf(res) == StartTime(legs[0])
      && EndStationOf(res) == EndStationOf(more) && EndTimeOf(res) == EndTimeOf(more)
  {
    var pre := legs[..num + 1];
    assert forall i :: 0 <= i < |pre| ==> pre[i] == legs[i];
    ExtendAllChained(pre, more);
  }

  /** A station a leg of a trip over the timetable arrives at is a stop of the timetable. */
  lemma ArrivalIsStop(tt: Timetable, l: Leg)
    requires Legs.Valid(l) && Served(tt, l)
    ensures l.end in AllStops(tt)
  {
    CanTravelFromMeaning(l.service.route, l.start, l.end);
    var k :| 0 <= k < |l.service.route.stations| && l.service.route.stations[k] == l.end;
  }

  class PlannerModel {
    var foundJourney: Journey?
    var timetable: Timetable
    var legs: array?<Leg>

    /**
     * The model's invariant: the timetable is fit for the search, and the
     * found journey and the leg array, when present, are journeys over it.
     * The array is a copy taken when the interchange stations were last
     * listed; it is not kept in step with later changes of foundJourney.
     */
    ghost predicate Valid()
      reads this, foundJourney, legs
    {
      && SearchableTimetable(timetable)
      && (foundJourney != null ==> foundJourney.Valid() && OnTimetable(timetable, foundJourney.legs))
      && (legs != null ==> LegsValid(legs[..]) && OnTimetable(timetable, legs[..]))
    }

    /** No journey found yet; the timetable is given here, where the source reads it from a file. */
    constructor (timetable: Timetable)
      requires SearchableTimetable(timetable)
      ensures Valid()
      ensures foundJourney == null && legs == null && this.timetable == timetable
    {
      foundJourney := null;
      this.timetable := timetable;
      legs := null;
    }

    /**
     * Searches the timetable and keeps the answer: an earliest trip from
     * startStation to endStation, or null when the stations are the same or
     * no trip connects them.
     */
    method FindJourney(startStation: string, endStation: string, time: int)
      requires Valid() && Station(startStation) in AllStops(timetable)
      modifies this`foundJourney
      ensures Valid()
      ensures foundJourney != null ==> Found(timetable, Station(startStation), Station(endStation), time, foundJourney.legs)
      ensures foundJourney == null <==> Unreached(timetable, Station(startStation), Station(endStation), time)
    {
      var j := RunSearch(timetable, Station(startStation), Station(endStation), time);
      if j != null {
        FoundOnTimetable(timetable, Station(startStation), Station(endStation), time, j.legs);
      }
      Adopt(j);
    }

    /** The journey found last, a journey over the timetable when there is one. */
    function GetJourney(): (j: Journey?)
      reads this, foundJourney, legs
      requires Valid()
      ensures j == foundJourney
      ensures j != null ==> j.Valid() && OnTimetable(timetable, j.legs)
    {
      foundJourney
    }

    /** Copies the legs of the found journey, in order, into a new array: one more leg than transfers. */
    method CreateLegArray()
      requires Valid() && foundJourney != null
      modifies this`legs
      ensures Valid() && legs != null && fresh(legs)
      ensures legs.Length == foundJourney.Transfers() + 1 && legs[..] == foundJourney.legs
    {
      var a := new Leg[foundJourney.Transfers() + 1];
      for i := 0 to a.Length
        invariant a[..i] == foundJourney.legs[..i]
      {
        a[i] := foundJourney.legs[i];
      }
      assert a[..] == a[..a.Length];
      legs := a;
    }

    /**
     * Refreshes the leg array and lists the interchange stations of the found
     * journey: the station each leg but the last arrives at, which is where
     * the next leg leaves from.
     */
    method GetInterchangeStations() returns (output: array<string>)
      requires Valid() && foundJourney != null
      modifies this`legs
      ensures Valid() && legs != null && fresh(legs) && legs[..] == foundJourney.legs
      ensures fresh(output) && output.Length == foundJourney.Transfers()
      ensures forall i :: 0 <= i < output.Length ==> output[i] == legs[i].end.name && output[i] == legs[i + 1].start.name
    {
      CreateLegArray();
      output := InterchangeNames(legs, foundJourney.Transfers());
    }

    /**
     * The departure time from interchange station num + 1 of the leg array:
     * the earliest time re-planning from interchange num offers, never before
     * leg num arrives there.
     */
    function GetDepartTime(num: int): (t: int)
      reads this, foundJourney, legs
      requires Valid() && legs != null && 0 <= num + 1 < legs.Length
      ensures t == StartTime(legs[num + 1])
      ensures num >= 0 ==> t >= EndTime(legs[num])
    {
      OnTimetableMeaning(timetable, legs[..]);
      if num >= 0 then
        assert Follows(legs[..][num], legs[..][num + 1]);
        StartTime(legs[num + 1])
      else
        StartTime(legs[num + 1])
    }

    /**
     * Re-plans the leg array from interchange station num: keeps legs 0 to
     * num, searches again from where leg num arrives to where the last leg
     * arrives, leaving no earlier than `time`, and splices the answer on.
     * The outcomes: Ok(null) when the search finds nothing (the journey is
     * kept); Err(InvalidJourney), the source's exception, when the answer
     * leaves before leg num arrives; otherwise the spliced journey, which
     * becomes the found journey. The previous journey object is left as it was.
     */
    method ModifyJourney(num: int, time: int) returns (res: Result<Journey?, Error>)
      requires Valid() && legs != null && 0 <= num < legs.Length
      modifies this`foundJourney
      ensures Valid()
      ensures old(foundJourney) != null ==> unchanged(old(foundJourney))
      ensures res.Ok? && res.value != null ==> fresh(res.value) && foundJourney == res.value
      ensures res.Err? || res.value == null ==> foundJourney == old(foundJourney)
      ensures Answered(timetable, old(legs[..]), num, time, res, ResultLegs(res))
    {
      res := ModifyLegs(timetable, legs, num, time);
      if res.Ok? && res.value != null {
        Adopt(res.value);
      }
    }

    /** Makes j, null or a journey over the timetable, the found journey. */
    method Adopt(j: Journey?)
      requires Valid() && (j != null ==> j.Valid() && OnTimetable(timetable, j.legs))
      modifies this`foundJourney
      ensures Valid() && foundJourney == j
    {
      foundJourney := j;
    }
  }

  /** No trip leaves s no earlier than `time` and reaches e, or s is e: the search answers null. */
  ghost predicate NoTripBetween(tt: Timetable, s: Station, e: Station, time: int)
  {
    s == e || forall other :: Trip(tt, s, time, other) ==> EndStationOf(other) != e
  }

  /** NoTripBetween, packed so that it is unfolded only through UnreachedMeaning. */
  ghost predicate Unreached(tt: Timetable, s: Station, e: Station, time: int)
  {
    forall t {:trigger NoTripBetween(tt, s, e, t)} :: t == time ==> NoTripBetween(tt, s, e, t)
  }

  /** s and e differ and `legs` is a journey that is an earliest trip from s to e; packed like Unreached. */
  ghost predicate Found(tt: Timetable, s: Station, e: Station, time: int, legs: seq<Leg>)
  {
    forall l {:trigger EarliestTrip(tt, s, e, time, l)} :: l == legs ==> s != e && WellFormed(l) && EarliestTrip(tt, s, e, time, l)
  }

  lemma UnreachedMeaning(tt: Timetable, s: Station, e: Station, time: int)
    ensures Unreached(tt, s, e, time) <==> NoTripBetween(tt, s, e, time)
  {
    if Unreached(tt, s, e, time) {
      assert NoTripBetween(tt, s, e, time);
    }
  }

  lemma FoundMeaning(tt: Timetable, s: Station, e: Station, time: int, legs: seq<Leg>)
    ensures Found(tt, s, e, time, legs) <==> s != e && WellFormed(legs) && EarliestTrip(tt, s, e, time, legs)
  {
    if Found(tt, s, e, time, legs) {
      assert EarliestTrip(tt, s, e, time, legs);
    }
  }

  /** A found journey shows that its destination is reached. */
  lemma FoundReaches(tt: Timetable, s: Station, e: Station, time: int, legs: seq<Leg>)
    requires Found(tt, s, e, time, legs)
    ensures !Unreached(tt, s, e, time)
  {
    FoundMeaning(tt, s, e, time, legs);
    UnreachedMeaning(tt, s, e, time);
    assert Trip(tt, s, time, legs) && EndStationOf(legs) == e;
  }

  /**
   * The search as the planner calls it: a journey that is an earliest trip,
   * or null exactly when no trip reaches the destination.
   */
  method RunSearch(tt: Timetable, s: Station, e: Station, time: int) returns (j: Journey?)
    requires SearchableTimetable(tt) && s in AllStops(tt)
    ensures j != null ==> j.Valid() && Found(tt, s, e, time, j.legs)
    ensures j == null <==> Unreached(tt, s, e, time)
  {
    j := JourneyFinder.FindJourney(s, e, time, tt);
    if j != null {
      FoundMeaning(tt, s, e, time, j.legs);
      FoundReaches(tt, s, e, time, j.legs);
    } else {
      UnreachedMeaning(tt, s, e, time);
    }
  }

  /** A found journey's services are valid. */
  lemma FoundServices(tt: Timetable, s: Station, e: Station, time: int, legs: seq<Leg>)
    requires Found(tt, s, e, time, legs)
    ensures forall i :: 0 <= i < |legs| ==> Services.Valid(legs[i].service)
  {
    FoundMeaning(tt, s, e, time, legs);
    assert LegsValid(legs);
  }

  /** The first loop of modifyJourney: a new journey rebuilt from legs 0 to num of the array. */
  method CopyPrefix(ls: array<Leg>, num: nat) returns (j: Journey)
    requires WellFormed(ls[..]) && num < ls.Length
    ensures fresh(j) && j.Valid() && j.legs == ls[..num + 1]
  {
    ghost var all := ls[..];
    j := new Journey(ls[0].start, ls[0].end, ls[0].service);
    var i := 1;
    while i < ls.Length
      invariant 1 <= i <= num + 1 && i <= ls.Length
      invariant fresh(j) && j.Valid() && j.legs == all[..i]
      decreases ls.Length - i
    {
      if i == num + 1 {
        break;
      }
      ExtendPrefix(all, i);
      var ok := j.ExtendJourney(ls[i].service, ls[i].end);
      assert ok;
      i := i + 1;
    }
  }

  /**
   * modifyJourney on the leg array `ls`: copies legs 0 to num into a new
   * journey, then re-plans from the end of leg num.
   */
  method ModifyLegs(tt: Timetable, ls: array<Leg>, num: nat, time: int) returns (res: Result<Journey?, Error>)
    requires SearchableTimetable(tt) && num < ls.Length
    requires LegsValid(ls[..]) && OnTimetable(tt, ls[..])
    ensures res.Ok? && res.value != null ==> fresh(res.value) && res.value.Valid() && OnTimetable(tt, res.value.legs)
    ensures Answered(tt, ls[..], num, time, res, ResultLegs(res))
  {
    ghost var all := ls[..];
    OnTimetableMeaning(tt, all);
    var j := CopyPrefix(ls, num);
    res := Replan(tt, all, num, time, ls[num].end, ls[ls.Length - 1].end, j);
  }

  /**
   * The body of modifyJourney after its first loop: searches from the end of
   * leg num of `all` to where its last leg arrives, leaving no earlier than
   * `time`, and splices the answer onto j, which holds legs 0 to num.
   */
  method Replan(tt: Timetable, ghost all: seq<Leg>, num: nat, time: int, from: Station, to: Station, j: Journey)
    returns (res: Result<Journey?, Error>)
    requires SearchableTimetable(tt) && WellFormed(all) && OnTimetable(tt, all) && num < |all|
    requires from == all[num].end && to == all[|all| - 1].end
    requires j.Valid() && j.legs == all[..num + 1]
    modifies j
    ensures res.Ok? && res.value != null ==> res.value == j && j.Valid() && OnTimetable(tt, j.legs)
    ensures Answered(tt, all, num, time, res, ResultLegs(res))
  {
    OnTimetableMeaning(tt, all);
    ArrivalIsStop(tt, all[num]);
    TripPrefix(tt, all[0].start, StartTime(all[0]), all, num + 1);
    var attempt := RunSearch(tt, from, to, time);
    if attempt == null {
      res := Ok(null);
      AnsweredMeaning(tt, all, num, time, res, []);
      return;
    }
    var more := attempt.legs;
    FoundReaches(tt, from, to, time, more);
    FoundServices(tt, from, to, time, more);
    var ok := Splice(j, more, all[..num + 1]);
    if !ok {
      SpliceFailed(tt, all, num, more, time);
      res := Err(InvalidJourney);
      AnsweredMeaning(tt, all, num, time, res, []);
      return;
    }
    ReplanFound(tt, all, num, time, more, j.legs);
    res := Ok(j);
    AnsweredMeaning(tt, all, num, time, res, j.legs);
  }

  /** The legs of the journey a re-planning answer holds, if it holds one. */
  function ResultLegs(res: Result<Journey?, Error>): seq<Leg>
    reads if res.Ok? && res.value != null then {res.value} else {}
  {
    if res.Ok? && res.value != null then res.value.legs else []
  }

  /**
   * The three ways re-planning from interchange num can end: InvalidJourney
   * when the answer leaves before leg num arrives; null exactly when no
   * re-planning is possible; otherwise a journey over the timetable with
   * the old start and destination, made of legs 0 to num and an earliest
   * trip from the end of leg num.
   */
  ghost predicate ReplanOutcome(tt: Timetable, legs: seq<Leg>, num: nat, time: int,
                                res: Result<Journey?, Error>, newLegs: seq<Leg>)
    requires num < |legs| && LegsValid(legs)
  {
    match res
    case Err(e) => e == InvalidJourney && !NoReplan(tt, legs, num, time) && time < EndTime(legs[num])
    case Ok(j) =>
      if j == null then NoReplan(tt, legs, num, time)
      else
        && !NoReplan(tt, legs, num, time)
        && WellFormed(newLegs) && OnTimetable(tt, newLegs)
        && StartStationOf(newLegs) == legs[0].start && StartTimeOf(newLegs) == StartTime(legs[0])
        && EndStationOf(newLegs) == legs[|legs| - 1].end
        && Replanned(tt, legs, num, time, newLegs)
  }

  /** ReplanOutcome, packed so that it is unfolded only through AnsweredMeaning. */
  ghost predicate Answered(tt: Timetable, legs: seq<Leg>, num: nat, time: int,
                           res: Result<Journey?, Error>, newLegs: seq<Leg>)
    requires num < |legs| && LegsValid(legs)
  {
    forall n {:trigger ReplanOutcome(tt, legs, num, time, res, n)} :: n == newLegs ==> ReplanOutcome(tt, legs, num, time, res, n)
  }

  lemma AnsweredMeaning(tt: Timetable, legs: seq<Leg>, num: nat, time: int,
                        res: Result<Journey?, Error>, newLegs: seq<Leg>)
    requires num < |legs| && LegsValid(legs)
    ensures Answered(tt, legs, num, time, res, newLegs) <==> ReplanOutcome(tt, legs, num, time, res, newLegs)
  {
    if Answered(tt, legs, num, time, res, newLegs) {
      assert ReplanOutcome(tt, legs, num, time, res, newLegs);
    }
  }

  /** No re-planning is possible: the interchange is the destination, or no trip reaches the destination from it. */
  ghost predicate NoReplan(tt: Timetable, legs: seq<Leg>, num: nat, time: int)
    requires num < |legs|
  {
    Unreached(tt, legs[num].end, legs[|legs| - 1].end, time)
  }

  /** `res` is legs 0 to num followed by `more`, an earliest trip from the end of leg num to the destination. */
  ghost predicate SplicedWith(tt: Timetable, legs: seq<Leg>, num: nat, time: int, more: seq<Leg>, res: seq<Leg>)
    requires num < |legs| && WellFormed(legs[..num + 1])
  {
    && Found(tt, legs[num].end, legs[|legs| - 1].end, time, more)
    && (forall i :: 0 <= i < |more| ==> Services.Valid(more[i].service))
    && ExtendAll(legs[..num + 1], more) == Ok(res)
  }

  /** `res` is legs 0 to num followed by some earliest trip from the end of leg num to the destination. */
  ghost predicate SplicedSome(tt: Timetable, legs: seq<Leg>, num: nat, time: int, res: seq<Leg>)
    requires num < |legs|
  {
    WellFormed(legs[..num + 1]) && exists more :: SplicedWith(tt, legs, num, time, more, res)
  }

  /** SplicedSome, packed so that it is unfolded only through ReplannedMeaning. */
  ghost predicate Replanned(tt: Timetable, legs: seq<Leg>, num: nat, time: int, res: seq<Leg>)
    requires num < |legs|
  {
    forall r {:trigger SplicedSome(tt, legs, num, time, r)} :: r == res ==> SplicedSome(tt, legs, num, time, r)
  }

  lemma ReplannedMeaning(tt: Timetable, legs: seq<Leg>, num: nat, time: int, res: seq<Leg>)
    requires num < |legs|
    ensures Replanned(tt, legs, num, time, res) <==> SplicedSome(tt, legs, num, time, res)
  {
    if Replanned(tt, legs, num, time, res) {
      assert SplicedSome(tt, legs, num, time, res);
    }
  }

  /** The interchange stations' names: the station each leg but the last arrives at. */
  method InterchangeNames(ls: array<Leg>, transfers: int) returns (output: array<string>)
    requires Chained(ls[..]) && transfers == ls.Length - 1
    ensures fresh(output) && output.Length == transfers
    ensures forall m :: 0 <= m < output.Length ==> output[m] == ls[m].end.name && output[m] == ls[m + 1].start.name
  {
    output := new string[transfers];
    var i := 0;
    for j := 0 to ls.Length
      invariant i == if j < ls.Length then j else ls.Length - 1
      invariant forall m :: 0 <= m < i ==> output[m] == ls[m].end.name
    {
      if i == transfers {
        continue;
      }
      output[i] := ls[j].end.name;
      i := i + 1;
    }
    forall m | 0 <= m < output.Length
      ensures output[m] == ls[m + 1].start.name
    {
      assert Follows(ls[..][m], ls[..][m + 1]);
    }
  }

  /**
   * The second loop of modifyJourney: extends the journey by each leg of
   * `more` in turn. It stops at the first leg it cannot take (the source's
   * InvalidJourneyException), which happens exactly when ExtendAll fails.
   */
  method Splice(j: Journey, more: seq<Leg>, ghost prefix: seq<Leg>) returns (ok: bool)
    requires j.Valid() && j.legs == prefix
    requires forall i :: 0 <= i < |more| ==> Services.Valid(more[i].service)
    modifies j
    ensures j.Valid()
    ensures ok <==> ExtendAll(prefix, more).Ok?
    ensures ok ==> j.legs == ExtendAll(prefix, more).value
  {
    for k := 0 to |more|
      invariant j.Valid() && ExtendAll(prefix, more[..k]) == Ok(j.legs)
    {
      SpliceStep(prefix, more, k, j.legs);
      ok := j.ExtendJourney(more[k].service, more[k].end);
      if !ok {
        return false;
      }
    }
    assert more[..|more|] == more;
    return true;
  }

  /**
   * One step of the splice: from the journey got by extending by the first
   * k legs of `more`, extending by leg k gives the journey for the first
   * k + 1; if that step fails, so does extending by all of `more`.
   */
  lemma SpliceStep(prefix: seq<Leg>, more: seq<Leg>, k: nat, cur: seq<Leg>)
    requires WellFormed(prefix) && forall i :: 0 <= i < |more| ==> Services.Valid(more[i].service)
    requires k < |more| && ExtendAll(prefix, more[..k]) == Ok(cur)
    ensures WellFormed(cur)
    ensures ExtendAll(prefix, more[..k + 1]) == Extend(cur, more[k].service, more[k].end)
    ensures Extend(cur, more[k].service, more[k].end).Err? ==> ExtendAll(prefix, more).Err?
  {
    ExtendAllStep(prefix, more[..k + 1]);
    assert more[..k + 1][..k] == more[..k];
    if ExtendAll(prefix, more).Ok? {
      ExtendAllPrefixOk(prefix, more, k + 1);
    }
  }

  /** Helper for FindJourney: an earliest trip is a journey over the timetable. */
  lemma FoundOnTimetable(tt: Timetable, start: Station, end: Station, time: int, legs: seq<Leg>)
    requires Found(tt, start, end, time, legs)
    ensures OnTimetable(tt, legs)
  {
    FoundMeaning(tt, start, end, time, legs);
    OnTimetableMeaning(tt, legs);
  }

  /**
   * Helper for ModifyJourney: a successful splice of an earliest trip onto
   * legs 0 to num keeps the journey's start and reaches its destination.
   */
  lemma ReplanFound(tt: Timetable, legs: seq<Leg>, num: nat, time: int, more: seq<Leg>, res: seq<Leg>)
    requires OnTimetable(tt, legs) && num < |legs|
    requires Found(tt, legs[num].end, legs[|legs| - 1].end, time, more)
    requires forall i :: 0 <= i < |more| ==> Services.Valid(more[i].service)
    requires WellFormed(legs[..num + 1]) && ExtendAll(legs[..num + 1], more) == Ok(res)
    ensures OnTimetable(tt, res)
    ensures StartStationOf(res) == legs[0].start && StartTimeOf(res) == StartTime(legs[0])
    ensures EndStationOf(res) == legs[|legs| - 1].end
    ensures Replanned(tt, legs, num, time, res)
  {
    OnTimetableMeaning(tt, legs);
    OnTimetableMeaning(tt, res);
    FoundMeaning(tt, legs[num].end, legs[|legs| - 1].end, time, more);
    TripPrefix(tt, legs[0].start, StartTime(legs[0]), legs, num + 1);
    ExtendAllTrip(tt, legs[0].start, StartTime(legs[0]), legs[..num + 1], more);
    ExtendAllEnds(legs[..num + 1], more);
    assert SplicedWith(tt, legs, num, time, more, res);
    ReplannedMeaning(tt, legs, num, time, res);
  }

  /**
   * Helper for ModifyJourney: a splice that fails means `more` leaves before
   * leg num arrives.
   */
  lemma SpliceFailed(tt: Timetable, legs: seq<Leg>, num: nat, more: seq<Leg>, time: int)
    requires WellFormed(legs) && num < |legs|
    requires Found(tt, legs[num].end, legs[|legs| - 1].end, time, more)
    requires forall i :: 0 <= i < |more| ==> Services.Valid(more[i].service)
    requires WellFormed(legs[..num + 1]) && ExtendAll(legs[..num + 1], more).Err?
    ensures time < EndTime(legs[num])
  {
    FoundMeaning(tt, legs[num].end, legs[|legs| - 1].end, time, more);
    if time >= EndTime(legs[num]) {
      SpliceSucceeds(legs, num, more);
    }
  }
}
