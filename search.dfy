/**
 * The journey search on values. A Table is a snapshot of the search's node
 * map: one NodeState per station. This module states the invariants of the
 * earliest-arrival search and proves them preserved by its steps. It also
 * proves the two conclusions: a journey found when the end station is
 * selected arrives no later than any trip, and emptying the frontier means
 * no trip exists.
 */
module Search {
  import opened Wrappers
  import opened Routes
  import Services
  import Lists
  import opened Legs
  import opened Journeys
  import opened Timetables

  /** Finalised and defined flags and the legs of the fastest known journey (None for null). */
  datatype NodeState = NodeState(finalised: bool, defined: bool, journey: Option<seq<Leg>>)

  type Table = map<Station, NodeState>

  /** Every recorded journey has legs whose times are defined. */
  predicate Timed(tab: Table)
  {
    forall x :: x in tab && tab[x].journey.Some? ==> LegsValid(tab[x].journey.value)
  }

  /**
   * The time a station is known to be reachable by: the requested departure
   * time at a station without a journey (the start), otherwise the arrival
   * time of its fastest known journey.
   */
  function KnownTime(time: int, tab: Table, x: Station): int
    requires Timed(tab) && x in tab
  {
    match tab[x].journey
    case None => time
    case Some(j) => EndTimeOf(j)
  }

  /** A station in the frontier: reached, but not finalised. */
  predicate Pending(tab: Table, x: Station)
  {
    x in tab && tab[x].defined && !tab[x].finalised
  }

  /**
   * The start is defined without a journey; an undefined station is neither
   * finalised nor holds a journey; every other defined station holds a
   * journey that is a trip from the start ending there.
   */
  predicate JourneysOk(tt: Timetable, start: Station, time: int, tab: Table)
  {
    && start in tab && tab[start].defined && tab[start].journey.None?
    && (forall x :: x in tab && !tab[x].defined ==> !tab[x].finalised && tab[x].journey.None?)
    && (forall x :: x in tab && x != start && tab[x].defined ==>
          && tab[x].journey.Some?
          && WellFormed(tab[x].journey.value)
          && Trip(tt, start, time, tab[x].journey.value)
          && EndStationOf(tab[x].journey.value) == x)
  }

  /** Finalised stations are reached no later than `h`, frontier stations no earlier. */
  predicate Horizon(time: int, tab: Table, h: int)
    requires Timed(tab)
  {
    forall x :: x in tab && tab[x].defined ==>
      (tab[x].finalised ==> KnownTime(time, tab, x) <= h) &&
      (!tab[x].finalised ==> KnownTime(time, tab, x) >= h)
  }

  /**
   * Station p has been expanded along route r: for its position k on r and
   * any service of r leaving p no earlier than p is reached, the next stop is
   * reached no later than that service arrives there.
   */
  predicate RelaxedVia(tt: Timetable, time: int, tab: Table, p: Station, r: Route)
    requires Timed(tab) && p in tab
  {
    r in tt ==>
      forall k, i ::
        0 <= k < |r.stations| - 1 && r.stations[k] == p && 0 <= i < |tt[r]| &&
        k + 1 < |tt[r][i].times| && tt[r][i].times[k] >= KnownTime(time, tab, p)
        ==> r.stations[k + 1] in tab && tab[r.stations[k + 1]].defined &&
            KnownTime(time, tab, r.stations[k + 1]) <= tt[r][i].times[k + 1]
  }

  /** Station p has been expanded along every route. */
  predicate Relaxed(tt: Timetable, time: int, tab: Table, p: Station)
    requires Timed(tab) && p in tab
  {
    forall r :: r in tt ==> RelaxedVia(tt, time, tab, p, r)
  }

  /** Every finalised station other than `except` has been expanded. */
  predicate Settled(tt: Timetable, time: int, tab: Table, except: set<Station>)
    requires Timed(tab)
  {
    forall p :: p in tab && tab[p].finalised && p !in except ==> Relaxed(tt, time, tab, p)
  }

  /** The invariants that hold at every point of the search. */
  predicate Core(tt: Timetable, start: Station, end: Station, time: int, tab: Table, h: int)
  {
    && Timed(tab)
    && JourneysOk(tt, start, time, tab)
    && Horizon(time, tab, h)
    && (end in tab ==> !tab[end].finalised)
    && (!tab[start].finalised ==> forall x :: x in tab && x != start ==> !tab[x].defined)
  }

  /** The invariant of the main loop. */
  predicate SearchInv(tt: Timetable, start: Station, end: Station, time: int, tab: Table, h: int)
  {
    Core(tt, start, end, time, tab, h) && Settled(tt, time, tab, {})
  }

  /** The invariant of the loop over routes that expands `c`, with the routes `done` so far. */
  predicate ExpandInv(tt: Timetable, start: Station, end: Station, time: int, tab: Table, h: int,
                      c: Station, done: set<Route>)
  {
    && Core(tt, start, end, time, tab, h)
    && c in tab && tab[c].defined && tab[c].finalised && KnownTime(time, tab, c) == h
    && Settled(tt, time, tab, {c})
    && forall r :: r in done ==> RelaxedVia(tt, time, tab, c, r)
  }

  /**
   * The main loop's invariant over a timetable fit for the search, as the
   * node-map code carries it: read it as
   * `SearchableTimetable(tt) && SearchInv(tt, start, end, time, tab, h)`
   * (SearchHeldMeaning). The quantifier is instantiated only where a
   * SearchInv term is already present, so code that only passes the
   * invariant along does not expand it.
   */
  ghost predicate SearchHeld(tt: Timetable, start: Station, end: Station, time: int, tab: Table, h: int)
  {
    forall t {:trigger SearchInv(tt, start, end, time, t, h)} :: t == tab ==>
      SearchableTimetable(tt) && SearchInv(tt, start, end, time, t, h)
  }

  lemma SearchHeldMeaning(tt: Timetable, start: Station, end: Station, time: int, tab: Table, h: int)
    ensures SearchHeld(tt, start, end, time, tab, h) <==>
      SearchableTimetable(tt) && SearchInv(tt, start, end, time, tab, h)
  {
    if SearchHeld(tt, start, end, time, tab, h) {
      assert SearchInv(tt, start, end, time, tab, h);
      assert SearchableTimetable(tt);
    }
  }

  /**
   * What the search answers: a journey to a different end station that is
   * an earliest trip, or nothing, when the stations are the same or no trip
   * reaches the end station.
   */
  ghost predicate Answer(tt: Timetable, start: Station, end: Station, time: int, found: Option<seq<Leg>>)
  {
    && (start == end ==> found.None?)
    && match found
       case Some(legs) => EarliestTrip(tt, start, end, time, legs)
       case None => start == end || forall other :: Trip(tt, start, time, other) ==> EndStationOf(other) != end
  }

  /** Answer, carried as SearchHeld is (AnswerHeldMeaning). */
  ghost predicate AnswerHeld(tt: Timetable, start: Station, end: Station, time: int, found: Option<seq<Leg>>)
  {
    forall f {:trigger Answer(tt, start, end, time, f)} :: f == found ==> Answer(tt, start, end, time, f)
  }

  lemma AnswerHeldMeaning(tt: Timetable, start: Station, end: Station, time: int, found: Option<seq<Leg>>)
    ensures AnswerHeld(tt, start, end, time, found) <==> Answer(tt, start, end, time, found)
  {
    if AnswerHeld(tt, start, end, time, found) {
      assert Answer(tt, start, end, time, found);
    }
  }

  /** ExpandInv over a timetable fit for the search, carried the same way (ExpandHeldMeaning). */
  ghost predicate ExpandHeld(tt: Timetable, start: Station, end: Station, time: int, tab: Table, h: int,
                             c: Station, done: set<Route>)
  {
    forall t {:trigger ExpandInv(tt, start, end, time, t, h, c, done)} :: t == tab ==>
      SearchableTimetable(tt) && ExpandInv(tt, start, end, time, t, h, c, done)
  }

  lemma ExpandHeldMeaning(tt: Timetable, start: Station, end: Station, time: int, tab: Table, h: int,
                          c: Station, done: set<Route>)
    ensures ExpandHeld(tt, start, end, time, tab, h, c, done) <==>
      SearchableTimetable(tt) && ExpandInv(tt, start, end, time, tab, h, c, done)
  {
    if ExpandHeld(tt, start, end, time, tab, h, c, done) {
      assert ExpandInv(tt, start, end, time, tab, h, c, done);
      assert SearchableTimetable(tt);
    }
  }

  /** The parts of the expansion invariant that concern the timetable and the station expanded. */
  lemma ExpandHeldBasics(tt: Timetable, start: Station, end: Station, time: int, tab: Table, h: int,
                         c: Station, done: set<Route>)
    requires ExpandHeld(tt, start, end, time, tab, h, c, done)
    ensures WellFormedTimetable(tt) && c in tab && tab[c].defined && tab[c].finalised
  {
    ExpandHeldMeaning(tt, start, end, time, tab, h, c, done);
  }

  /** The first station of the search: only the start is defined, nothing is finalised. */
  function InitialTable(stops: set<Station>, start: Station): (tab: Table)
    requires start in stops
    ensures tab.Keys == stops
    ensures forall x :: x in tab ==> !tab[x].finalised && tab[x].journey.None? && (tab[x].defined <==> x == start)
  {
    map x | x in stops :: NodeState(false, x == start, None)
  }

  /** A table of fresh nodes with the start marked defined is the initial table. */
  lemma InitialTableOf(tab: Table, stops: set<Station>, start: Station)
    requires start in stops && tab.Keys == stops
    requires forall x :: x in tab ==> tab[x] == NodeState(false, false, None)
    ensures tab[start := NodeState(false, true, None)] == InitialTable(stops, start)
  {
  }

  lemma InitialSearchInv(tt: Timetable, stops: set<Station>, start: Station, end: Station, time: int)
    requires start in stops
    ensures SearchInv(tt, start, end, time, InitialTable(stops, start), time)
  {
  }

  /** The same, carried as the main loop carries it. */
  lemma InitialSearchHeld(tt: Timetable, stops: set<Station>, start: Station, end: Station, time: int)
    requires SearchableTimetable(tt) && start in stops
    ensures SearchHeld(tt, start, end, time, InitialTable(stops, start), time)
  {
    InitialSearchInv(tt, stops, start, end, time);
    SearchHeldMeaning(tt, start, end, time, InitialTable(stops, start), time);
  }

  /**
   * Covered: x has been finalised and reached by `a`, or some frontier
   * station is reached by `a`.
   */
  ghost predicate Covered(time: int, tab: Table, x: Station, a: int)
    requires Timed(tab)
  {
    || (x in tab && tab[x].defined && tab[x].finalised && KnownTime(time, tab, x) <= a)
    || exists y :: Pending(tab, y) && KnownTime(time, tab, y) <= a
  }

  lemma CoveredLater(time: int, tab: Table, x: Station, a: int, a': int)
    requires Timed(tab) && Covered(time, tab, x, a) && a <= a'
    ensures Covered(time, tab, x, a')
  {
  }

  /** The start is covered at the requested time. */
  lemma StartCovered(tt: Timetable, start: Station, end: Station, time: int, tab: Table, h: int)
    requires Core(tt, start, end, time, tab, h)
    ensures Covered(time, tab, start, time)
  {
    if !tab[start].finalised {
      assert Pending(tab, start);
    }
  }

  /** One stop along a service: coverage carries over from stop k to stop k + 1. */
  lemma {:induction false} HopCovered(tt: Timetable, time: int, tab: Table, r: Route, i: nat, k: nat, tp: int)
    requires WellFormedTimetable(tt) && Timed(tab) && Settled(tt, time, tab, {})
    requires r in tt && k + 1 < |r.stations| && i < |tt[r]|
    requires Covered(time, tab, r.stations[k], tp) && tp <= tt[r][i].times[k]
    ensures Covered(time, tab, r.stations[k + 1], tt[r][i].times[k + 1])
  {
    var s := tt[r][i];
    Services.TimesOkMeaning(s.route, s.times);
    assert s.times[k] < s.times[k + 1];
    var p := r.stations[k];
    if p in tab && tab[p].defined && tab[p].finalised && KnownTime(time, tab, p) <= tp {
      assert Relaxed(tt, time, tab, p);
      assert RelaxedVia(tt, time, tab, p, r);
      var q := r.stations[k + 1];
      if !tab[q].finalised {
        assert Pending(tab, q);
      }
    } else {
      var y :| Pending(tab, y) && KnownTime(time, tab, y) <= tp;
      assert KnownTime(time, tab, y) <= tt[r][i].times[k + 1];
    }
  }

  /** Riding a service from stop k1 to stop k2 keeps coverage. */
  lemma {:induction false} RideCovered(tt: Timetable, time: int, tab: Table, r: Route, i: nat, k1: nat, k2: nat, tp: int)
    requires WellFormedTimetable(tt) && Timed(tab) && Settled(tt, time, tab, {})
    requires r in tt && k1 <= k2 < |r.stations| && i < |tt[r]|
    requires Covered(time, tab, r.stations[k1], tp) && tp <= tt[r][i].times[k1]
    ensures Covered(time, tab, r.stations[k2], tt[r][i].times[k2])
    decreases k2 - k1
  {
    if k2 == k1 {
      CoveredLater(time, tab, r.stations[k1], tp, tt[r][i].times[k1]);
    } else {
      HopCovered(tt, time, tab, r, i, k1, tp);
      RideCovered(tt, time, tab, r, i, k1 + 1, k2, tt[r][i].times[k1 + 1]);
    }
  }

  /** Taking a leg no earlier than its start station is covered covers its end station at its arrival. */
  lemma {:induction false} LegCovered(tt: Timetable, time: int, tab: Table, l: Leg, tp: int)
    requires WellFormedTimetable(tt) && Timed(tab) && Settled(tt, time, tab, {})
    requires Legs.Valid(l) && Served(tt, l)
    requires Covered(time, tab, l.start, tp) && tp <= StartTime(l)
    ensures Covered(time, tab, l.end, EndTime(l))
  {
    var r := l.service.route;
    var i :| 0 <= i < |tt[r]| && tt[r][i] == l.service;
    CanTravelFromMeaning(r, l.start, l.end);
    var k1 := Lists.IndexOf(r.stations, l.start);
    var k2 := Lists.IndexOf(r.stations, l.end);
    RideCovered(tt, time, tab, r, i, k1, k2, tp);
  }

  /** Every leg of a trip ends at a station covered by its arrival time. */
  lemma {:induction false} TripCovered(tt: Timetable, start: Station, time: int, tab: Table, legs: seq<Leg>, n: nat)
    requires WellFormedTimetable(tt) && Timed(tab) && Settled(tt, time, tab, {})
    requires Covered(time, tab, start, time) && Trip(tt, start, time, legs)
    requires 1 <= n <= |legs|
    ensures Covered(time, tab, legs[n - 1].end, EndTime(legs[n - 1]))
  {
    if n == 1 {
      LegCovered(tt, time, tab, legs[0], time);
    } else {
      TripCovered(tt, start, time, tab, legs, n - 1);
      assert Follows(legs[n - 2], legs[n - 1]);
      LegCovered(tt, time, tab, legs[n - 1], EndTime(legs[n - 2]));
    }
  }

  /**
   * Optimality: when the end station is the frontier station reached
   * earliest, no trip to it arrives earlier.
   */
  lemma SelectionOptimal(tt: Timetable, start: Station, end: Station, time: int, tab: Table, h: int,
                         other: seq<Leg>)
    requires WellFormedTimetable(tt) && SearchInv(tt, start, end, time, tab, h)
    requires Pending(tab, end)
    requires forall y :: Pending(tab, y) ==> KnownTime(time, tab, end) <= KnownTime(time, tab, y)
    requires Trip(tt, start, time, other) && EndStationOf(other) == end
    ensures KnownTime(time, tab, end) <= EndTimeOf(other)
  {
    StartCovered(tt, start, end, time, tab, h);
    TripCovered(tt, start, time, tab, other, |other|);
  }

  /** Completeness: once the frontier is empty, no trip reaches the end station. */
  lemma ExhaustedNoTrip(tt: Timetable, start: Station, end: Station, time: int, tab: Table, h: int,
                        other: seq<Leg>)
    requires WellFormedTimetable(tt) && SearchInv(tt, start, end, time, tab, h)
    requires forall y :: !Pending(tab, y)
    ensures !(Trip(tt, start, time, other) && EndStationOf(other) == end)
  {
    if Trip(tt, start, time, other) && EndStationOf(other) == end {
      StartCovered(tt, start, end, time, tab, h);
      TripCovered(tt, start, time, tab, other, |other|);
    }
  }

  /** Table tab' reaches every station that tab reaches, no later. */
  predicate Improves(time: int, tab: Table, tab': Table)
    requires Timed(tab) && Timed(tab')
  {
    && tab'.Keys == tab.Keys
    && forall x :: x in tab && tab[x].defined ==>
         tab'[x].defined && KnownTime(time, tab', x) <= KnownTime(time, tab, x)
  }

  /** Expansion is kept when stations only get reached sooner and the expanded station's own time stays. */
  lemma RelaxedViaImproves(tt: Timetable, time: int, tab: Table, tab': Table, p: Station, r: Route)
    requires Timed(tab) && Timed(tab') && Improves(time, tab, tab') && p in tab
    requires KnownTime(time, tab', p) == KnownTime(time, tab, p)
    requires RelaxedVia(tt, time, tab, p, r)
    ensures RelaxedVia(tt, time, tab', p, r)
  {
  }

  lemma RelaxedFrame(tt: Timetable, time: int, tab: Table, tab': Table, p: Station)
    requires Timed(tab) && Timed(tab') && Improves(time, tab, tab') && p in tab
    requires KnownTime(time, tab', p) == KnownTime(time, tab, p)
    requires Relaxed(tt, time, tab, p)
    ensures Relaxed(tt, time, tab', p)
  {
    forall r | r in tt
      ensures RelaxedVia(tt, time, tab', p, r)
    {
      RelaxedViaImproves(tt, time, tab, tab', p, r);
    }
  }

  /** The two tables differ at most in finalised flags. */
  predicate SameJourneys(tab: Table, tab': Table)
  {
    tab'.Keys == tab.Keys &&
    forall x :: x in tab ==> tab'[x].defined == tab[x].defined && tab'[x].journey == tab[x].journey
  }

  lemma SameJourneysTimes(time: int, tab: Table, tab': Table)
    requires Timed(tab) && SameJourneys(tab, tab')
    ensures Timed(tab')
    ensures forall x :: x in tab ==> KnownTime(time, tab', x) == KnownTime(time, tab, x)
    ensures Improves(time, tab, tab')
  {
  }

  lemma JourneysOkSame(tt: Timetable, start: Station, time: int, tab: Table, tab': Table)
    requires JourneysOk(tt, start, time, tab) && SameJourneys(tab, tab')
    requires forall x :: x in tab && !tab[x].defined ==> !tab'[x].finalised
    ensures JourneysOk(tt, start, time, tab')
  {
    forall x | x in tab' && x != start && tab'[x].defined
      ensures tab'[x].journey == tab[x].journey && tab[x].defined
    {
    }
  }

  /**
   * Finalising the frontier station `c` reached earliest, when it is not the
   * end station, leaves everything but its own expansion in place, with the
   * horizon moved up to its time.
   */
  lemma {:induction false} Finalise(tt: Timetable, start: Station, end: Station, time: int, tab: Table, h: int, c: Station)
    requires SearchInv(tt, start, end, time, tab, h)
    requires Pending(tab, c) && c != end
    requires forall y :: Pending(tab, y) ==> KnownTime(time, tab, c) <= KnownTime(time, tab, y)
    ensures var tab' := tab[c := tab[c].(finalised := true)];
      && Timed(tab')
      && (forall x :: x in tab ==> KnownTime(time, tab', x) == KnownTime(time, tab, x))
      && ExpandInv(tt, start, end, time, tab', KnownTime(time, tab, c), c, {})
  {
    FinaliseCore(tt, start, end, time, tab, h, c);
    FinaliseSettled(tt, time, tab, c);
  }

  /** Finalising c keeps the invariants every point of the search has, with the horizon at c's time. */
  lemma FinaliseCore(tt: Timetable, start: Station, end: Station, time: int, tab: Table, h: int, c: Station)
    requires Core(tt, start, end, time, tab, h)
    requires Pending(tab, c) && c != end
    requires forall y :: Pending(tab, y) ==> KnownTime(time, tab, c) <= KnownTime(time, tab, y)
    ensures var tab' := tab[c := tab[c].(finalised := true)];
      && Timed(tab')
      && (forall x :: x in tab ==> KnownTime(time, tab', x) == KnownTime(time, tab, x))
      && Core(tt, start, end, time, tab', KnownTime(time, tab, c))
  {
    var tab' := tab[c := tab[c].(finalised := true)];
    assert SameJourneys(tab, tab');
    SameJourneysTimes(time, tab, tab');
    JourneysOkSame(tt, start, time, tab, tab');
    FinaliseHorizon(time, tab, h, c);
    assert tab'[start].finalised by {
      if c != start {
        assert tab[start].finalised;
      }
    }
  }

  /** Finalising c, reached no later than any frontier station, moves the horizon up to c's time. */
  lemma FinaliseHorizon(time: int, tab: Table, h: int, c: Station)
    requires Timed(tab) && Horizon(time, tab, h)
    requires Pending(tab, c)
    requires forall y :: Pending(tab, y) ==> KnownTime(time, tab, c) <= KnownTime(time, tab, y)
    ensures Timed(tab[c := tab[c].(finalised := true)])
    ensures Horizon(time, tab[c := tab[c].(finalised := true)], KnownTime(time, tab, c))
  {
    var tab' := tab[c := tab[c].(finalised := true)];
    var h' := KnownTime(time, tab, c);
    assert SameJourneys(tab, tab');
    SameJourneysTimes(time, tab, tab');
    forall x | x in tab' && tab'[x].defined
      ensures tab'[x].finalised ==> KnownTime(time, tab', x) <= h'
      ensures !tab'[x].finalised ==> KnownTime(time, tab', x) >= h'
    {
      if x != c && tab[x].finalised {
        assert KnownTime(time, tab, x) <= h;
      } else if x != c {
        assert Pending(tab, x);
      }
    }
  }

  /** Finalising c leaves every other finalised station relaxed. */
  lemma FinaliseSettled(tt: Timetable, time: int, tab: Table, c: Station)
    requires Timed(tab) && Settled(tt, time, tab, {}) && c in tab
    ensures Timed(tab[c := tab[c].(finalised := true)])
    ensures Settled(tt, time, tab[c := tab[c].(finalised := true)], {c})
  {
    var tab' := tab[c := tab[c].(finalised := true)];
    assert SameJourneys(tab, tab');
    SameJourneysTimes(time, tab, tab');
    forall p | p in tab' && tab'[p].finalised && p !in {c}
      ensures Relaxed(tt, time, tab', p)
    {
      assert Relaxed(tt, time, tab, p);
      RelaxedFrame(tt, time, tab, tab', p);
    }
  }

  /**
   * The journey the search tries for the next stop: a one-leg journey from a
   * station without a journey (the start), otherwise the station's journey
   * extended by the service.
   */
  function Tentative(base: Option<seq<Leg>>, current: Station, adjacent: Station,
                     service: Services.Service): (cand: seq<Leg>)
    requires CanExtend(base, current, adjacent, service)
    ensures WellFormed(cand) && EndStationOf(cand) == adjacent
    ensures cand[|cand| - 1].service == service
    ensures base.Some? ==> StartStationOf(cand) == StartStationOf(base.value) && |cand| >= |base.value|
    ensures base.None? ==> |cand| == 1 && StartStationOf(cand) == current
  {
    match base
    case None => [Leg(current, adjacent, service)]
    case Some(j) =>
      ExtendOkIff(j, service, adjacent);
      ExtendWellFormed(j, service, adjacent);
      Extend(j, service, adjacent).value
  }

  /**
   * Catching service e of route r at c, the station at position k, no
   * earlier than c is reached, gives a trip from the start to the next stop
   * that arrives at e's time there.
   */
  lemma {:induction false} TentativeTrip(tt: Timetable, start: Station, time: int, tab: Table,
                                         c: Station, r: Route, k: nat, e: Services.Service)
    requires WellFormedTimetable(tt) && Timed(tab) && JourneysOk(tt, start, time, tab)
    requires c in tab && tab[c].defined
    requires r in tt && k + 1 < |r.stations| && r.stations[k] == c
    requires e in tt[r] && e.times[k] >= KnownTime(time, tab, c)
    ensures Services.Valid(e)
    ensures tab[c].journey.None? ==> Routes.CanTravelFrom(e.route, c, r.stations[k + 1])
    ensures tab[c].journey.Some? ==>
      WellFormed(tab[c].journey.value) && Extend(tab[c].journey.value, e, r.stations[k + 1]).Ok?
    ensures var cand := Tentative(tab[c].journey, c, r.stations[k + 1], e);
      && WellFormed(cand) && Trip(tt, start, time, cand)
      && EndStationOf(cand) == r.stations[k + 1] && EndTimeOf(cand) == e.times[k + 1]
  {
    var q := r.stations[k + 1];
    assert Services.Valid(e) && e.route == r;
    CanTravelFromPositions(r, k, k + 1);
    Services.StopTimeAtPosition(e, k);
    Services.StopTimeAtPosition(e, k + 1);
    match tab[c].journey {
      case None =>
        SingleLegTrip(tt, c, q, e, time);
        assert c == start;
      case Some(j) =>
        assert c != start;
        ExtendOkIff(j, e, q);
        ExtendWellFormed(j, e, q);
        ExtendTrip(tt, start, time, j, e, q);
    }
  }

  /**
   * The update of the next stop's node: an undefined node takes the
   * candidate journey; a defined, unfinalised one takes it only if it
   * arrives strictly earlier; a finalised one is left alone.
   */
  function Relax(tab: Table, q: Station, cand: seq<Leg>): (tab': Table)
    requires Timed(tab) && q in tab && LegsValid(cand)
    requires tab[q].defined && !tab[q].finalised ==> tab[q].journey.Some?
    ensures Timed(tab') && tab'.Keys == tab.Keys
    ensures forall x :: x in tab && x != q ==> tab'[x] == tab[x]
    ensures forall x :: x in tab ==> tab'[x].finalised == tab[x].finalised
    ensures tab'[q].defined
    ensures tab[q].defined && tab[q].finalised ==> tab'[q] == tab[q]
    ensures !tab[q].defined ==> tab'[q].journey == Some(cand)
    ensures tab[q].defined && !tab[q].finalised ==> (tab'[q].journey.Some? &&
      EndTimeOf(tab'[q].journey.value) ==
        if EndTimeOf(cand) < EndTimeOf(tab[q].journey.value) then EndTimeOf(cand) else EndTimeOf(tab[q].journey.value))
    ensures tab'[q] == tab[q] || tab'[q].journey == Some(cand)
    ensures tab[q].defined && !tab[q].finalised ==>
      (tab'[q] == tab[q] <==> EndTimeOf(cand) >= EndTimeOf(tab[q].journey.value))
  {
    if !tab[q].defined then tab[q := tab[q].(journey := Some(cand), defined := true)]
    else if !tab[q].finalised then
      if EndTimeOf(cand) < EndTimeOf(tab[q].journey.value) then tab[q := tab[q].(journey := Some(cand), defined := true)]
      else tab
    else tab
  }

  /** The update of one station's state by a candidate journey, as Relax applies it. */
  function RelaxNode(n: NodeState, cand: seq<Leg>): (n': NodeState)
    requires LegsValid(cand)
    requires n.defined && !n.finalised ==> n.journey.Some? && LegsValid(n.journey.value)
    ensures n'.defined && n'.finalised == n.finalised
    ensures !n.defined ==> n'.journey == Some(cand)
    ensures n.defined && n.finalised ==> n' == n
    ensures n.defined && !n.finalised ==>
      (n' == n <==> EndTimeOf(cand) >= EndTimeOf(n.journey.value)) &&
      (n' != n ==> n'.journey == Some(cand))
  {
    if !n.defined then n.(journey := Some(cand), defined := true)
    else if !n.finalised then
      if EndTimeOf(cand) < EndTimeOf(n.journey.value) then n.(journey := Some(cand), defined := true)
      else n
    else n
  }

  /** Relax changes the table at q alone, by RelaxNode. */
  lemma RelaxAt(tab: Table, q: Station, cand: seq<Leg>)
    requires Timed(tab) && q in tab && LegsValid(cand)
    requires tab[q].defined && !tab[q].finalised ==> tab[q].journey.Some?
    ensures Relax(tab, q, cand) == tab[q := RelaxNode(tab[q], cand)]
  {
  }

  /** Updating a node leaves reached stations reached and no later, and keeps every finalised node. */
  lemma RelaxImproves(time: int, tab: Table, q: Station, cand: seq<Leg>)
    requires Timed(tab) && q in tab && LegsValid(cand)
    requires tab[q].defined && !tab[q].finalised ==> tab[q].journey.Some?
    ensures Improves(time, tab, Relax(tab, q, cand))
    ensures forall x :: x in tab && tab[x].defined && tab[x].finalised ==>
      KnownTime(time, Relax(tab, q, cand), x) == KnownTime(time, tab, x)
  {
  }

  /** The update keeps the recorded journeys trips from the start. */
  lemma RelaxJourneysOk(tt: Timetable, start: Station, time: int, tab: Table, q: Station, cand: seq<Leg>)
    requires Timed(tab) && JourneysOk(tt, start, time, tab) && q in tab && tab[start].finalised
    requires LegsValid(cand) && (tab[q].defined && !tab[q].finalised ==> tab[q].journey.Some?)
    requires WellFormed(cand) && Trip(tt, start, time, cand) && EndStationOf(cand) == q
    ensures JourneysOk(tt, start, time, Relax(tab, q, cand))
  {
    var tab' := Relax(tab, q, cand);
    assert tab'[start] == tab[start];
    forall x | x in tab' && x != start && tab'[x].defined
      ensures tab'[x].journey.Some? && WellFormed(tab'[x].journey.value)
      ensures Trip(tt, start, time, tab'[x].journey.value) && EndStationOf(tab'[x].journey.value) == x
    {
      if x != q || tab'[q] == tab[q] {
        assert tab'[x] == tab[x];
      }
    }
  }

  /** The update keeps the horizon when the candidate arrives no earlier than it. */
  lemma RelaxHorizon(time: int, tab: Table, h: int, q: Station, cand: seq<Leg>)
    requires Timed(tab) && Horizon(time, tab, h) && q in tab && LegsValid(cand)
    requires tab[q].defined && !tab[q].finalised ==> tab[q].journey.Some?
    requires !tab[q].defined ==> !tab[q].finalised
    requires EndTimeOf(cand) >= h
    ensures Horizon(time, Relax(tab, q, cand), h)
  {
    var tab' := Relax(tab, q, cand);
    forall x | x in tab' && tab'[x].defined
      ensures tab'[x].finalised ==> KnownTime(time, tab', x) <= h
      ensures !tab'[x].finalised ==> KnownTime(time, tab', x) >= h
    {
      RelaxHorizonAt(time, tab, h, q, cand, x);
    }
  }

  /** RelaxHorizon at one station x. */
  lemma RelaxHorizonAt(time: int, tab: Table, h: int, q: Station, cand: seq<Leg>, x: Station)
    requires Timed(tab) && Horizon(time, tab, h) && q in tab && LegsValid(cand)
    requires tab[q].defined && !tab[q].finalised ==> tab[q].journey.Some?
    requires !tab[q].defined ==> !tab[q].finalised
    requires EndTimeOf(cand) >= h
    requires x in tab && Relax(tab, q, cand)[x].defined
    ensures var tab' := Relax(tab, q, cand);
      && (tab'[x].finalised ==> KnownTime(time, tab', x) <= h)
      && (!tab'[x].finalised ==> KnownTime(time, tab', x) >= h)
  {
    var tab' := Relax(tab, q, cand);
    if x != q || tab'[q] == tab[q] {
      assert tab'[x] == tab[x];
    }
  }

  /** On a route whose stations are distinct, c stands at position k only. */
  lemma PositionUnique(r: Route, c: Station)
    requires Routes.Valid(r) && StopsAt(r, c)
    ensures forall k :: 0 <= k < |r.stations| && r.stations[k] == c ==> k == Lists.IndexOf(r.stations, c)
  {
    Lists.NoDuplicatesMeaning(r.stations);
  }

  /** A route along which c cannot be expanded (c not on it, its last stop, or no later service) is trivially done. */
  lemma SkipRelaxed(tt: Timetable, time: int, tab: Table, c: Station, r: Route)
    requires WellFormedTimetable(tt) && Timed(tab) && c in tab && r in tt
    requires || !StopsAt(r, c)
             || Lists.IndexOf(r.stations, c) == |r.stations| - 1
             || forall i :: 0 <= i < |tt[r]| ==> tt[r][i].times[Lists.IndexOf(r.stations, c)] < KnownTime(time, tab, c)
    ensures RelaxedVia(tt, time, tab, c, r)
  {
    if StopsAt(r, c) {
      PositionUnique(r, c);
    }
  }

  lemma ExpandSkip(tt: Timetable, start: Station, end: Station, time: int, tab: Table, h: int,
                   c: Station, done: set<Route>, r: Route)
    requires ExpandInv(tt, start, end, time, tab, h, c, done)
    requires RelaxedVia(tt, time, tab, c, r)
    ensures ExpandInv(tt, start, end, time, tab, h, c, done + {r})
  {
  }

  /**
   * Expanding c along route r with the earliest suitable service e updates
   * the next stop and completes the expansion along r.
   */
  lemma {:induction false} ExpandStep(tt: Timetable, start: Station, end: Station, time: int, tab: Table, h: int,
                                      c: Station, done: set<Route>, r: Route, k: nat, ie: nat, cand: seq<Leg>)
    requires SearchableTimetable(tt) && ExpandInv(tt, start, end, time, tab, h, c, done)
    requires r in tt && k + 1 < |r.stations| && r.stations[k] == c && r.stations[k + 1] in tab
    requires ie < |tt[r]| && tt[r][ie].times[k] >= KnownTime(time, tab, c)
    requires forall i :: 0 <= i < |tt[r]| && tt[r][i].times[k] >= KnownTime(time, tab, c) ==>
      tt[r][ie].times[k] <= tt[r][i].times[k]
    requires WellFormed(cand) && Trip(tt, start, time, cand)
    requires EndStationOf(cand) == r.stations[k + 1] && EndTimeOf(cand) == tt[r][ie].times[k + 1]
    requires var q := r.stations[k + 1]; tab[q].defined && !tab[q].finalised ==> tab[q].journey.Some?
    ensures ExpandInv(tt, start, end, time, Relax(tab, r.stations[k + 1], cand), h, c, done + {r})
  {
    var e := tt[r][ie];
    var q := r.stations[k + 1];
    ExpandPrep(tt, start, end, time, tab, h, c, q);
    var tab' := Relax(tab, q, cand);
    Services.TimesOkMeaning(e.route, e.times);
    assert e.times[k] < e.times[k + 1];
    RelaxCore(tt, start, end, time, tab, h, q, cand);
    RelaxSettled(tt, time, tab, q, cand, c);
    RelaxDone(tt, time, tab, q, cand, c, done);
    ExpandAlong(tt, time, tab, tab', h, c, r, k, ie, cand);
  }

  /** Once some station is finalised, the start is finalised and frontier nodes hold journeys. */
  lemma ExpandPrep(tt: Timetable, start: Station, end: Station, time: int, tab: Table, h: int, c: Station, q: Station)
    requires Core(tt, start, end, time, tab, h) && c in tab && tab[c].defined && tab[c].finalised && q in tab
    ensures tab[start].finalised
    ensures tab[q].defined && !tab[q].finalised ==> tab[q].journey.Some?
    ensures !tab[q].defined ==> !tab[q].finalised
  {
    if c != start {
      assert tab[c].defined;
    }
    if tab[q].defined && !tab[q].finalised {
      assert q != start;
    }
  }

  /**
   * What building the candidate journey demands: a valid service that runs
   * from c to q when there is no journey yet, and otherwise can be caught at
   * the journey's end in time to reach q.
   */
  predicate CanExtend(base: Option<seq<Leg>>, c: Station, q: Station, e: Services.Service)
  {
    && Services.Valid(e)
    && (base.None? ==> Routes.CanTravelFrom(e.route, c, q))
    && (base.Some? ==>
          WellFormed(base.value) && Services.CanTravelFrom(e, EndStationOf(base.value), q, EndTimeOf(base.value)))
  }

  /**
   * The candidate journey can be built from `base`, and `cand` is that
   * journey: read it as `CanExtend(base, c, q, e) && cand == Tentative(base, c, q, e)`
   * (BuildableMeaning). The quantifier is instantiated only where a
   * CanExtend term is already present, so that the candidate's definition is
   * expanded only where a proof asks for it.
   */
  ghost predicate Buildable(base: Option<seq<Leg>>, c: Station, q: Station, e: Services.Service, cand: seq<Leg>)
  {
    forall b {:trigger CanExtend(b, c, q, e)} :: b == base ==> CanExtend(b, c, q, e) && Tentative(b, c, q, e) == cand
  }

  lemma BuildableMeaning(base: Option<seq<Leg>>, c: Station, q: Station, e: Services.Service, cand: seq<Leg>)
    ensures Buildable(base, c, q, e, cand) <==> CanExtend(base, c, q, e) && cand == Tentative(base, c, q, e)
  {
    if Buildable(base, c, q, e, cand) {
      assert CanExtend(base, c, q, e) && Tentative(base, c, q, e) == cand;
    }
  }

  /**
   * Expanding c along route r, with service ie the earliest leaving c
   * (position k) no earlier than c is reached: the candidate journey can
   * be built, and updating the next stop with it completes the expansion
   * along r without touching c.
   */
  lemma {:induction false} ExpandBy(tt: Timetable, start: Station, end: Station, time: int, tab: Table, h: int,
                                    c: Station, done: set<Route>, r: Route, k: nat, ie: nat)
    returns (cand: seq<Leg>)
    requires SearchableTimetable(tt) && ExpandInv(tt, start, end, time, tab, h, c, done)
    requires r in tt && k + 1 < |r.stations| && r.stations[k] == c && r.stations[k + 1] in tab
    requires ie < |tt[r]| && tt[r][ie].times[k] >= h
    requires forall i :: 0 <= i < |tt[r]| && tt[r][i].times[k] >= h ==> tt[r][ie].times[k] <= tt[r][i].times[k]
    ensures Buildable(tab[c].journey, c, r.stations[k + 1], tt[r][ie], cand) && WellFormed(cand)
    ensures var q := r.stations[k + 1];
      && (!tab[q].defined ==> tab[q].journey.None?)
      && (tab[q].defined && !tab[q].finalised ==> tab[q].journey.Some?)
    ensures var q := r.stations[k + 1];
      Relax(tab, q, cand) == tab[q := RelaxNode(tab[q], cand)]
    ensures ExpandInv(tt, start, end, time, Relax(tab, r.stations[k + 1], cand), h, c, done + {r})
    ensures Relax(tab, r.stations[k + 1], cand)[c] == tab[c]
  {
    var q := r.stations[k + 1];
    TentativeTrip(tt, start, time, tab, c, r, k, tt[r][ie]);
    if tab[c].journey.Some? {
      ExtendOkIff(tab[c].journey.value, tt[r][ie], q);
    }
    cand := Tentative(tab[c].journey, c, q, tt[r][ie]);
    BuildableMeaning(tab[c].journey, c, q, tt[r][ie], cand);
    ExpandPrep(tt, start, end, time, tab, h, c, q);
    RelaxAt(tab, q, cand);
    ExpandStep(tt, start, end, time, tab, h, c, done, r, k, ie, cand);
  }

  /** Helper for ExpandStep: the update keeps the invariants of every point of the search. */
  lemma RelaxCore(tt: Timetable, start: Station, end: Station, time: int, tab: Table, h: int, q: Station, cand: seq<Leg>)
    requires Core(tt, start, end, time, tab, h) && q in tab && tab[start].finalised
    requires LegsValid(cand) && (tab[q].defined && !tab[q].finalised ==> tab[q].journey.Some?)
    requires WellFormed(cand) && Trip(tt, start, time, cand) && EndStationOf(cand) == q
    requires EndTimeOf(cand) >= h
    ensures Core(tt, start, end, time, Relax(tab, q, cand), h)
  {
    RelaxJourneysOk(tt, start, time, tab, q, cand);
    RelaxHorizon(time, tab, h, q, cand);
  }

  /** Helper for ExpandStep: expanded stations stay expanded. */
  lemma RelaxSettled(tt: Timetable, time: int, tab: Table, q: Station, cand: seq<Leg>, c: Station)
    requires Timed(tab) && q in tab && LegsValid(cand)
    requires tab[q].defined && !tab[q].finalised ==> tab[q].journey.Some?
    requires !tab[q].defined ==> !tab[q].finalised
    requires Settled(tt, time, tab, {c})
    ensures Settled(tt, time, Relax(tab, q, cand), {c})
  {
    var tab' := Relax(tab, q, cand);
    forall p | p in tab' && tab'[p].finalised && p !in {c}
      ensures Relaxed(tt, time, tab', p)
    {
      assert Relaxed(tt, time, tab, p);
      RelaxKeepsRelaxed(tt, time, tab, q, cand, p);
    }
  }

  /** A finalised station that was expanded stays expanded after Relax. */
  lemma RelaxKeepsRelaxed(tt: Timetable, time: int, tab: Table, q: Station, cand: seq<Leg>, p: Station)
    requires Timed(tab) && q in tab && LegsValid(cand)
    requires tab[q].defined && !tab[q].finalised ==> tab[q].journey.Some?
    requires !tab[q].defined ==> !tab[q].finalised
    requires p in tab && tab[p].finalised && Relaxed(tt, time, tab, p)
    ensures Relaxed(tt, time, Relax(tab, q, cand), p)
  {
    var tab' := Relax(tab, q, cand);
    RelaxImproves(time, tab, q, cand);
    assert tab'[p] == tab[p];
    RelaxedFrame(tt, time, tab, tab', p);
  }

  /** Helper for ExpandStep: the routes c was already expanded along stay done. */
  lemma RelaxDone(tt: Timetable, time: int, tab: Table, q: Station, cand: seq<Leg>, c: Station, done: set<Route>)
    requires Timed(tab) && q in tab && LegsValid(cand) && c in tab && tab[c].defined && tab[c].finalised
    requires tab[q].defined && !tab[q].finalised ==> tab[q].journey.Some?
    requires forall r :: r in done ==> RelaxedVia(tt, time, tab, c, r)
    ensures forall r :: r in done ==> RelaxedVia(tt, time, Relax(tab, q, cand), c, r)
  {
    var tab' := Relax(tab, q, cand);
    RelaxImproves(time, tab, q, cand);
    forall r | r in done
      ensures RelaxedVia(tt, time, tab', c, r)
    {
      RelaxedViaImproves(tt, time, tab, tab', c, r);
    }
  }

  /** Helper for ExpandStep: after the update the next stop is reached no later than any suitable service arrives. */
  lemma {:induction false} ExpandAlong(tt: Timetable, time: int, tab: Table, tab': Table, h: int,
                                       c: Station, r: Route, k: nat, ie: nat, cand: seq<Leg>)
    requires SearchableTimetable(tt) && Timed(tab) && Horizon(time, tab, h)
    requires r in tt && k + 1 < |r.stations| && r.stations[k] == c && r.stations[k + 1] in tab
    requires c in tab && tab[c].finalised && tab[c].defined && KnownTime(time, tab, c) == h
    requires ie < |tt[r]| && tt[r][ie].times[k] >= KnownTime(time, tab, c)
    requires forall i :: 0 <= i < |tt[r]| && tt[r][i].times[k] >= KnownTime(time, tab, c) ==>
      tt[r][ie].times[k] <= tt[r][i].times[k]
    requires LegsValid(cand) && EndTimeOf(cand) == tt[r][ie].times[k + 1]
    requires var q := r.stations[k + 1]; tab[q].defined && !tab[q].finalised ==> tab[q].journey.Some?
    requires tab' == Relax(tab, r.stations[k + 1], cand)
    requires tab'[c] == tab[c]
    ensures RelaxedVia(tt, time, tab', c, r)
  {
    var q := r.stations[k + 1];
    Services.TimesOkMeaning(tt[r][ie].route, tt[r][ie].times);
    assert tt[r][ie].times[k] < tt[r][ie].times[k + 1];
    assert KnownTime(time, tab', c) == KnownTime(time, tab, c);
    assert KnownTime(time, tab', q) <= tt[r][ie].times[k + 1];
    PositionUnique(r, c);
    forall k', i | 0 <= k' < |r.stations| - 1 && r.stations[k'] == c && 0 <= i < |tt[r]| &&
                   k' + 1 < |tt[r][i].times| && tt[r][i].times[k'] >= KnownTime(time, tab', c)
      ensures r.stations[k' + 1] in tab' && tab'[r.stations[k' + 1]].defined &&
              KnownTime(time, tab', r.stations[k' + 1]) <= tt[r][i].times[k' + 1]
    {
      assert k' == k;
      EarlierStaysEarlier(tt, r, ie, i, k, k + 1);
    }
  }

  /** Once c has been expanded along every route of the timetable, the main loop's invariant holds again. */
  lemma ExpandDone(tt: Timetable, start: Station, end: Station, time: int, tab: Table, h: int,
                   c: Station, done: set<Route>)
    requires ExpandInv(tt, start, end, time, tab, h, c, done) && tt.Keys <= done
    ensures SearchInv(tt, start, end, time, tab, h)
  {
    assert Relaxed(tt, time, tab, c);
  }
}
