# Journey planner: a Dafny model

This project models the journey-planning core of a small Java journey
planner and proves properties of the model. The core has three parts:

- **Value types.** These are `Route`, `Service`, `Leg` and the mutable
  `Journey`.
  - A route is an ordered list of at least two distinct stations, with stop
    numbers that count from 1.
  - A service is one run of a route, with one strictly ascending,
    non-negative time per stop.
  - A leg is one ride on one service from a stop to a later stop.
  - A journey is a mutable, non-empty list of legs. Consecutive legs meet at
    the same interchange station, the later one leaves no earlier than the
    earlier one arrives, and no two adjacent legs share a service.
- **The earliest-arrival search** `JourneyFinder.findJourney`. It keeps a map
  from stations to mutable `Node` records. Each round finalises the frontier
  station reached earliest, and then relaxes the next stop of every route
  through it, using the earliest service still catchable there.
- **The planner model** `PlannerModel`. It keeps the journey found last and
  copies its legs into an array. It lists the interchange stations and
  re-plans a journey from one of them with a new departure time, by
  searching again and splicing the answer onto the kept legs.

## Module layout

- `Wrappers` provides `Option` and `Result`.
- `Exceptions` lists the exception kinds of the source as an `Error`
  datatype.
- `Lists` holds `indexOf` and the duplicate check shared by routes and
  services.
- `Routes`, `Services` and `Legs` model the value types as datatypes.
  - Their constructors are methods or functions that return
    `Result<_, Error>`, where the source throws.
  - Their validation loops are methods proved against predicates.
- `Journeys` has two parts:
  - the sequence-level definitions (`WellFormed`, `Extend`, `ExtendAll`)
    and their lemmas;
  - the `Journey` class, whose `legs` field the methods reassign.
- `Timetables` models the timetable as `map<Route, seq<Service>>`. It holds:
  - the search's documented preconditions: unique departures from the first
    stop, and no overtaking;
  - `Trip`, a journey over the timetable's services, used as the reference
    that the search must beat.
- `Search` is the search on values. A `Table` is a snapshot of the node map,
  one `NodeState` per station. This module:
  - states the main loop's invariant;
  - proves the invariant is kept by finalising a station and by relaxing a
    node;
  - proves the two conclusions:
    - the journey found at the end station is an earliest trip;
    - an empty frontier means no trip exists.
- `JourneyFinder` is the imperative search over `map<Station, Node>`. It
  has these parts:
  - `Node` is the class whose fields the search updates.
  - Each method keeps the node map mirroring a ghost `Table`, and refines
    the `Search` lemmas.
  - The source iterates a `HashMap` and a `keySet()`. In the model, the next
    key is an arbitrary `:|` choice.
- `PlannerGui` holds the `PlannerModel` class. Its work is done by
  module-level methods on the leg array and on `Journey` objects.

Observations about the code:

- `JourneyFinder.findJourney` documents `!startStation.equals(endStation)`
  as a precondition. The code instead handles that case: the start is
  finalised first and its null journey is returned. The model follows the
  code, and `FindJourney` ensures that the same stations give null.
- The doc comment of `checkLastStop` has its two cases swapped. The code,
  which the model follows, returns true exactly when the station *is* the
  route's last stop.

## Model

| member | source | states |
|---|---|---|
| Lists.IndexOf | ass1/Route.java:106-113 | The position `indexOf` returns is a position holding the station. |
| Lists.IndexOfFirst | ass1/Route.java:106-113 | That position is the first occurrence: no earlier element equals it. |
| Lists.NoDuplicatesMeaning | ass1/Route.java:244-255 | "Each element's first occurrence is its own position" holds iff any two positions hold different elements. |
| Lists.CheckDuplicateElements | ass1/Route.java:244-255 | The set-filling loop reports a duplicate exactly when the list has one. |
| Routes.NewRoute | ass1/Route.java:38-59 | Construction succeeds iff there are at least 2 stations and no duplicates. The too-few check takes precedence. The result keeps the name and stations and satisfies the route invariant. |
| Routes.CheckInv | ass1/Route.java:221-233 | The consistency check is true exactly for routes with at least two stops and no stop twice. |
| Routes.NumStops | ass1/Route.java:76-79 | A valid route has at least two stops. |
| Routes.StopsAtMeaning | ass1/Route.java:89-93 | `stopsAt(s)` holds exactly when some position of the station list holds `s`. |
| Routes.GetStopNumber | ass1/Route.java:106-113 | Fails with NoSuchStop exactly for a station not on the route. Otherwise it gives a stop number in `1..numStops()` whose stop is the station. |
| Routes.StopNumberFirst | ass1/Route.java:106-113 | No stop before that number is the station. |
| Routes.GetStop | ass1/Route.java:127-137 | Defined iff `1 <= i <= numStops()`, and then a stop of the route; otherwise NoSuchStop. |
| Routes.StopOfStopNumber | ass1/Route.java:106-137 | `getStop(getStopNumber(s)) == s` for every station on the route. |
| Routes.StopNumberOfStop | ass1/Route.java:106-137 | On a valid route, `getStopNumber(getStop(i)) == i` for every stop number. |
| Routes.CanTravelFromMeaning | ass1/Route.java:150-162 | `canTravelFrom(a, b)` iff a ≠ b, both are on the route, and a comes first. An absent station gives false. |
| Routes.CanTravelFrom | ass1/Route.java:150-162 | When true, the two stations differ, both are on the route, and the first has the smaller stop number. |
| Routes.CanTravelFromPositions | ass1/Route.java:150-162 | On a valid route, the stop at position i reaches the stop at position j iff i < j. |
| Routes.CanTravelFromIrreflexive | ass1/Route.java:150-162 | No station can travel to itself. |
| Routes.CanTravelFromAsymmetric | ass1/Route.java:150-162 | If a reaches b, then b does not reach a. |
| Routes.CanTravelFromTransitive | ass1/Route.java:150-162 | Reachability along a route is transitive. |
| Routes.GetNextStop | ass2/JourneyFinder.java:99 | `getNextStop` is the stop after the station's first position. It is defined exactly when the station is on the route and is not its last stop. |
| Routes.NextStopReachable | ass2/JourneyFinder.java:98-99 | On a valid route the next stop can be travelled to. |
| Routes.SameRoute | ass1/Route.java:198-206 | Route equality (same name, same stations in order) is exactly value equality. |
| Services.TimesOkMeaning | ass1/Service.java:39-65 | The four constructor checks together mean: one time per stop, strictly ascending, non-negative. |
| Services.CheckAscendingElements | ass1/Service.java:259-267 | The index loop is true exactly when no time is smaller than the one before it. |
| Services.CheckNegativeElements | ass1/Service.java:276-284 | The loop is true exactly when some time is negative. |
| Services.NewService | ass1/Service.java:39-65 | Construction succeeds iff all four checks pass, and keeps the route and times. Failures come in source order: count, duplicates, ascending, negative. |
| Services.CheckInv | ass1/Service.java:195-211 | The consistency check is true exactly when the four conditions on the times hold. |
| Services.GetStopTime | ass1/Service.java:88-97 | `times[i-1]` for `1 <= i <= numStops()`, otherwise NoSuchStop. |
| Services.GetStopTimeAt | ass1/Service.java:109-115 | Equals `getStopTime(route.getStopNumber(st))`. It is the time at the station's first position, and fails with NoSuchStop exactly off the route. |
| Services.StopTimeAtPosition | ass1/Service.java:109-115 | On a valid service, the time at the station in position k is the k-th time. |
| Services.CanTravelFrom | ass1/Service.java:132-136 | When true, both station times are defined, so the short-circuit never looks up an absent station. |
| Services.NoInstantTravel | ass1/Service.java:39-65 | If the route reaches b from a, the service is at b strictly later than at a. |
| Services.CanTravelFromAntitone | ass1/Service.java:132-136 | Being able to leave by time t implies being able to leave by any earlier time. |
| Services.SameService | ass1/Service.java:171-179 | Service equality (equal routes, equal time lists) is exactly value equality. |
| Legs.NewLeg | ass1/Leg.java:38-54 | Succeeds iff the route can travel start→end, which excludes start == end; otherwise InvalidJourney. The leg satisfies `checkInv`. |
| Legs.CheckInv | ass1/Leg.java:163-174 | When the check passes, start and end differ and both are stops of the service's route. |
| Legs.StartTime | ass1/Leg.java:81-85 | The departure is the service's time at the start station. |
| Legs.EndTime | ass1/Leg.java:92-96 | The arrival is the service's time at the end station. |
| Legs.StartBeforeEnd | ass1/Leg.java:81-96 | Every leg departs at a non-negative time, strictly before it arrives. |
| Legs.SameLeg | ass1/Leg.java:114-123 | Leg equality (start, end and service) is exactly value equality. |
| Journeys.ChainedArrivesLater | ass1/Journey.java:5-14 | Along chained legs, every leg arrives after the journey departs. |
| Journeys.TravelTimePositive | ass1/Journey.java:263-268 | A journey's travel time is positive. |
| Journeys.Extend | ass1/Journey.java:152-187 | A failed extension fails with InvalidJourney. |
| Journeys.ExtendOkIff | ass1/Journey.java:152-167 | An extension succeeds iff the service can travel from the journey's end station to `next`, leaving no earlier than its arrival time. |
| Journeys.ExtendToSameStationFails | ass1/Journey.java:152-167 | Extending to the current end station always fails; the source's second check is subsumed by the first. |
| Journeys.ExtendWellFormed | ass1/Journey.java:152-187 | The result is again a journey. Start station and time are kept, it ends at `next` at the service's time there, and earlier legs are untouched. The leg count is kept on the same service and grows by one otherwise. |
| Journeys.ExtendKeepsWellFormed | ass1/Journey.java:5-14 | Extension preserves the journey invariant. |
| Journeys.ExtendMerges | ass1/Journey.java:170-179 | On the last leg's service, the last leg becomes `(oldLast.start, next, svc)` and the other legs are unchanged. |
| Journeys.ExtendAppends | ass1/Journey.java:180-186 | On another service, exactly one leg `(oldEnd, next, svc)` is appended. |
| Journeys.ExtendAll | ass3/PlannerModel.java:103-105 | Extending leg by leg either fails with InvalidJourney or gives a journey. |
| Journeys.ExtendPrefix | ass3/PlannerModel.java:81-89 | Extending the first i legs by leg i's service to leg i's end gives the first i + 1 legs. |
| Journeys.ExtendAllRebuilds | ass3/PlannerModel.java:78-89 | Starting from the first leg and extending by legs 1..k rebuilds legs 0..k. |
| Journeys.ExtendAllStep | ass3/PlannerModel.java:103-105 | Extending by all legs is extending by all but the last, then by the last. |
| Journeys.ExtendAllPrefixOk | ass3/PlannerModel.java:103-105 | If extending by all of `more` succeeds, so does extending by any prefix. |
| Journeys.ExtendAllEnds | ass3/PlannerModel.java:99-109 | A successful splice keeps the start station and time, and arrives where the added legs' last leg does. |
| Journeys.ExtendAllChained | ass3/PlannerModel.java:99-109 | Extending by chained legs that leave the journey's end no earlier than it arrives always succeeds. The result keeps the start and arrives where and when the added legs do. |
| Journeys.Journey.constructor | ass1/Journey.java:48-63 | The journey has exactly one leg `(start, end, service)` and satisfies the class invariant. |
| Journeys.Journey.Create | ass1/Journey.java:48-63 | Fails with InvalidJourney exactly when the route cannot travel start→end; otherwise a fresh one-leg journey. |
| Journeys.Journey.Copy | ass2/JourneyFinder.java:290 | The copy constructor gives a journey with the same legs and total. |
| Journeys.Journey.StartTime | ass1/Journey.java:70-73 | The first leg's departure, strictly before the journey's arrival. |
| Journeys.Journey.EndTime | ass1/Journey.java:80-83 | The last leg's arrival. |
| Journeys.Journey.StartStation | ass1/Journey.java:90-93 | The first leg's start station. |
| Journeys.Journey.EndStation | ass1/Journey.java:100-103 | The last leg's end station. |
| Journeys.Journey.Transfers | ass1/Journey.java:111-114 | Non-negative, one fewer than the number of legs. |
| Journeys.Journey.TotalTravelTime | ass1/Journey.java:122-125 | The cached total is end time minus start time, and is positive. |
| Journeys.Journey.UpdateTotalTravelTime | ass1/Journey.java:263-268 | Recomputes the total from the first and last leg; the legs are unchanged. |
| Journeys.Journey.ExtendJourney | ass1/Journey.java:152-187 | The legs become `Extend(old legs)`. On failure nothing changes, and the invariant holds either way. |
| Journeys.Journey.CheckInv | ass1/Journey.java:233-256 | True iff the total is non-negative, there is a leg, and every leg is possible by `checkPossibleTrip`. |
| Journeys.Journey.CheckPossibleTrip | ass1/Journey.java:278-299 | Leg 0 passes iff it satisfies the leg invariant. A later leg passes iff it satisfies the leg invariant and departs no earlier than the previous leg arrives. |
| Journeys.Journey.ValidPassesCheckInv | ass1/Journey.java:278-299 | Every journey satisfying the class invariant passes the consistency check. |
| Timetables.AllStops | ass2/JourneyFinder.java:123-140 | Exactly the stations some route of the timetable stops at. |
| Timetables.AllStopsCovers | ass2/JourneyFinder.java:123-140 | Every stop of every route is among them. |
| Timetables.EarlierStaysEarlier | ass2/JourneyFinder.java:21-31 | Without overtaking, a service at a stop no later than another is at every stop no later than it. |
| Timetables.SingleLegTrip | ass2/JourneyFinder.java:283-286 | A one-leg journey on a listed service leaving no earlier than `time` is a trip. |
| Timetables.ExtendTrip | ass2/JourneyFinder.java:288-292 | Extending a trip by a listed service is a trip from the same start. |
| Timetables.ExtendAllTrip | ass3/PlannerModel.java:103-105 | Splicing the legs of a trip onto a trip gives a trip from the same start. |
| Timetables.TripPrefix | ass3/PlannerModel.java:78-89 | The first n legs of a trip are a trip, and of a journey a journey. |
| Search.InitialTable | ass2/JourneyFinder.java:44-47 | Before the loop every station is unfinalised and has no journey, and only the start is defined. |
| Search.InitialTableOf | ass2/JourneyFinder.java:44-47 | Fresh nodes with the start marked defined are that initial table. |
| Search.InitialSearchInv | ass2/JourneyFinder.java:44-50 | The main loop's invariant holds before the first round. |
| Search.Relax | ass2/JourneyFinder.java:278-329 | A relaxation changes station q alone. It leaves every finalised flag and a finalised q unchanged. An undefined q takes the candidate; a frontier q ends with the earlier of the two arrivals, and stays unchanged exactly when the candidate does not arrive strictly earlier. |
| Search.RelaxNode | ass2/JourneyFinder.java:278-329 | Relaxing one node marks it defined and keeps its finalised flag. An undefined node takes the candidate, and a finalised node is unchanged. A frontier node is unchanged exactly when the candidate does not arrive strictly earlier, and otherwise takes the candidate. |
| Search.RelaxImproves | ass2/JourneyFinder.java:278-329 | A relaxation never makes a station's known time later, and leaves finalised stations' times unchanged. |
| Search.RelaxJourneysOk | ass2/JourneyFinder.java:278-329 | Relaxing with a trip from the start to q keeps every recorded journey a trip from the start ending at its station. |
| Search.TentativeTrip | ass2/JourneyFinder.java:283-293 | The candidate built from a station's journey and a service leaving no earlier than its known time is a journey and a trip. It ends at the next stop at the service's time there. |
| Search.Tentative | ass2/JourneyFinder.java:283-293 | The candidate is a journey ending at the next stop with a last leg on the service. With no journey yet it is one leg from the current station; otherwise it keeps the journey's start and has at least as many legs. |
| Search.Finalise | ass2/JourneyFinder.java:57-77 | Finalising the frontier station reached earliest keeps the invariants. |
| Search.ExpandStep | ass2/JourneyFinder.java:90-104 | Relaxing the next stop on r with the earliest catchable service keeps the expansion invariant, with r done. |
| Search.ExpandSkip | ass2/JourneyFinder.java:90-97 | A route with no catchable service, or on which the station is last, is done without change. |
| Search.ExpandDone | ass2/JourneyFinder.java:86-106 | After expanding along every route, the main loop's invariant holds again. |
| Search.SelectionOptimal | ass2/JourneyFinder.java:33-38 | When the end station is the frontier station reached earliest, its known time is no later than the arrival of any trip to it. |
| Search.ExhaustedNoTrip | ass2/JourneyFinder.java:54-109 | Under the invariant, an empty frontier means no trip reaches the end station. |
| JourneyFinder.Compare | ass2/JourneyFinder.java:384-402 | `Integer.compare`: negative, zero or positive exactly as a <, = or > b. |
| JourneyFinder.Node.constructor | ass2/JourneyFinder.java:347-354 | A fresh node is unfinalised and undefined, and holds no journey. |
| JourneyFinder.Node.UpdateJourney | ass2/JourneyFinder.java:365-370 | The node stores a fresh copy of the journey (same legs) and becomes defined; finalised is unchanged. |
| JourneyFinder.Node.CompareTo | ass2/JourneyFinder.java:384-402 | A node without a journey is smallest, two without one are equal, and otherwise nodes order by arrival time, in both directions. |
| JourneyFinder.CompareToAntisymmetric | ass2/JourneyFinder.java:384-402 | Swapping the nodes flips the sign. |
| JourneyFinder.CompareToTransitive | ass2/JourneyFinder.java:384-402 | The order is transitive. |
| JourneyFinder.CreateNodeMap | ass2/JourneyFinder.java:123-140 | Keys are exactly the union of all stops of all routes. Each node is fresh, unfinalised and undefined with no journey, and distinct stations get distinct nodes. |
| JourneyFinder.AddStops | ass2/JourneyFinder.java:128-138 | The inner loop adds a fresh initial node for every stop of one route. |
| JourneyFinder.CheckStationStatus | ass2/JourneyFinder.java:154-165 | True iff some node is defined and unfinalised. |
| JourneyFinder.Consider | ass2/JourneyFinder.java:184-197 | One step of the selection loop: if the choice was least among the stations seen so far, it is least among them with `s` added. |
| JourneyFinder.GetStationWithFastestJourney | ass2/JourneyFinder.java:180-200 | None iff no node is defined and unfinalised; otherwise such a node that is least by `compareTo` among them. |
| JourneyFinder.CheckLastStop | ass2/JourneyFinder.java:213-221 | True iff the station is the route's last stop, despite the doc comment. |
| JourneyFinder.LastStopHasNoNext | ass2/JourneyFinder.java:213-221 | A stop has a next stop exactly when it is not the last one. |
| JourneyFinder.GetEarliestService | ass2/JourneyFinder.java:236-256 | None iff no service is at the station at or after the current time. Otherwise it is the first, in list order, of those with the minimal such time. |
| JourneyFinder.CanBuildMeaning | ass2/JourneyFinder.java:282-293 | What `updateJourney` needs of its candidate: buildable from the current journey, and valid. |
| JourneyFinder.TentativeJourney | ass2/JourneyFinder.java:283-293 | The candidate is a fresh one-leg journey at the start, else a copy of the current journey extended by the service. |
| JourneyFinder.SetTentative | ass2/JourneyFinder.java:282-296 | An undefined node takes the candidate, as RelaxNode says. |
| JourneyFinder.OfferTentative | ass2/JourneyFinder.java:297-327 | A frontier node takes the candidate only if it arrives strictly earlier, as RelaxNode says. |
| JourneyFinder.UpdateJourney | ass2/JourneyFinder.java:278-329 | The adjacent node changes as RelaxNode says, every other node keeps its state, and no existing journey object is changed. |
| JourneyFinder.RelaxNext | ass2/JourneyFinder.java:278-329 | On the whole map, the node map mirrors the table relaxed at the adjacent station. |
| JourneyFinder.MarkFinalised | ass2/JourneyFinder.java:76-77 | Only the current station's flag is set, and no journey changes. |
| JourneyFinder.UnfinalisedShrinks | ass2/JourneyFinder.java:54-77 | Each round strictly shrinks the set of unfinalised stations, which is the loop's termination measure. |
| JourneyFinder.ExpandRoute | ass2/JourneyFinder.java:90-105 | One route's pass keeps the expansion invariant with that route done, and changes no finalised flag and not the current station. |
| JourneyFinder.ExpandCurrent | ass2/JourneyFinder.java:86-106 | After the loop over routes, the current station is expanded along every route. |
| JourneyFinder.SelectAndFinalise | ass2/JourneyFinder.java:57-77 | The chosen station is a frontier station, with time and journey as the source sets them, and becomes finalised. At the end station its journey is the answer. |
| JourneyFinder.ChosenIsEarliest | ass2/JourneyFinder.java:180-200 | The station `compareTo` selects is reached no later than any frontier station. It is the start exactly when its node holds no journey. |
| JourneyFinder.EndSelected | ass2/JourneyFinder.java:79-83 | Selecting the end station returns an earliest trip. |
| JourneyFinder.ExhaustedFacts | ass2/JourneyFinder.java:109 | An empty frontier means no trip reaches the end station, so null is the right answer. |
| JourneyFinder.Round | ass2/JourneyFinder.java:54-106 | A round either returns the answer or keeps the invariant with strictly fewer unfinalised stations. |
| JourneyFinder.Explore | ass2/JourneyFinder.java:54-109 | The main loop ends with the answer. |
| JourneyFinder.FindJourney | ass2/JourneyFinder.java:40-110 | A non-null result is a valid journey between different stations. It departs the start no earlier than `time` and arrives no later than every trip to the end station. Null means the stations are the same or no trip reaches the end station. |
| PlannerGui.PlannerModel.constructor | ass3/PlannerModel.java:22-25 | No journey found yet and no leg array. |
| PlannerGui.PlannerModel.FindJourney | ass3/PlannerModel.java:49-54 | The found journey is an earliest trip between the two named stations, or null exactly when they are the same or unconnected. |
| PlannerGui.RunSearch | ass3/PlannerModel.java:52-53 | The search as the planner calls it: null exactly when no trip reaches the destination. |
| PlannerGui.FoundMeaning | ass2/JourneyFinder.java:33-38 | A found journey connects different stations and is an earliest trip. |
| PlannerGui.FoundReaches | ass2/JourneyFinder.java:33-38 | A found journey shows the destination is reachable. |
| PlannerGui.PlannerModel.GetJourney | ass3/PlannerModel.java:61-63 | The journey found last, a journey over the timetable. |
| PlannerGui.PlannerModel.Adopt | ass3/PlannerModel.java:52 | Storing a journey, as lines 52 and 107 do, sets the found journey to it and keeps the model's invariant, which needs a stored journey to be valid and over the timetable. |
| PlannerGui.PlannerModel.CreateLegArray | ass3/PlannerModel.java:155-164 | A fresh array of `transfers() + 1` legs, whose entry i is the found journey's i-th leg. |
| PlannerGui.PlannerModel.GetInterchangeStations | ass3/PlannerModel.java:121-139 | Refreshes the leg array. The output has `transfers()` names, entry i being the end station of leg i and the start of leg i + 1; the last leg is skipped. |
| PlannerGui.InterchangeNames | ass3/PlannerModel.java:124-138 | The loop with its `continue` fills entry i with leg i's end station name for every leg but the last. |
| PlannerGui.PlannerModel.GetDepartTime | ass3/PlannerModel.java:148-150 | `legs[num+1].startTime()`, never before leg num arrives. |
| PlannerGui.PlannerModel.ModifyJourney | ass3/PlannerModel.java:75-114 | The outcome is as AnsweredMeaning spells out. A new journey becomes the found journey, and otherwise the found journey is kept. The old journey object is not mutated. |
| PlannerGui.ModifyLegs | ass3/PlannerModel.java:75-114 | modifyJourney on the leg array: a returned journey is fresh and over the timetable, and the outcome is Answered. |
| PlannerGui.CopyPrefix | ass3/PlannerModel.java:78-89 | The first loop builds a fresh journey whose legs are exactly legs 0..num. |
| PlannerGui.Replan | ass3/PlannerModel.java:95-113 | Searches from the end of leg num to the last leg's end with the new time, splices the answer onto the prefix journey, and the outcome is Answered. |
| PlannerGui.AnsweredMeaning | ass3/PlannerModel.java:95-113 | There are three outcomes. Ok(null) means exactly that no re-planning is possible. Err(InvalidJourney) means the answer exists but `time` is before leg num arrives. Otherwise the journey keeps the start station and time and reaches the old destination, and it is legs 0..num followed by an earliest trip from the interchange. |
| PlannerGui.ReplannedMeaning | ass3/PlannerModel.java:99-109 | The spliced journey is the prefix extended by some earliest trip from the interchange to the destination. |
| PlannerGui.ArrivalIsStop | ass3/PlannerModel.java:95-97 | The interchange is a station of the timetable, so the re-search may start there. |
| PlannerGui.Splice | ass3/PlannerModel.java:103-105 | The second loop succeeds iff ExtendAll does, and then leaves the journey with ExtendAll's legs. |
| PlannerGui.SpliceStep | ass3/PlannerModel.java:103-105 | One step of that loop is one Extend; a failing step means the whole splice fails. |
| PlannerGui.SpliceSucceeds | ass3/PlannerModel.java:99-109 | Splicing cannot fail when the added trip leaves the interchange no earlier than leg num arrives. The result starts where and when the old journey did. |
| PlannerGui.ReplanFound | ass3/PlannerModel.java:99-109 | A successful splice is a journey over the timetable with the old start station and time, and it ends at the old destination. |
| PlannerGui.SpliceFailed | ass3/PlannerModel.java:103-105 | A failed splice means the requested time is before leg num arrives. |
| PlannerGui.FoundOnTimetable | ass3/PlannerModel.java:52-53 | A found journey is a journey over the timetable. |

## Left out

- `PlannerModel.readTimetable` and the timetable reader are left out
  because they are file and `Scanner` input. The timetable is a
  constructor parameter of `PlannerModel` instead. It must satisfy the
  search's documented preconditions (valid routes and services, unique
  departures, no overtaking). It must also list each service under the
  route it runs on, as the reader does when it files services by route.
- The `toString` renderings and `hashCode` methods are left out. `Station`
  is not part of this model, so a station is taken as its name. This is the
  string `getInterchangeStations` returns.
- Null checks (`checkNullElements`) and null-pointer exceptions have no
  counterpart: Dafny values and the references used here are never null.
- Java exceptions become `Result` values. An `InvalidJourneyException`
  thrown in `modifyJourney`'s splice loop is returned as
  `Err(InvalidJourney)`, and the found journey is then left as it was.
- JourneyFinder.FindJourney: requires the start station to be a stop of the
  timetable. The source looks up the start's node without a check and fails
  with a null-pointer exception when it has none.
- PlannerGui.PlannerModel.FindJourney: requires the start station to be a
  stop of the timetable. The source fails with a null-pointer exception
  there.
- PlannerGui.PlannerModel.ModifyJourney: requires the leg array to exist and
  `0 <= num < legs.length`. The source fails with a null-pointer exception
  or an index exception otherwise.
- PlannerGui.PlannerModel.Valid: the leg array is a copy taken when the
  interchange stations were last listed. As in the source, a journey
  modification does not refresh it.
- PlannerGui.ModifyLegs: the ensures state that the returned journey is
  fresh, but not that the search's own journey is fresh. The legs are
  therefore copied into a new journey before splicing, as the source
  does.
- JourneyFinder: the iteration orders of `HashMap.keySet()` and
  `timetable.keySet()` are arbitrary choices, so the model does not fix
  which of two equally early frontier stations is selected.
- JourneyFinder.FindJourney: optimality is stated against every trip over
  the timetable's services, and needs the documented unique-departure and
  no-overtaking preconditions.
- `Route.getNextStop` is not part of this model. `Routes.GetNextStop` takes
  it to be the stop after the station's first position on the route, and
  undefined for the last stop or a station off the route.
- The iterator of `Journey` and `unmodifiableList` are left out; sequences
  are values, so aliasing of the caller's lists does not arise.
- Integer overflow is not modelled. Times are unbounded integers, and the
  source only compares and subtracts them.
