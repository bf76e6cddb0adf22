/**
 * The journey finder: an earliest-arrival search over a map from stations
 * to mutable Node objects. HashMap iteration order is modelled by picking
 * the next key arbitrarily. The search's correctness is proved on a table
 * that the node map mirrors (Mirrors), the value-level view from the
 * Search module.
 */
module JourneyFinder {
  import opened Wrappers
  import opened Routes
  import Services
  import Lists
  import opened Legs
  import opened Journeys
  import opened Timetables
  import opened Search

  /** Integer.compare: the sign of a - b. */
  function Compare(a: int, b: int): (c: int)
    ensures c < 0 <==> a < b
    ensures c == 0 <==> a == b
    ensures c > 0 <==> a > b
  {
    if a < b then -1 else if a == b then 0 else 1
  }

  /** The search's record for one station. */
  class Node {
    var finalised: bool
    var defined: bool
    var fastestKnownJourney: Journey?

    /** A fresh node: unfinalised, undefined, without a journey. */
    constructor ()
      ensures !finalised && !defined && fastestKnownJourney == null
    {
      finalised := false;
      defined := false;
      fastestKnownJourney := null;
    }

    ghost predicate JourneyValid()
      reads this`fastestKnownJourney, fastestKnownJourney
    {
      fastestKnownJourney != null ==> fastestKnownJourney.Valid()
    }

    /** Stores a copy of the journey, so later changes to the argument do not reach the node, and marks the node defined. */
    method UpdateJourney(currentJourney: Journey)
      requires currentJourney.Valid()
      modifies this`fastestKnownJourney, this`defined
      ensures defined && finalised == old(finalised)
      ensures fastestKnownJourney != null && fresh(fastestKnownJourney)
      ensures fastestKnownJourney.Valid() && fastestKnownJourney.legs == currentJourney.legs
    {
      fastestKnownJourney := new Journey.Copy(currentJourney);
      defined := true;
    }

    /**
     * Orders nodes by the arrival time of their journeys; a node without a
     * journey comes first, and two without one are equal.
     */
    function CompareTo(o: Node): (c: int)
      reads this, o, fastestKnownJourney, o.fastestKnownJourney
      requires JourneyValid() && o.JourneyValid()
      ensures c == 0 <==>
        || (fastestKnownJourney == null && o.fastestKnownJourney == null)
        || (fastestKnownJourney != null && o.fastestKnownJourney != null &&
            fastestKnownJourney.EndTime() == o.fastestKnownJourney.EndTime())
      ensures c < 0 <==>
        || (fastestKnownJourney == null && o.fastestKnownJourney != null)
        || (fastestKnownJourney != null && o.fastestKnownJourney != null &&
            fastestKnownJourney.EndTime() < o.fastestKnownJourney.EndTime())
    {
      if fastestKnownJourney == null && o.fastestKnownJourney == null then 0
      else if fastestKnownJourney == null then -1
      else if o.fastestKnownJourney == null then 1
      else Compare(fastestKnownJourney.EndTime(), o.fastestKnownJourney.EndTime())
    }
  }

  /** CompareTo is antisymmetric: swapping the nodes flips the sign. */
  lemma CompareToAntisymmetric(a: Node, b: Node)
    requires a.JourneyValid() && b.JourneyValid()
    ensures a.CompareTo(b) < 0 <==> b.CompareTo(a) > 0
    ensures a.CompareTo(b) == 0 <==> b.CompareTo(a) == 0
  {
  }

  /** CompareTo is transitive. */
  lemma CompareToTransitive(a: Node, b: Node, c: Node)
    requires a.JourneyValid() && b.JourneyValid() && c.JourneyValid()
    requires a.CompareTo(b) <= 0 && b.CompareTo(c) <= 0
    ensures a.CompareTo(c) <= 0
  {
  }

  /** The Java CurrentVar container: the station being expanded, its time and its journey (null at the start). */
  datatype CurrentVar = CurrentVar(current: Station, currentTime: int, currentJourney: Journey?)

  ghost function StateOf(n: Node): NodeState
    reads n, n.fastestKnownJourney
  {
    NodeState(n.finalised, n.defined,
              if n.fastestKnownJourney == null then None else Some(n.fastestKnownJourney.legs))
  }

  /** The table holds, for every station of the node map and no other, the state of its node. */
  ghost predicate Mirrors(nodes: map<Station, Node>, tab: Table)
    reads nodes.Values, set n | n in nodes.Values :: n.fastestKnownJourney
  {
    tab.Keys == nodes.Keys && forall s {:trigger tab[s]} :: s in nodes ==> tab[s] == StateOf(nodes[s])
  }

  /** The value-level view of the node map: the table it mirrors. */
  ghost function Snapshot(nodes: map<Station, Node>): (tab: Table)
    reads nodes.Values, set n | n in nodes.Values :: n.fastestKnownJourney
    ensures Mirrors(nodes, tab)
  {
    map s | s in nodes :: StateOf(nodes[s])
  }

  /** Stations a and b, if distinct stations of the map, have distinct nodes. */
  ghost predicate Apart(nodes: map<Station, Node>, a: Station, b: Station)
  {
    a in nodes && b in nodes && a != b ==> nodes[a] != nodes[b]
  }

  /** Distinct stations have distinct nodes. */
  ghost predicate Injective(nodes: map<Station, Node>)
  {
    forall a, b {:trigger Apart(nodes, a, b)} :: Apart(nodes, a, b)
  }

  /** The node of q is the node of no other station. */
  lemma InjectiveAt(nodes: map<Station, Node>, q: Station)
    requires Injective(nodes) && q in nodes
    ensures forall s :: s in nodes && s != q ==> nodes[s] != nodes[q]
  {
    forall s | s in nodes && s != q
      ensures nodes[s] != nodes[q]
    {
      assert Apart(nodes, s, q);
    }
  }

  /** Distinct stations have distinct nodes and every stored journey is a valid journey. */
  ghost predicate HeapOk(nodes: map<Station, Node>)
    reads nodes.Values`fastestKnownJourney, set n | n in nodes.Values :: n.fastestKnownJourney
  {
    && Injective(nodes)
    && (forall s {:trigger nodes[s].JourneyValid()} :: s in nodes ==> nodes[s].JourneyValid())
  }

  /** A node for every station of every route, none finalised or defined; each station gets one node. */
  method CreateNodeMap(timetable: Timetable) returns (nodes: map<Station, Node>)
    ensures nodes.Keys == AllStops(timetable)
    ensures forall s :: s in nodes ==> fresh(nodes[s])
    ensures forall s :: s in nodes ==> StateOf(nodes[s]) == NodeState(false, false, None)
    ensures HeapOk(nodes)
  {
    nodes := map[];
    var routes := timetable.Keys;
    while routes != {}
      invariant routes <= timetable.Keys
      invariant nodes.Keys == set r, k | r in timetable.Keys - routes && 0 <= k < |r.stations| :: r.stations[k]
      invariant forall s :: s in nodes ==> fresh(nodes[s])
      invariant forall s :: s in nodes ==>
        !nodes[s].finalised && !nodes[s].defined && nodes[s].fastestKnownJourney == null
      invariant forall a, b :: a in nodes && b in nodes && a != b ==> nodes[a] != nodes[b]
      decreases routes
    {
      var r :| r in routes;
      nodes := AddStops(nodes, r);
      routes := routes - {r};
    }
  }

  /** The inner loop of createNodeMap: a new node for every stop of route r, replacing any node it had. */
  method AddStops(nodes: map<Station, Node>, r: Route) returns (added: map<Station, Node>)
    requires forall s :: s in nodes ==>
      !nodes[s].finalised && !nodes[s].defined && nodes[s].fastestKnownJourney == null
    requires forall a, b :: a in nodes && b in nodes && a != b ==> nodes[a] != nodes[b]
    ensures added.Keys == nodes.Keys + set k | 0 <= k < |r.stations| :: r.stations[k]
    ensures forall s :: s in added ==> (s in nodes && added[s] == nodes[s]) || fresh(added[s])
    ensures forall s :: s in added ==>
      !added[s].finalised && !added[s].defined && added[s].fastestKnownJourney == null
    ensures forall a, b :: a in added && b in added && a != b ==> added[a] != added[b]
  {
    added := nodes;
    for i := 1 to NumStops(r) + 1
      invariant added.Keys == nodes.Keys + set k | 0 <= k < i - 1 :: r.stations[k]
      invariant forall s :: s in added ==> (s in nodes && added[s] == nodes[s]) || fresh(added[s])
      invariant forall s :: s in added ==>
        !added[s].finalised && !added[s].defined && added[s].fastestKnownJourney == null
      invariant forall a, b :: a in added && b in added && a != b ==> added[a] != added[b]
    {
      var n := new Node();
      added := added[GetStop(r, i).value := n];
    }
    assert (set k | 0 <= k < NumStops(r) :: r.stations[k]) == set k | 0 <= k < |r.stations| :: r.stations[k];
  }

  /** True iff some station is defined but not yet finalised. */
  method CheckStationStatus(nodes: map<Station, Node>, ghost tab: Table) returns (b: bool)
    requires Mirrors(nodes, tab)
    ensures b <==> exists s :: s in nodes && !nodes[s].finalised && nodes[s].defined
    ensures HeapOk(nodes) == old(HeapOk(nodes)) && Mirrors(nodes, tab)
  {
    var keys := nodes.Keys;
    while keys != {}
      invariant keys <= nodes.Keys
      invariant forall s :: s in nodes && s !in keys ==> !(!nodes[s].finalised && nodes[s].defined)
      decreases keys
    {
      var s :| s in keys;
      if !nodes[s].finalised && nodes[s].defined {
        return true;
      }
      keys := keys - {s};
    }
    return false;
  }

  /**
   * `f` is a frontier (defined, unfinalised) station of `done` whose node is
   * least by CompareTo among the frontier stations of `done`; None means
   * `done` holds no frontier station.
   */
  ghost predicate LeastAmong(nodes: map<Station, Node>, done: set<Station>, f: Option<Station>)
    reads nodes.Values, set n | n in nodes.Values :: n.fastestKnownJourney
    requires forall s :: s in nodes ==> nodes[s].JourneyValid()
  {
    match f
    case None => forall s :: s in nodes && s in done ==> !(!nodes[s].finalised && nodes[s].defined)
    case Some(x) =>
      && x in nodes && !nodes[x].finalised && nodes[x].defined
      && forall s :: s in nodes && s in done && !nodes[s].finalised && nodes[s].defined ==>
           nodes[x].CompareTo(nodes[s]) <= 0
  }

  /**
   * The defined, unfinalised station whose node is least by CompareTo, or
   * None (the Java null) when there is none.
   */
  method GetStationWithFastestJourney(nodes: map<Station, Node>, ghost tab: Table) returns (fastest: Option<Station>)
    requires forall s :: s in nodes ==> nodes[s].JourneyValid()
    requires Mirrors(nodes, tab)
    ensures HeapOk(nodes) == old(HeapOk(nodes)) && Mirrors(nodes, tab)
    ensures fastest.None? <==> forall s :: s in nodes ==> !(!nodes[s].finalised && nodes[s].defined)
    ensures fastest.Some? ==> fastest.value in nodes
    ensures fastest.Some? ==> !nodes[fastest.value].finalised && nodes[fastest.value].defined
    ensures fastest.Some? ==> forall s :: s in nodes && !nodes[s].finalised && nodes[s].defined ==>
      nodes[fastest.value].CompareTo(nodes[s]) <= 0
  {
    fastest := None;
    var keys := nodes.Keys;
    ghost var done: set<Station> := {};
    while keys != {}
      invariant keys <= nodes.Keys && done == nodes.Keys - keys
      invariant LeastAmong(nodes, done, fastest)
      decreases keys
    {
      var s :| s in keys;
      fastest := Consider(nodes, done, fastest, s);
      keys := keys - {s};
      done := done + {s};
    }
  }

  /**
   * The body of getStationWithFastestJourney's loop: station s replaces the
   * least frontier station so far when it is in the frontier and either
   * none was found yet or its node compares below.
   */
  method Consider(nodes: map<Station, Node>, ghost done: set<Station>, fastest: Option<Station>, s: Station)
    returns (fastest': Option<Station>)
    requires forall t :: t in nodes ==> nodes[t].JourneyValid()
    requires LeastAmong(nodes, done, fastest) && s in nodes
    ensures LeastAmong(nodes, done + {s}, fastest')
  {
    fastest' := fastest;
    if !nodes[s].finalised && nodes[s].defined && fastest.None? {
      fastest' := Some(s);
    } else if !nodes[s].finalised && nodes[s].defined {
      if nodes[s].CompareTo(nodes[fastest.value]) < 0 {
        fastest' := Some(s);
      }
    }
    LeastStep(nodes, done, fastest, s, fastest');
  }

  /** Considering station s keeps the least frontier station of what has been seen. */
  lemma LeastStep(nodes: map<Station, Node>, done: set<Station>, f: Option<Station>, s: Station, f': Option<Station>)
    requires forall t :: t in nodes ==> nodes[t].JourneyValid()
    requires LeastAmong(nodes, done, f) && s in nodes
    requires f' == if !(!nodes[s].finalised && nodes[s].defined) then f
                   else if f.None? then Some(s)
                   else if nodes[s].CompareTo(nodes[f.value]) < 0 then Some(s)
                   else f
    ensures LeastAmong(nodes, done + {s}, f')
  {
    if f.Some? && !nodes[s].finalised && nodes[s].defined {
      if nodes[s].CompareTo(nodes[f.value]) < 0 {
        forall t | t in nodes && t in done && !nodes[t].finalised && nodes[t].defined
          ensures nodes[s].CompareTo(nodes[t]) <= 0
        {
          CompareToTransitive(nodes[s], nodes[f.value], nodes[t]);
        }
      } else {
        CompareToAntisymmetric(nodes[s], nodes[f.value]);
      }
    }
  }

  /** True iff `current` is the route's last stop (its stop number is the number of stops). */
  function CheckLastStop(route: Route, current: Station): (b: bool)
    requires StopsAt(route, current)
    ensures b <==> Lists.IndexOf(route.stations, current) == |route.stations| - 1
  {
    if GetStopNumber(route, current).value != NumStops(route) then false else true
  }

  /** A stop has a next stop on the route exactly when it is not the last one. */
  lemma LastStopHasNoNext(route: Route, current: Station)
    requires StopsAt(route, current)
    ensures CheckLastStop(route, current) <==> GetNextStop(route, current).Err?
  {
  }

  /** The time a service is scheduled at a station it stops at. */
  function TimeAt(s: Services.Service, st: Station): int
    requires Services.Valid(s) && StopsAt(s.route, st)
  {
    Services.GetStopTimeAt(s, st).value
  }

  /** Every service in the list is valid and stops at c. */
  predicate ServicesStopAt(services: seq<Services.Service>, c: Station)
  {
    forall i :: 0 <= i < |services| ==> Services.Valid(services[i]) && StopsAt(services[i].route, c)
  }

  /**
   * The first, in list order, of the services leaving the current station
   * earliest among those leaving no earlier than the current time; None
   * (the Java null) when none leaves that late.
   */
  method GetEarliestService(services: seq<Services.Service>, currentVar: CurrentVar)
    returns (earliest: Option<Services.Service>)
    requires ServicesStopAt(services, currentVar.current)
    ensures earliest.None? <==>
      forall i :: 0 <= i < |services| ==> TimeAt(services[i], currentVar.current) < currentVar.currentTime
    ensures earliest.Some? ==> exists j ::
      && 0 <= j < |services| && services[j] == earliest.value
      && TimeAt(services[j], currentVar.current) >= currentVar.currentTime
      && (forall i :: 0 <= i < |services| && TimeAt(services[i], currentVar.current) >= currentVar.currentTime ==>
            TimeAt(services[j], currentVar.current) <= TimeAt(services[i], currentVar.current))
      && (forall i :: 0 <= i < j ==>
            TimeAt(services[i], currentVar.current) < currentVar.currentTime ||
            TimeAt(services[i], currentVar.current) > TimeAt(services[j], currentVar.current))
  {
    var cur := currentVar.current;
    earliest := None;
    ghost var at: nat := 0;
    for n := 0 to |services|
      invariant earliest.None? ==> forall i :: 0 <= i < n ==> TimeAt(services[i], cur) < currentVar.currentTime
      invariant earliest.Some? ==>
        && at < n && services[at] == earliest.value
        && TimeAt(services[at], cur) >= currentVar.currentTime
        && (forall i :: 0 <= i < n && TimeAt(services[i], cur) >= currentVar.currentTime ==>
              TimeAt(services[at], cur) <= TimeAt(services[i], cur))
        && (forall i :: 0 <= i < at ==>
              TimeAt(services[i], cur) < currentVar.currentTime || TimeAt(services[i], cur) > TimeAt(services[at], cur))
    {
      var s := services[n];
      if TimeAt(s, cur) >= currentVar.currentTime {
        if earliest.None? {
          earliest := Some(s);
          at := n;
        } else if TimeAt(s, cur) < TimeAt(earliest.value, cur) {
          earliest := Some(s);
          at := n;
        }
      }
    }
  }

  /** The legs of a journey object, None for null. */
  ghost function LegsOf(j: Journey?): Option<seq<Leg>>
    reads j
  {
    if j == null then None else Some(j.legs)
  }

  /** The candidate can be built from a valid current journey by the service to the adjacent station. */
  ghost predicate CanBuildFrom(service: Services.Service, currentVar: CurrentVar, adjacent: Station, cand: seq<Leg>)
    reads currentVar.currentJourney
  {
    && (currentVar.currentJourney != null ==> currentVar.currentJourney.Valid())
    && Buildable(LegsOf(currentVar.currentJourney), currentVar.current, adjacent, service, cand)
  }

  /** What updateJourney demands: the candidate journey is valid and can be built from the current one. */
  ghost predicate CanBuild(service: Services.Service, currentVar: CurrentVar, adjacent: Station, cand: seq<Leg>)
    reads currentVar.currentJourney
  {
    && (forall c {:trigger CanBuildFrom(service, currentVar, adjacent, c)} :: c == cand ==> CanBuildFrom(service, currentVar, adjacent, c))
    && LegsValid(cand)
  }

  /** CanBuild holds exactly when CanBuildFrom does and the candidate is valid. */
  lemma CanBuildMeaning(service: Services.Service, currentVar: CurrentVar, adjacent: Station, cand: seq<Leg>)
    ensures CanBuild(service, currentVar, adjacent, cand) <==> CanBuildFrom(service, currentVar, adjacent, cand) && LegsValid(cand)
  {
    if CanBuild(service, currentVar, adjacent, cand) {
      assert CanBuildFrom(service, currentVar, adjacent, cand);
    }
  }

  /**
   * The candidate journey of updateJourney: a fresh one-leg journey when the
   * current station is the start, otherwise a copy of the current journey
   * extended by the service to the adjacent station.
   */
  method TentativeJourney(service: Services.Service, currentVar: CurrentVar, adjacent: Station,
                          ghost cand: seq<Leg>)
    returns (tmpJourney: Journey)
    requires CanBuild(service, currentVar, adjacent, cand)
    ensures fresh(tmpJourney) && tmpJourney.Valid()
    ensures tmpJourney.legs == cand
  {
    CanBuildMeaning(service, currentVar, adjacent, cand);
    BuildableMeaning(LegsOf(currentVar.currentJourney), currentVar.current, adjacent, service, cand);
    if currentVar.currentJourney == null {
      tmpJourney := new Journey(currentVar.current, adjacent, service);
    } else {
      ExtendWellFormed(currentVar.currentJourney.legs, service, adjacent);
      tmpJourney := new Journey.Copy(currentVar.currentJourney);
      var ok := tmpJourney.ExtendJourney(service, adjacent);
    }
  }

  /** A node map whose only change is at `q` mirrors the old table updated at `q` alone. */
  lemma MirrorsAt(nodes: map<Station, Node>, before: Table, q: Station)
    requires q in nodes && before.Keys == nodes.Keys
    requires forall s :: s in nodes && s != q ==> before[s] == StateOf(nodes[s])
    ensures Mirrors(nodes, before[q := StateOf(nodes[q])])
  {
  }

  /** The first case of updateJourney: an undefined node takes the candidate journey. */
  method SetTentative(node: Node, service: Services.Service, currentVar: CurrentVar, adjacent: Station,
                      ghost cand: seq<Leg>)
    requires !node.defined && node.fastestKnownJourney == null
    requires CanBuild(service, currentVar, adjacent, cand)
    modifies node`fastestKnownJourney, node`defined
    ensures node.JourneyValid()
    ensures StateOf(node) == RelaxNode(old(StateOf(node)), cand)
    ensures fresh(node.fastestKnownJourney)
  {
    var tmpJourney := TentativeJourney(service, currentVar, adjacent, cand);
    node.UpdateJourney(tmpJourney);
  }

  /** The second case of updateJourney: a frontier node takes the candidate journey, already built, only if it arrives earlier. */
  method OfferTentative(node: Node, tmpJourney: Journey, ghost cand: seq<Leg>)
    requires node.defined && !node.finalised && node.fastestKnownJourney != null && node.JourneyValid()
    requires tmpJourney.Valid() && tmpJourney.legs == cand && LegsValid(cand)
    modifies node`fastestKnownJourney, node`defined
    ensures node.JourneyValid()
    ensures StateOf(node) == RelaxNode(old(StateOf(node)), cand)
  {
    if tmpJourney.EndTime() < node.fastestKnownJourney.EndTime() {
      node.UpdateJourney(tmpJourney);
    }
  }

  /**
   * The update of the next stop's node, as Search.RelaxNode describes: the
   * candidate journey is the current journey extended by the service (a
   * fresh one-leg journey at the start), and it replaces the node's journey
   * when the node is undefined, or unfinalised and reached later.
   */
  method UpdateJourney(nodes: map<Station, Node>, service: Services.Service, currentVar: CurrentVar,
                       adjacent: Station, ghost cand: seq<Leg>)
    requires adjacent in nodes && nodes[adjacent].JourneyValid()
    requires !nodes[adjacent].defined ==> nodes[adjacent].fastestKnownJourney == null
    requires nodes[adjacent].defined && !nodes[adjacent].finalised ==> nodes[adjacent].fastestKnownJourney != null
    requires CanBuild(service, currentVar, adjacent, cand)
    requires forall s :: s in nodes && s != adjacent ==> nodes[s] != nodes[adjacent]
    modifies (nodes[adjacent] as Node)`fastestKnownJourney, (nodes[adjacent] as Node)`defined
    ensures nodes[adjacent].JourneyValid()
    ensures StateOf(nodes[adjacent]) == RelaxNode(old(StateOf(nodes[adjacent])), cand)
    ensures forall s :: s in nodes && s != adjacent ==>
      nodes[s].fastestKnownJourney == old(nodes[s].fastestKnownJourney) && nodes[s].defined == old(nodes[s].defined)
      && nodes[s].finalised == old(nodes[s].finalised)
    ensures forall j: Journey :: old(allocated(j)) ==> j.legs == old(j.legs) && j.totalTravelTime == old(j.totalTravelTime)
  {
    var node := nodes[adjacent];
    if !node.defined {
      SetTentative(node, service, currentVar, adjacent, cand);
    } else if !node.finalised {
      var tmpJourney := TentativeJourney(service, currentVar, adjacent, cand);
      CanBuildMeaning(service, currentVar, adjacent, cand);
      OfferTentative(node, tmpJourney, cand);
    }
  }

  /** Marks the node of `current` finalised; its snapshot changes at that station alone. */
  method MarkFinalised(nodes: map<Station, Node>, current: Station, node: Node, ghost tab: Table)
    requires HeapOk(nodes) && Mirrors(nodes, tab) && current in nodes && node == nodes[current]
    modifies node`finalised
    ensures HeapOk(nodes)
    ensures Mirrors(nodes, tab[current := tab[current].(finalised := true)])
    ensures forall s :: s in nodes ==> nodes[s].fastestKnownJourney == old(nodes[s].fastestKnownJourney)
    ensures nodes[current].JourneyValid() && LegsOf(nodes[current].fastestKnownJourney) == tab[current].journey
  {
    InjectiveAt(nodes, current);
    node.finalised := true;
    MirrorsAt(nodes, tab, current);
  }

  /** The frontier of a mirrored table is the set of defined, unfinalised nodes. */
  lemma PendingNodes(nodes: map<Station, Node>, tab: Table)
    requires Mirrors(nodes, tab)
    ensures forall y :: Pending(tab, y) <==> y in nodes && !nodes[y].finalised && nodes[y].defined
  {
  }

  /** The stations not yet finalised; the search finalises one per round. */
  ghost function Unfinalised(tab: Table): set<Station>
  {
    set x | x in tab && !tab[x].finalised
  }

  /**
   * Finalising one more station, c, and then changing only journeys
   * shrinks the set of unfinalised stations.
   */
  lemma UnfinalisedShrinks(tab: Table, fin: Table, tab': Table, c: Station)
    requires c in tab && !tab[c].finalised && fin == tab[c := tab[c].(finalised := true)]
    requires tab'.Keys == fin.Keys && forall x :: x in fin ==> tab'[x].finalised == fin[x].finalised
    ensures Unfinalised(tab') < Unfinalised(tab)
    ensures |Unfinalised(tab')| < |Unfinalised(tab)|
  {
    assert Unfinalised(tab) == Unfinalised(tab') + {c};
  }

  /**
   * updateJourney on the node map: the node of `adjacent` changes as
   * RelaxNode says and every other node keeps its state.
   */
  method RelaxNext(nodes: map<Station, Node>, service: Services.Service, currentVar: CurrentVar,
                   adjacent: Station, ghost cand: seq<Leg>, ghost tab: Table)
    requires HeapOk(nodes) && Mirrors(nodes, tab) && adjacent in tab
    requires !tab[adjacent].defined ==> tab[adjacent].journey.None?
    requires tab[adjacent].defined && !tab[adjacent].finalised ==>
      tab[adjacent].journey.Some? && LegsValid(tab[adjacent].journey.value)
    requires CanBuild(service, currentVar, adjacent, cand)
    modifies (nodes[adjacent] as Node)`fastestKnownJourney, (nodes[adjacent] as Node)`defined
    ensures HeapOk(nodes)
    ensures Mirrors(nodes, tab[adjacent := RelaxNode(tab[adjacent], cand)])
  {
    UpdateOneNode(nodes, service, currentVar, adjacent, cand, tab);
    MirrorsAfter(nodes, tab, adjacent, RelaxNode(tab[adjacent], cand));
  }

  /**
   * updateJourney seen from the whole node map: the node of `adjacent`
   * changes as RelaxNode says and every other node keeps its state.
   */
  method UpdateOneNode(nodes: map<Station, Node>, service: Services.Service, currentVar: CurrentVar,
                       adjacent: Station, ghost cand: seq<Leg>, ghost tab: Table)
    requires Injective(nodes) && adjacent in tab && tab.Keys == nodes.Keys
    requires forall s :: s in nodes ==> tab[s] == StateOf(nodes[s]) && nodes[s].JourneyValid()
    requires !tab[adjacent].defined ==> tab[adjacent].journey.None?
    requires tab[adjacent].defined && !tab[adjacent].finalised ==>
      tab[adjacent].journey.Some? && LegsValid(tab[adjacent].journey.value)
    requires CanBuild(service, currentVar, adjacent, cand)
    modifies (nodes[adjacent] as Node)`fastestKnownJourney, (nodes[adjacent] as Node)`defined
    ensures Injective(nodes) && nodes[adjacent].JourneyValid()
    ensures StateOf(nodes[adjacent]) == RelaxNode(tab[adjacent], cand)
    ensures forall s :: s in nodes && s != adjacent ==> tab[s] == StateOf(nodes[s]) && nodes[s].JourneyValid()
  {
    InjectiveAt(nodes, adjacent);
    UpdateJourney(nodes, service, currentVar, adjacent, cand);
  }

  /** A node map that mirrors `tab` except at q, where its node's state is st, mirrors tab updated at q. */
  lemma MirrorsAfter(nodes: map<Station, Node>, tab: Table, q: Station, st: NodeState)
    requires Injective(nodes) && q in nodes && tab.Keys == nodes.Keys
    requires nodes[q].JourneyValid() && StateOf(nodes[q]) == st
    requires forall s :: s in nodes && s != q ==> tab[s] == StateOf(nodes[s]) && nodes[s].JourneyValid()
    ensures HeapOk(nodes) && Mirrors(nodes, tab[q := st])
  {
    var tab' := tab[q := st];
    assert tab'.Keys == nodes.Keys;
    forall s | s in nodes
      ensures tab'[s] == StateOf(nodes[s]) && nodes[s].JourneyValid()
    {
      if s != q {
        assert tab'[s] == tab[s];
      }
    }
  }

  /** Relaxing one node changes no station's finalised flag. */
  lemma RelaxKeepsFinalised(tab: Table, q: Station, cand: seq<Leg>)
    requires q in tab && LegsValid(cand)
    requires tab[q].defined && !tab[q].finalised ==> tab[q].journey.Some? && LegsValid(tab[q].journey.value)
    ensures tab[q := RelaxNode(tab[q], cand)].Keys == tab.Keys
    ensures forall x :: x in tab ==> tab[q := RelaxNode(tab[q], cand)][x].finalised == tab[x].finalised
  {
  }

  /** Under the expansion invariant, every service of a route that stops at c is valid and stops at c. */
  lemma HeldServices(tt: Timetable, start: Station, end: Station, time: int, tab: Table, h: int,
                     c: Station, done: set<Route>, r: Route)
    requires ExpandHeld(tt, start, end, time, tab, h, c, done) && r in tt && StopsAt(r, c)
    ensures ServicesStopAt(tt[r], c)
  {
    ExpandHeldMeaning(tt, start, end, time, tab, h, c, done);
  }

  /**
   * The facts the expansion along r needs when getEarliestService finds a
   * service e: the next stop exists, the candidate journey can be built,
   * and updating the next stop, which gives tab', keeps the expansion invariant.
   */
  lemma {:induction false} ExpandFacts(tt: Timetable, start: Station, end: Station, time: int, tab: Table,
                                       c: Station, h: int, done: set<Route>, r: Route, e: Services.Service)
    returns (cand: seq<Leg>, tab': Table)
    requires ExpandHeld(tt, start, end, time, tab, h, c, done)
    requires r in tt && CoversStops(tt, tab.Keys) && StopsAt(r, c) && !CheckLastStop(r, c)
    requires ServicesStopAt(tt[r], c)
    requires exists j ::
      && 0 <= j < |tt[r]| && tt[r][j] == e && TimeAt(tt[r][j], c) >= h
      && (forall i :: 0 <= i < |tt[r]| && TimeAt(tt[r][i], c) >= h ==> TimeAt(tt[r][j], c) <= TimeAt(tt[r][i], c))
    ensures GetNextStop(r, c).Ok?
    ensures var q := GetNextStop(r, c).value;
      && q in tab && c in tab && Buildable(tab[c].journey, c, q, e, cand) && LegsValid(cand)
      && (!tab[q].defined ==> tab[q].journey.None?)
      && (tab[q].defined && !tab[q].finalised ==> tab[q].journey.Some? && LegsValid(tab[q].journey.value))
      && tab' == tab[q := RelaxNode(tab[q], cand)]
      && tab'[c] == tab[c]
    ensures ExpandHeld(tt, start, end, time, tab', h, c, done + {r})
  {
    ExpandHeldBasics(tt, start, end, time, tab, h, c, done);
    var k := Lists.IndexOf(r.stations, c);
    LastStopHasNoNext(r, c);
    assert RouteCovered(r, tab.Keys);
    var ie :| && 0 <= ie < |tt[r]| && tt[r][ie] == e && TimeAt(tt[r][ie], c) >= h
      && (forall i :: 0 <= i < |tt[r]| && TimeAt(tt[r][i], c) >= h ==> TimeAt(tt[r][ie], c) <= TimeAt(tt[r][i], c));
    forall i | 0 <= i < |tt[r]|
      ensures TimeAt(tt[r][i], c) == tt[r][i].times[k]
    {
      Services.StopTimeAtPosition(tt[r][i], k);
    }
    cand, tab' := ExpandAtStop(tt, start, end, time, tab, c, h, done, r, k, ie);
    assert GetNextStop(r, c).value == r.stations[k + 1];
  }

  /**
   * ExpandFacts by stop position: the earliest service ie of r from c, the
   * k-th stop, relaxes the next stop and keeps the expansion invariant.
   */
  lemma ExpandAtStop(tt: Timetable, start: Station, end: Station, time: int, tab: Table,
                    c: Station, h: int, done: set<Route>, r: Route, k: nat, ie: nat)
    returns (cand: seq<Leg>, tab': Table)
    requires ExpandHeld(tt, start, end, time, tab, h, c, done) && WellFormedTimetable(tt)
    requires r in tt && k + 1 < |r.stations| && r.stations[k] == c && r.stations[k + 1] in tab
    requires ie < |tt[r]| && tt[r][ie].times[k] >= h
    requires forall i :: 0 <= i < |tt[r]| && tt[r][i].times[k] >= h ==> tt[r][ie].times[k] <= tt[r][i].times[k]
    ensures var q := r.stations[k + 1];
      && c in tab && Buildable(tab[c].journey, c, q, tt[r][ie], cand) && LegsValid(cand)
      && (!tab[q].defined ==> tab[q].journey.None?)
      && (tab[q].defined && !tab[q].finalised ==> tab[q].journey.Some? && LegsValid(tab[q].journey.value))
      && tab' == tab[q := RelaxNode(tab[q], cand)]
      && tab'[c] == tab[c]
    ensures ExpandHeld(tt, start, end, time, tab', h, c, done + {r})
  {
    ExpandHeldMeaning(tt, start, end, time, tab, h, c, done);
    cand := ExpandBy(tt, start, end, time, tab, h, c, done, r, k, ie);
    tab' := Relax(tab, r.stations[k + 1], cand);
    ExpandHeldMeaning(tt, start, end, time, tab', h, c, done + {r});
  }

  /** When r offers no service from c, the expansion along r changes nothing. */
  lemma SkipFacts(tt: Timetable, start: Station, end: Station, time: int, tab: Table,
                  c: Station, h: int, done: set<Route>, r: Route)
    requires ExpandHeld(tt, start, end, time, tab, h, c, done) && r in tt
    requires StopsAt(r, c) && !CheckLastStop(r, c) ==>
      ServicesStopAt(tt[r], c) && forall i :: 0 <= i < |tt[r]| ==> TimeAt(tt[r][i], c) < h
    ensures ExpandHeld(tt, start, end, time, tab, h, c, done + {r})
  {
    ExpandHeldMeaning(tt, start, end, time, tab, h, c, done);
    if StopsAt(r, c) && !CheckLastStop(r, c) {
      var k := Lists.IndexOf(r.stations, c);
      forall i | 0 <= i < |tt[r]|
        ensures tt[r][i].times[k] < h
      {
        Services.StopTimeAtPosition(tt[r][i], k);
      }
    }
    SkipRelaxed(tt, time, tab, c, r);
    ExpandSkip(tt, start, end, time, tab, h, c, done, r);
    ExpandHeldMeaning(tt, start, end, time, tab, h, c, done + {r});
  }

  /**
   * One pass of findJourney's loop over routes: if `current` has a next stop
   * on r and a service of r leaves it no earlier than currentTime, the
   * earliest such service updates the next stop's node.
   */
  method ExpandRoute(nodes: map<Station, Node>, timetable: Timetable, r: Route, currentVar: CurrentVar,
                     ghost start: Station, ghost end: Station, ghost time: int, ghost done: set<Route>,
                     ghost tab: Table)
    returns (ghost tab': Table)
    requires r in timetable
    requires HeapOk(nodes) && Mirrors(nodes, tab) && CoversStops(timetable, tab.Keys)
    requires ExpandHeld(timetable, start, end, time, tab, currentVar.currentTime, currentVar.current, done)
    requires currentVar.current in tab
    requires currentVar.currentJourney != null ==> currentVar.currentJourney.Valid()
    requires LegsOf(currentVar.currentJourney) == tab[currentVar.current].journey
    modifies nodes.Values
    ensures HeapOk(nodes) && Mirrors(nodes, tab')
    ensures ExpandHeld(timetable, start, end, time, tab', currentVar.currentTime, currentVar.current, done + {r})
    ensures tab'.Keys == tab.Keys && tab'[currentVar.current] == tab[currentVar.current]
    ensures forall s :: s in tab ==> tab'[s].finalised == tab[s].finalised
  {
    var current := currentVar.current;
    tab' := tab;
    if StopsAt(r, current) && !CheckLastStop(r, current) {
      HeldServices(timetable, start, end, time, tab, currentVar.currentTime, current, done, r);
      var service := GetEarliestService(timetable[r], currentVar);
      if service.Some? {
        ghost var cand;
        cand, tab' := ExpandFacts(timetable, start, end, time, tab, current, currentVar.currentTime,
                                  done, r, service.value);
        var adjacent := GetNextStop(r, current).value;
        CanBuildMeaning(service.value, currentVar, adjacent, cand);
        RelaxNext(nodes, service.value, currentVar, adjacent, cand, tab);
        RelaxKeepsFinalised(tab, adjacent, cand);
        return;
      }
    }
    SkipFacts(timetable, start, end, time, tab, current, currentVar.currentTime, done, r);
  }

  /**
   * findJourney's loop over the routes of the timetable, in arbitrary key
   * order: each route expands `current` as ExpandRoute says. Afterwards
   * `current` has been expanded along every route.
   */
  method ExpandCurrent(nodes: map<Station, Node>, timetable: Timetable, currentVar: CurrentVar,
                       ghost start: Station, ghost end: Station, ghost time: int, ghost tab: Table)
    returns (ghost cur: Table)
    requires HeapOk(nodes) && Mirrors(nodes, tab) && CoversStops(timetable, tab.Keys)
    requires ExpandHeld(timetable, start, end, time, tab, currentVar.currentTime, currentVar.current, {})
    requires currentVar.current in tab
    requires currentVar.currentJourney != null ==> currentVar.currentJourney.Valid()
    requires LegsOf(currentVar.currentJourney) == tab[currentVar.current].journey
    modifies nodes.Values
    ensures HeapOk(nodes) && Mirrors(nodes, cur) && cur.Keys == tab.Keys
    ensures ExpandHeld(timetable, start, end, time, cur, currentVar.currentTime, currentVar.current, timetable.Keys)
    ensures forall s :: s in tab ==> cur[s].finalised == tab[s].finalised
  {
    cur := tab;
    var routes := timetable.Keys;
    assert timetable.Keys - routes == {};
    while routes != {}
      invariant routes <= timetable.Keys
      invariant HeapOk(nodes) && Mirrors(nodes, cur) && cur.Keys == tab.Keys
      invariant ExpandHeld(timetable, start, end, time, cur, currentVar.currentTime, currentVar.current,
                           timetable.Keys - routes)
      invariant forall s :: s in tab ==> cur[s].finalised == tab[s].finalised
      invariant cur[currentVar.current] == tab[currentVar.current]
      decreases routes
    {
      var r :| r in routes;
      cur := ExpandRoute(nodes, timetable, r, currentVar, start, end, time, timetable.Keys - routes, cur);
      DoneGrows(timetable.Keys, routes, r);
      routes := routes - {r};
    }
    assert timetable.Keys - routes == timetable.Keys;
  }

  /** Taking r out of the routes still to do adds it to the routes done. */
  lemma DoneGrows(all: set<Route>, routes: set<Route>, r: Route)
    requires r in routes && routes <= all
    ensures all - (routes - {r}) == (all - routes) + {r}
  {
  }

  /**
   * The first half of a round of findJourney's main loop: the frontier
   * station whose node is least by CompareTo becomes `current`, with the
   * time it is reached and its journey (null at the start), and its node is
   * finalised.
   */
  method SelectAndFinalise(nodes: map<Station, Node>, start: Station, end: Station, time: int,
                           timetable: Timetable, ghost tab: Table, ghost h: int)
    returns (currentVar: CurrentVar)
    requires HeapOk(nodes) && Mirrors(nodes, tab) && SearchHeld(timetable, start, end, time, tab, h)
    requires exists s :: s in nodes && !nodes[s].finalised && nodes[s].defined
    modifies nodes.Values
    ensures Pending(tab, currentVar.current)
    ensures HeapOk(nodes)
    ensures Mirrors(nodes, tab[currentVar.current := tab[currentVar.current].(finalised := true)])
    ensures forall s :: s in nodes ==> nodes[s].fastestKnownJourney == old(nodes[s].fastestKnownJourney)
    ensures currentVar.currentJourney == nodes[currentVar.current].fastestKnownJourney
    ensures currentVar.currentJourney != null ==> currentVar.currentJourney.Valid()
    ensures LegsOf(currentVar.currentJourney) == tab[currentVar.current].journey
    ensures currentVar.current == end ==> AnswerHeld(timetable, start, end, time, tab[currentVar.current].journey)
    ensures currentVar.current != end ==>
      ExpandHeld(timetable, start, end, time, tab[currentVar.current := tab[currentVar.current].(finalised := true)],
                 currentVar.currentTime, currentVar.current, {})
  {
    var fastest := GetStationWithFastestJourney(nodes, tab);
    var current := fastest.value;
    SelectFacts(nodes, start, end, time, timetable, tab, h, current);
    var cj := nodes[current].fastestKnownJourney;
    if current == start {
      currentVar := CurrentVar(current, time, null);
    } else {
      currentVar := CurrentVar(current, cj.EndTime(), cj);
    }
    assert currentVar.currentTime == KnownTime(time, tab, current);
    MarkFinalised(nodes, current, nodes[current], tab);
  }

  /**
   * Finds a journey from startStation to endStation leaving no earlier than
   * `time`. A journey found is an earliest trip; null means the
   * stations are the same or no trip exists.
   */
  method FindJourney(startStation: Station, endStation: Station, time: int, timetable: Timetable)
    returns (journey: Journey?)
    requires SearchableTimetable(timetable) && startStation in AllStops(timetable)
    ensures journey != null ==> journey.Valid()
    ensures journey != null ==> startStation != endStation
    ensures journey != null ==> EarliestTrip(timetable, startStation, endStation, time, journey.legs)
    ensures journey == null ==> (startStation == endStation ||
      forall other :: Trip(timetable, startStation, time, other) ==> EndStationOf(other) != endStation)
    ensures startStation == endStation ==> journey == null
  {
    var nodes := CreateNodeMap(timetable);
    ghost var created := Snapshot(nodes);
    InjectiveAt(nodes, startStation);
    nodes[startStation].defined := true;
    MirrorsAt(nodes, created, startStation);
    InitialTableOf(created, AllStops(timetable), startStation);
    InitialSearchHeld(timetable, AllStops(timetable), startStation, endStation, time);
    AllStopsCovers(timetable);
    journey := Explore(nodes, startStation, endStation, time, timetable, InitialTable(AllStops(timetable), startStation));
    AnswerHeldMeaning(timetable, startStation, endStation, time, LegsOf(journey));
  }

  /**
   * One round of findJourney's main loop: finalise the frontier station
   * reached earliest; at the end station hand back its journey, anywhere
   * else expand it along every route, then check whether the frontier is
   * still non-empty.
   */
  method Round(nodes: map<Station, Node>, start: Station, end: Station, time: int, timetable: Timetable,
               ghost tab: Table, ghost h: int)
    returns (found: bool, current: Station, journey: Journey?, status: bool, ghost tab': Table, ghost h': int)
    requires HeapOk(nodes) && Mirrors(nodes, tab) && CoversStops(timetable, nodes.Keys)
    requires SearchHeld(timetable, start, end, time, tab, h)
    requires exists s :: s in nodes && !nodes[s].finalised && nodes[s].defined
    modifies nodes.Values
    ensures HeapOk(nodes) && Mirrors(nodes, tab')
    ensures found ==> current in nodes && journey == nodes[current].fastestKnownJourney
    ensures found ==> journey == old(nodes[current].fastestKnownJourney)
    ensures found && journey != null ==> journey.Valid()
    ensures found ==> AnswerHeld(timetable, start, end, time, LegsOf(journey))
    ensures !found ==> SearchHeld(timetable, start, end, time, tab', h') && |Unfinalised(tab')| < |Unfinalised(tab)|
    ensures !found ==> (status <==> exists s :: s in nodes && !nodes[s].finalised && nodes[s].defined)
  {
    var currentVar := SelectAndFinalise(nodes, start, end, time, timetable, tab, h);
    current := currentVar.current;
    if current == end {
      return true, current, currentVar.currentJourney, false, tab[current := tab[current].(finalised := true)], h;
    }
    h' := currentVar.currentTime;
    ghost var fin := tab[current := tab[current].(finalised := true)];
    tab' := ExpandCurrent(nodes, timetable, currentVar, start, end, time, fin);
    ExpandedAll(timetable, start, end, time, tab', h', current);
    UnfinalisedShrinks(tab, fin, tab', current);
    status := CheckStationStatus(nodes, tab');
    return false, current, null, status, tab', h';
  }

  /**
   * findJourney's main loop, over a node map in which only the start is
   * defined and no node holds a journey: each round selects the frontier
   * station reached earliest and finalises it, then returns its journey if
   * it is the end station and otherwise expands it along every route.
   */
  method Explore(nodes: map<Station, Node>, startStation: Station, endStation: Station, time: int,
                 timetable: Timetable, ghost tab0: Table)
    returns (journey: Journey?)
    requires HeapOk(nodes) && Mirrors(nodes, tab0) && CoversStops(timetable, nodes.Keys)
    requires SearchHeld(timetable, startStation, endStation, time, tab0, time)
    modifies nodes.Values
    ensures journey != null ==> journey.Valid()
    ensures AnswerHeld(timetable, startStation, endStation, time, LegsOf(journey))
  {
    ghost var h := time;
    ghost var tab := tab0;
    var status := CheckStationStatus(nodes, tab);
    while status
      invariant HeapOk(nodes) && Mirrors(nodes, tab)
      invariant SearchHeld(timetable, startStation, endStation, time, tab, h)
      invariant status <==> exists s :: s in nodes && !nodes[s].finalised && nodes[s].defined
      decreases |Unfinalised(tab)|
    {
      var found, current, found_journey;
      found, current, found_journey, status, tab, h := Round(nodes, startStation, endStation, time, timetable, tab, h);
      if found {
        return found_journey;
      }
    }
    PendingNodes(nodes, tab);
    ExhaustedFacts(timetable, startStation, endStation, time, tab, h);
    return null;
  }

  /**
   * The station chosen by CompareTo is the frontier station reached
   * earliest: at the first round it is the start, alone in the frontier;
   * afterwards every frontier node holds a journey and CompareTo orders by arrival.
   */
  lemma ChosenIsEarliest(nodes: map<Station, Node>, start: Station, end: Station, time: int, tt: Timetable,
                         tab: Table, h: int, c: Station)
    requires HeapOk(nodes) && Mirrors(nodes, tab) && SearchInv(tt, start, end, time, tab, h)
    requires c in nodes && !nodes[c].finalised && nodes[c].defined
    requires forall s :: s in nodes && !nodes[s].finalised && nodes[s].defined ==> nodes[c].CompareTo(nodes[s]) <= 0
    ensures nodes[c].JourneyValid()
    ensures forall y :: Pending(tab, y) ==> KnownTime(time, tab, c) <= KnownTime(time, tab, y)
    ensures c == start <==> nodes[c].fastestKnownJourney == null
    ensures c != start ==> KnownTime(time, tab, c) == nodes[c].fastestKnownJourney.EndTime()
  {
    if !tab[start].finalised {
      assert c == start;
    } else {
      forall y | Pending(tab, y)
        ensures KnownTime(time, tab, c) <= KnownTime(time, tab, y)
      {
        assert nodes[c].CompareTo(nodes[y]) <= 0;
      }
    }
  }

  /**
   * What the round selecting c knows: c is the start exactly when its node
   * holds no journey; at the end station that journey is an earliest trip;
   * elsewhere, finalising c starts its expansion at the time c is reached.
   */
  lemma SelectFacts(nodes: map<Station, Node>, start: Station, end: Station, time: int, tt: Timetable,
                    tab: Table, h: int, c: Station)
    requires HeapOk(nodes) && Mirrors(nodes, tab) && SearchHeld(tt, start, end, time, tab, h)
    requires c in nodes && !nodes[c].finalised && nodes[c].defined
    requires forall s :: s in nodes && !nodes[s].finalised && nodes[s].defined ==> nodes[c].CompareTo(nodes[s]) <= 0
    ensures nodes[c].JourneyValid() && Timed(tab) && c in tab
    ensures c == start <==> nodes[c].fastestKnownJourney == null
    ensures c == end ==> AnswerHeld(tt, start, end, time, tab[c].journey)
    ensures c != end ==>
      ExpandHeld(tt, start, end, time, tab[c := tab[c].(finalised := true)], KnownTime(time, tab, c), c, {})
  {
    SearchHeldMeaning(tt, start, end, time, tab, h);
    ChosenIsEarliest(nodes, start, end, time, tt, tab, h, c);
    if c == end {
      EndSelected(tt, start, end, time, tab, h);
    } else {
      OtherSelected(tt, start, end, time, tab, h, c);
    }
  }

  /** Selecting the end station: its journey is the answer. */
  lemma EndSelected(tt: Timetable, start: Station, end: Station, time: int, tab: Table, h: int)
    requires SearchHeld(tt, start, end, time, tab, h) && Timed(tab) && Pending(tab, end)
    requires forall y :: Pending(tab, y) ==> KnownTime(time, tab, end) <= KnownTime(time, tab, y)
    ensures AnswerHeld(tt, start, end, time, tab[end].journey)
  {
    SearchHeldMeaning(tt, start, end, time, tab, h);
    if end != start {
      forall other | Trip(tt, start, time, other) && EndStationOf(other) == end
        ensures EndTimeOf(tab[end].journey.value) <= EndTimeOf(other)
      {
        SelectionOptimal(tt, start, end, time, tab, h, other);
      }
    }
    AnswerHeldMeaning(tt, start, end, time, tab[end].journey);
  }

  /** Selecting any other station: finalising it starts its expansion at the time it is reached. */
  lemma OtherSelected(tt: Timetable, start: Station, end: Station, time: int, tab: Table, h: int, c: Station)
    requires SearchHeld(tt, start, end, time, tab, h) && Timed(tab) && Pending(tab, c) && c != end
    requires forall y :: Pending(tab, y) ==> KnownTime(time, tab, c) <= KnownTime(time, tab, y)
    ensures ExpandHeld(tt, start, end, time, tab[c := tab[c].(finalised := true)], KnownTime(time, tab, c), c, {})
  {
    SearchHeldMeaning(tt, start, end, time, tab, h);
    Finalise(tt, start, end, time, tab, h, c);
    ExpandHeldMeaning(tt, start, end, time, tab[c := tab[c].(finalised := true)], KnownTime(time, tab, c), c, {});
  }

  /** Once c has been expanded along every route, the main loop's invariant holds again. */
  lemma ExpandedAll(tt: Timetable, start: Station, end: Station, time: int, tab: Table, h: int, c: Station)
    requires ExpandHeld(tt, start, end, time, tab, h, c, tt.Keys)
    ensures SearchHeld(tt, start, end, time, tab, h)
  {
    ExpandHeldMeaning(tt, start, end, time, tab, h, c, tt.Keys);
    ExpandDone(tt, start, end, time, tab, h, c, tt.Keys);
    SearchHeldMeaning(tt, start, end, time, tab, h);
  }

  /** An empty frontier under the main loop's invariant: no trip reaches the end station. */
  lemma ExhaustedFacts(tt: Timetable, start: Station, end: Station, time: int, tab: Table, h: int)
    requires SearchHeld(tt, start, end, time, tab, h) && forall y :: !Pending(tab, y)
    ensures forall other :: Trip(tt, start, time, other) ==> EndStationOf(other) != end
    ensures AnswerHeld(tt, start, end, time, None)
  {
    SearchHeldMeaning(tt, start, end, time, tab, h);
    forall other | Trip(tt, start, time, other)
      ensures EndStationOf(other) != end
    {
      ExhaustedNoTrip(tt, start, end, time, tab, h, other);
    }
    AnswerHeldMeaning(tt, start, end, time, None);
  }
}
