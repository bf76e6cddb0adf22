/**
 * The exception kinds of the timetable model. Null-pointer exceptions have no
 * counterpart: Dafny references and values here are never null.
 */
module Exceptions {

  /** Why a route was rejected (both are an InvalidRouteException). */
  datatype RouteProblem = TooFewStops | DuplicateStops

  /** Why a service was rejected (all are an InvalidServiceException). */
  datatype ServiceProblem = WrongTimeCount | DuplicateTimes | NotAscending | NegativeTime

  datatype Error =
    | NoSuchStop
    | InvalidRoute(routeProblem: RouteProblem)
    | InvalidService(serviceProblem: ServiceProblem)
    | InvalidJourney
}
