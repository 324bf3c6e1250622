/**
 * The route tree of django_routing/routes.py, as values.
 *
 * A `BaseRoute` holds an opaque view, an optional name and an ordered list of
 * sub-routes. Its name and view never change after construction and its
 * sub-route list only grows while the constructor runs, so a route is modelled
 * as an immutable datatype value. This module gives the specification
 * functions; module BaseRoute gives the loop-based operations proved equal to
 * them, and module RouteProperties the properties of the tree.
 */
module Routes {
  import opened Wrappers

  /** A route name: `None` for Python's `None`, `Some(s)` for a string (possibly empty). */
  type Name = Option<string>

  /** A route node; `V` is the opaque view. */
  datatype Route<V> = Route(view: V, name: Name, subs: seq<Route<V>>)

  /** The two error kinds the route tree raises. */
  datatype RoutingError<V> =
    | DuplicatedRouteNameError(name: string)
      // the searched route and the requested name, both shown in the message
    | NonExistingRouteError(route: Route<V>, routeName: Name)

  /** A name takes part in uniqueness only when it is truthy: neither `None` nor empty. */
  function IsPresent(n: Name): (b: bool)
    ensures b <==> n != None && n != Some("")
  {
    n.Some? && n.value != ""
  }

  /** The route's own name as a list of zero or one present names. */
  function OwnNames(n: Name): (names: seq<string>)
    ensures |names| <= 1
    ensures forall x :: x in names <==> n == Some(x) && x != ""
  {
    if IsPresent(n) then [n.value] else []
  }

  /** No element of `a` occurs in `b`. */
  predicate Disjoint(a: seq<string>, b: seq<string>) {
    forall x :: x in a ==> x !in b
  }

  /** No name occurs at two positions. */
  predicate Unique(s: seq<string>) {
    forall i, j :: 0 <= i < j < |s| ==> s[i] != s[j]
  }

  /** The present names of a route's subtree in preorder (`_get_route_names`). */
  function RouteNames<V>(route: Route<V>): (names: seq<string>)
    ensures "" !in names
    ensures IsPresent(route.name) ==> |names| > 0 && names[0] == route.name.value
    decreases route
  {
    OwnNames(route.name) + SubRouteNames(route.subs)
  }

  /** The present names of each sub-route's subtree, concatenated in order. */
  function SubRouteNames<V>(subs: seq<Route<V>>): (names: seq<string>)
    ensures "" !in names
    decreases subs
  {
    if subs == [] then [] else RouteNames(subs[0]) + SubRouteNames(subs[1..])
  }

  /** Every node of a route's subtree in preorder, the route itself first. */
  function Subtree<V>(route: Route<V>): (nodes: seq<Route<V>>)
    ensures |nodes| > 0 && nodes[0] == route
    decreases route
  {
    [route] + SubtreeOf(route.subs)
  }

  /** The subtrees of the given sub-routes, concatenated in order. */
  function SubtreeOf<V>(subs: seq<Route<V>>): seq<Route<V>>
    decreases subs
  {
    if subs == [] then [] else Subtree(subs[0]) + SubtreeOf(subs[1..])
  }

  /** The first candidate, in order, that already occurs among the current names. */
  function FirstDuplicate(candidates: seq<string>, current: seq<string>): (d: Option<string>)
    ensures d.None? <==> Disjoint(candidates, current)
    ensures d.Some? ==> d.value in current
    ensures d.Some? ==>
      exists k :: 0 <= k < |candidates| && candidates[k] == d.value && Disjoint(candidates[..k], current)
  {
    if candidates == [] then None
    else if candidates[0] in current then Some(candidates[0])
    else
      var d := FirstDuplicate(candidates[1..], current);
      if d.Some? then
        var k :| 0 <= k < |candidates[1..]| && candidates[1..][k] == d.value
                 && Disjoint(candidates[1..][..k], current);
        assert candidates[..k + 1] == [candidates[0]] + candidates[1..][..k];
        d
      else d
  }

  /** `_validate_new_sub_route_name`: the check that `sub` may be added to `route`. */
  function SubRouteNameCheck<V>(route: Route<V>, sub: Route<V>): (o: Outcome<RoutingError<V>>)
    ensures o.Pass? <==> Disjoint(RouteNames(sub), RouteNames(route))
    ensures o.Fail? ==>
      && o.error.DuplicatedRouteNameError?
      && o.error.name in RouteNames(sub)
      && o.error.name in RouteNames(route)
  {
    match FirstDuplicate(RouteNames(sub), RouteNames(route))
    case None => Pass
    case Some(d) => Fail(DuplicatedRouteNameError(d))
  }

  /** `_add_sub_route`: validate `sub` against `route`, then append it. */
  function WithSubRoute<V>(route: Route<V>, sub: Route<V>): (res: Result<Route<V>, RoutingError<V>>)
    ensures res.Success? <==> Disjoint(RouteNames(sub), RouteNames(route))
    ensures res.Success? ==> res.value == Route(route.view, route.name, route.subs + [sub])
    ensures res.Failure? ==>
      && res.error.DuplicatedRouteNameError?
      && res.error.name in RouteNames(sub)
      && res.error.name in RouteNames(route)
  {
    match SubRouteNameCheck(route, sub)
    case Fail(e) => Failure(e)
    case Pass => Success(route.(subs := route.subs + [sub]))
  }

  /** `__init__`: start with no sub-routes and add the given ones one at a time, in order. */
  function Built<V>(view: V, name: Name, subRoutes: seq<Route<V>>): (res: Result<Route<V>, RoutingError<V>>)
    ensures res.Success? ==> res.value == Route(view, name, subRoutes)
    ensures res.Failure? ==> res.error.DuplicatedRouteNameError?
    decreases |subRoutes|
  {
    if subRoutes == [] then Success(Route(view, name, []))
    else
      var n := |subRoutes| - 1;
      match Built(view, name, subRoutes[..n])
      case Failure(e) => Failure(e)
      case Success(route) =>
        assert subRoutes[..n] + [subRoutes[n]] == subRoutes;
        WithSubRoute(route, subRoutes[n])
  }

  /** `get_route_by_name`: the receiver if its name matches, else the first match among its sub-routes. */
  function RouteByName<V>(route: Route<V>, routeName: Name): (res: Result<Route<V>, RoutingError<V>>)
    ensures route.name == routeName ==> res == Success(route)
    ensures res.Success? ==> res.value.name == routeName
    ensures res.Failure? ==> res.error == NonExistingRouteError(route, routeName)
    decreases route
  {
    var matching := if route.name == routeName then Some(route) else FirstSubMatch(route.subs, routeName);
    match matching
    case None => Failure(NonExistingRouteError(route, routeName))
    case Some(m) => Success(m)
  }

  /** `_get_sub_route_by_name`: the result of the first sub-route, in order, whose lookup succeeds. */
  function FirstSubMatch<V>(subs: seq<Route<V>>, routeName: Name): (m: Option<Route<V>>)
    ensures m.Some? ==> m.value.name == routeName
    decreases subs
  {
    if subs == [] then None
    else match RouteByName(subs[0], routeName)
      case Success(found) => Some(found)
      case Failure(_) => FirstSubMatch(subs[1..], routeName)
  }

  /** `create_specialization`: a stub that ignores its arguments and returns the receiver. */
  function CreateSpecialization<V>(
    route: Route<V>,
    additionalSubRoutes: seq<Route<V>>,
    specializedSubRoutes: seq<Route<V>>,
    viewsByRouteName: Option<map<string, V>>
  ): (s: Route<V>)
    ensures s.name == route.name && s.view == route.view && s.subs == route.subs
  {
    route
  }
}
