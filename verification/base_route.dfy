/**
 * The operations of `BaseRoute` as the Python code performs them: loops that
 * accumulate a list, stop at the first failure, or break at the first match.
 * Each one is proved to compute its specification function from module Routes.
 */
module BaseRoute {
  import opened Wrappers
  import opened Routes
  import RouteProperties

  /**
   * `__init__`: start with an empty sub-route list and add the given
   * sub-routes one at a time; the first rejected one aborts construction.
   */
  method NewRoute<V>(view: V, name: Name, subRoutes: seq<Route<V>>) returns (res: Result<Route<V>, RoutingError<V>>)
    ensures res == Built(view, name, subRoutes)
    ensures res.Success? ==> res.value == Route(view, name, subRoutes)
  {
    var route := Route(view, name, []);
    for i := 0 to |subRoutes|
      invariant Built(view, name, subRoutes[..i]) == Success(route)
    {
      RouteProperties.BuiltSnoc(view, name, subRoutes, i, route);
      var added := AddSubRoute(route, subRoutes[i]);
      if added.Failure? {
        RouteProperties.BuiltFailurePersists(view, name, subRoutes, i + 1);
        return added;
      }
      route := added.value;
    }
    assert subRoutes[..|subRoutes|] == subRoutes;
    return Success(route);
  }

  /** `_add_sub_route`: validate the candidate, and append it only when validation passes. */
  method AddSubRoute<V>(route: Route<V>, sub: Route<V>) returns (res: Result<Route<V>, RoutingError<V>>)
    ensures res == WithSubRoute(route, sub)
  {
    var check := ValidateNewSubRouteName(route, sub);
    if check.Fail? {
      return Failure(check.error);
    }
    return Success(Route(route.view, route.name, route.subs + [sub]));
  }

  /**
   * `_validate_new_sub_route_name`: walk the candidate's names in preorder and
   * report the first one already present in the route.
   */
  method ValidateNewSubRouteName<V>(route: Route<V>, sub: Route<V>) returns (check: Outcome<RoutingError<V>>)
    ensures check == SubRouteNameCheck(route, sub)
  {
    var current := GetRouteNames(route);
    var candidates := GetRouteNames(sub);
    for i := 0 to |candidates|
      invariant Disjoint(candidates[..i], current)
    {
      if candidates[i] in current {
        RouteProperties.FirstDuplicateIsFirstFound(candidates, current, i);
        return Fail(DuplicatedRouteNameError(candidates[i]));
      }
      assert candidates[..i + 1] == candidates[..i] + [candidates[i]];
    }
    assert candidates[..|candidates|] == candidates;
    return Pass;
  }

  /**
   * `_get_route_names`: the route's own name when present, then the names of
   * each sub-route's subtree, accumulated in order.
   */
  method GetRouteNames<V>(route: Route<V>) returns (names: seq<string>)
    ensures names == RouteNames(route)
    decreases route
  {
    names := [];
    if IsPresent(route.name) {
      names := names + [route.name.value];
    }
    assert route.subs[..0] == [];
    for i := 0 to |route.subs|
      invariant names == OwnNames(route.name) + SubRouteNames(route.subs[..i])
    {
      var subNames := GetRouteNames(route.subs[i]);
      RouteProperties.SubRouteNamesExtend(OwnNames(route.name), route.subs, i, names);
      names := names + subNames;
    }
    assert route.subs[..|route.subs|] == route.subs;
  }

  /**
   * `get_route_by_name`: the receiver itself when its name matches, otherwise
   * the sub-route search; a search that finds nothing raises.
   */
  method GetRouteByName<V>(route: Route<V>, routeName: Name) returns (res: Result<Route<V>, RoutingError<V>>)
    ensures res == RouteByName(route, routeName)
    decreases route, 1
  {
    var matching: Option<Route<V>>;
    if route.name == routeName {
      matching := Some(route);
    } else {
      matching := GetSubRouteByName(route, routeName);
    }
    if matching.None? {
      return Failure(NonExistingRouteError(route, routeName));
    }
    return Success(matching.value);
  }

  /**
   * `_get_sub_route_by_name`: try each sub-route in order, skip the ones whose
   * lookup raises, and stop at the first that succeeds.
   */
  method GetSubRouteByName<V>(route: Route<V>, routeName: Name) returns (matching: Option<Route<V>>)
    ensures matching == FirstSubMatch(route.subs, routeName)
    decreases route, 0
  {
    matching := None;
    for i := 0 to |route.subs|
      invariant matching == None
      invariant FirstSubMatch(route.subs, routeName) == FirstSubMatch(route.subs[i..], routeName)
    {
      var found := GetRouteByName(route.subs[i], routeName);
      assert route.subs[i..][0] == route.subs[i] && route.subs[i..][1..] == route.subs[i + 1..];
      if found.Success? {
        matching := Some(found.value);
        break;
      }
    }
  }
}
