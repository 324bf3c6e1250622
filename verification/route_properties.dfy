/**
 * Properties of the route tree: how the name list is assembled, what
 * construction accepts and rejects, the name-uniqueness invariant every
 * constructed route keeps, and how lookup relates to the name list.
 */
module RouteProperties {
  import opened Wrappers
  import opened Routes

  // ---------------------------------------------------------------------------
  // The name list
  // ---------------------------------------------------------------------------

  /** The names under a concatenation of sub-route lists are the concatenated names. */
  lemma {:induction false} SubRouteNamesAppend<V>(a: seq<Route<V>>, b: seq<Route<V>>)
    ensures SubRouteNames(a + b) == SubRouteNames(a) + SubRouteNames(b)
    decreases |a|
  {
    if a == [] {
      assert a + b == b;
    } else {
      assert (a + b)[1..] == a[1..] + b;
      SubRouteNamesAppend(a[1..], b);
    }
  }

  /** The names under a single sub-route are that sub-route's names. */
  lemma SubRouteNamesSingle<V>(sub: Route<V>)
    ensures SubRouteNames([sub]) == RouteNames(sub)
  {
  }

  /** Adding one more sub-route appends that sub-route's names (the loop of `_get_route_names`). */
  lemma SubRouteNamesSnoc<V>(subs: seq<Route<V>>, i: nat)
    requires i < |subs|
    ensures SubRouteNames(subs[..i + 1]) == SubRouteNames(subs[..i]) + RouteNames(subs[i])
  {
    assert subs[..i + 1] == subs[..i] + [subs[i]];
    SubRouteNamesAppend(subs[..i], [subs[i]]);
    SubRouteNamesSingle(subs[i]);
  }

  /** One step of the accumulating loop of `_get_route_names`: extending by one more sub-route's names. */
  lemma SubRouteNamesExtend<V>(own: seq<string>, subs: seq<Route<V>>, i: nat, names: seq<string>)
    requires i < |subs| && names == own + SubRouteNames(subs[..i])
    ensures names + RouteNames(subs[i]) == own + SubRouteNames(subs[..i + 1])
  {
    SubRouteNamesSnoc(subs, i);
  }

  // ---------------------------------------------------------------------------
  // Construction
  // ---------------------------------------------------------------------------

  /** Constructing over one more sub-route adds that sub-route to the route built so far. */
  lemma BuiltSnoc<V>(view: V, name: Name, subRoutes: seq<Route<V>>, i: nat, route: Route<V>)
    requires i < |subRoutes|
    requires Built(view, name, subRoutes[..i]) == Success(route)
    ensures Built(view, name, subRoutes[..i + 1]) == WithSubRoute(route, subRoutes[i])
  {
    assert subRoutes[..i + 1][..i] == subRoutes[..i];
  }

  /** Once a prefix of the sub-routes is rejected, construction fails with that same error. */
  lemma {:induction false} BuiltFailurePersists<V>(view: V, name: Name, subRoutes: seq<Route<V>>, k: nat)
    requires k <= |subRoutes|
    requires Built(view, name, subRoutes[..k]).Failure?
    ensures Built(view, name, subRoutes) == Built(view, name, subRoutes[..k])
    decreases |subRoutes| - k
  {
    if k < |subRoutes| {
      var n := |subRoutes| - 1;
      PrefixOfPrefix(subRoutes, n, k);
      BuiltFailurePersists(view, name, subRoutes[..n], k);
      BuiltFailureStep(view, name, subRoutes);
    } else {
      assert subRoutes[..k] == subRoutes;
    }
  }

  /** A failure over all but the last sub-route is the failure over all of them. */
  lemma BuiltFailureStep<V>(view: V, name: Name, subRoutes: seq<Route<V>>)
    requires subRoutes != [] && Built(view, name, subRoutes[..|subRoutes| - 1]).Failure?
    ensures Built(view, name, subRoutes) == Built(view, name, subRoutes[..|subRoutes| - 1])
  {
  }

  /** The `k`-th sub-route's names avoid every name present before it is added. */
  ghost predicate FitsAfter<V>(name: Name, subRoutes: seq<Route<V>>, k: nat)
    requires k < |subRoutes|
  {
    Disjoint(RouteNames(subRoutes[k]), OwnNames(name) + SubRouteNames(subRoutes[..k]))
  }

  /** Every sub-route's names avoid every name present before it is added. */
  ghost predicate AllFit<V>(name: Name, subRoutes: seq<Route<V>>) {
    forall k :: 0 <= k < |subRoutes| ==> FitsAfter(name, subRoutes, k)
  }

  /** All sub-routes fit exactly when all but the last fit and the last one fits too. */
  lemma AllFitSnoc<V>(name: Name, subRoutes: seq<Route<V>>)
    requires subRoutes != []
    ensures AllFit(name, subRoutes) <==>
      AllFit(name, subRoutes[..|subRoutes| - 1]) && FitsAfter(name, subRoutes, |subRoutes| - 1)
  {
    var n := |subRoutes| - 1;
    var prefix := subRoutes[..n];
    forall k | 0 <= k < n
      ensures FitsAfter(name, subRoutes, k) <==> FitsAfter(name, prefix, k)
    {
      assert subRoutes[k] == prefix[k];
      assert subRoutes[..k] == prefix[..k];
    }
  }

  /**
   * Construction succeeds exactly when every sub-route's names are disjoint
   * from the names already present when it is added: the parent's own name
   * and the names under the sub-routes before it.
   */
  lemma {:induction false} BuiltSucceedsIff<V>(view: V, name: Name, subRoutes: seq<Route<V>>)
    ensures Built(view, name, subRoutes).Success? <==> AllFit(name, subRoutes)
    decreases |subRoutes|
  {
    if subRoutes != [] {
      BuiltSucceedsIff(view, name, subRoutes[..|subRoutes| - 1]);
      BuiltStep(view, name, subRoutes);
      AllFitSnoc(name, subRoutes);
    }
  }

  /** One step of construction: the last sub-route is added when the rest were and it fits. */
  lemma BuiltStep<V>(view: V, name: Name, subRoutes: seq<Route<V>>)
    requires subRoutes != []
    ensures Built(view, name, subRoutes).Success? <==>
      Built(view, name, subRoutes[..|subRoutes| - 1]).Success? && FitsAfter(name, subRoutes, |subRoutes| - 1)
  {
  }

  /** Construction over `subRoutes` accepted the first `k` of them and then failed on sub-route `k`. */
  ghost predicate StopsAt<V>(view: V, name: Name, subRoutes: seq<Route<V>>, k: nat)
    requires k < |subRoutes|
  {
    && Built(view, name, subRoutes[..k]) == Success(Route(view, name, subRoutes[..k]))
    && Built(view, name, subRoutes) == WithSubRoute(Route(view, name, subRoutes[..k]), subRoutes[k])
    && Built(view, name, subRoutes).Failure?
  }

  /**
   * A failed construction names a duplicated name: the sub-routes before some
   * index `k` were accepted, and the `k`-th one was rejected because the
   * reported name occurs both under it and among the names present before it.
   */
  lemma {:induction false} BuiltFailureNamesDuplicate<V>(view: V, name: Name, subRoutes: seq<Route<V>>)
      returns (k: nat)
    requires Built(view, name, subRoutes).Failure?
    ensures k < |subRoutes| && StopsAt(view, name, subRoutes, k)
    ensures Built(view, name, subRoutes).error.name in RouteNames(subRoutes[k])
    ensures Built(view, name, subRoutes).error.name in OwnNames(name) + SubRouteNames(subRoutes[..k])
    decreases |subRoutes|
  {
    k := BuiltFailureStop(view, name, subRoutes);
    var before := Route(view, name, subRoutes[..k]);
    assert RouteNames(before) == OwnNames(name) + SubRouteNames(subRoutes[..k]);
    assert Built(view, name, subRoutes) == WithSubRoute(before, subRoutes[k]);
  }

  /** A failed construction stops at some sub-route after accepting all the earlier ones. */
  lemma {:induction false} BuiltFailureStop<V>(view: V, name: Name, subRoutes: seq<Route<V>>)
      returns (k: nat)
    requires Built(view, name, subRoutes).Failure?
    ensures k < |subRoutes| && StopsAt(view, name, subRoutes, k)
    decreases |subRoutes|
  {
    var n := |subRoutes| - 1;
    var prefix := subRoutes[..n];
    if Built(view, name, prefix).Failure? {
      k := BuiltFailureStop(view, name, prefix);
      StopsAtExtend(view, name, subRoutes, k);
    } else {
      k := n;
      BuiltSnoc(view, name, subRoutes, n, Route(view, name, prefix));
      assert subRoutes[..n + 1] == subRoutes;
    }
  }

  /** Where construction over all but the last sub-route stopped, construction over all of them stops too. */
  lemma StopsAtExtend<V>(view: V, name: Name, subRoutes: seq<Route<V>>, k: nat)
    requires k < |subRoutes| - 1
    requires StopsAt(view, name, subRoutes[..|subRoutes| - 1], k)
    ensures StopsAt(view, name, subRoutes, k)
  {
    var n := |subRoutes| - 1;
    var prefix := subRoutes[..n];
    PrefixOfPrefix(subRoutes, n, k);
    BuiltFailurePersists(view, name, subRoutes, n);
    StopsAtTransfer(view, name, prefix, subRoutes, k);
  }

  /** A prefix of a prefix is a prefix, and keeps the element that follows it. */
  lemma PrefixOfPrefix<T>(s: seq<T>, n: nat, k: nat)
    requires k <= n <= |s|
    ensures s[..n][..k] == s[..k]
    ensures k < n ==> s[..n][k] == s[k]
  {
  }

  /** Whether construction stops at `k` depends only on the first `k + 1` sub-routes and the outcome. */
  lemma StopsAtTransfer<V>(view: V, name: Name, a: seq<Route<V>>, b: seq<Route<V>>, k: nat)
    requires k < |a| && k < |b| && a[..k] == b[..k] && a[k] == b[k]
    requires Built(view, name, a) == Built(view, name, b)
    requires StopsAt(view, name, a, k)
    ensures StopsAt(view, name, b, k)
  {
  }

  /** The names of a route with one more sub-route are its previous names followed by that sub-route's names. */
  lemma RouteNamesSnoc<V>(view: V, name: Name, subRoutes: seq<Route<V>>)
    requires subRoutes != []
    ensures RouteNames(Route(view, name, subRoutes)) ==
      RouteNames(Route(view, name, subRoutes[..|subRoutes| - 1])) + RouteNames(subRoutes[|subRoutes| - 1])
  {
    var n := |subRoutes| - 1;
    var own := OwnNames(name);
    SubRouteNamesSnoc(subRoutes, n);
    assert subRoutes[..n + 1] == subRoutes;
    assert own + (SubRouteNames(subRoutes[..n]) + RouteNames(subRoutes[n])) ==
      (own + SubRouteNames(subRoutes[..n])) + RouteNames(subRoutes[n]);
  }

  /** `Unique` splits over a concatenation. */
  lemma UniqueAppend(a: seq<string>, b: seq<string>)
    ensures Unique(a + b) <==> Unique(a) && Unique(b) && Disjoint(a, b)
  {
    var s := a + b;
    if Unique(s) {
      forall i, j | 0 <= i < j < |a| ensures a[i] != a[j] {
        assert s[i] == a[i] && s[j] == a[j];
      }
      forall i, j | 0 <= i < j < |b| ensures b[i] != b[j] {
        assert s[|a| + i] == b[i] && s[|a| + j] == b[j];
      }
      forall x | x in a ensures x !in b {
        var i :| 0 <= i < |a| && a[i] == x;
        forall j | 0 <= j < |b| ensures b[j] != x {
          assert s[i] == x && s[|a| + j] == b[j];
        }
      }
    }
    if Unique(a) && Unique(b) && Disjoint(a, b) {
      forall i, j | 0 <= i < j < |s| ensures s[i] != s[j] {
        if j < |a| {
          assert s[i] == a[i] && s[j] == a[j];
        } else if i < |a| {
          assert s[i] == a[i] && s[j] == b[j - |a|];
          assert s[i] in a && s[j] in b;
        } else {
          assert s[i] == b[i - |a|] && s[j] == b[j - |a|];
        }
      }
    }
  }

  /**
   * When every given sub-route is itself duplicate-free, construction succeeds
   * exactly when the resulting tree's name list is duplicate-free: the
   * validation catches sibling, ancestor and cousin duplicates alike, and
   * rejects nothing else.
   */
  lemma {:induction false} BuiltUniqueIff<V>(view: V, name: Name, subRoutes: seq<Route<V>>)
    requires forall k :: 0 <= k < |subRoutes| ==> Unique(RouteNames(subRoutes[k]))
    ensures Built(view, name, subRoutes).Success? <==> Unique(RouteNames(Route(view, name, subRoutes)))
    decreases |subRoutes|
  {
    if subRoutes == [] {
      assert RouteNames(Route(view, name, subRoutes)) == OwnNames(name);
    } else {
      var n := |subRoutes| - 1;
      var prefix := subRoutes[..n];
      BuiltUniqueIff(view, name, prefix);
      BuiltStep(view, name, subRoutes);
      var before := RouteNames(Route(view, name, prefix));
      var last := RouteNames(subRoutes[n]);
      RouteNamesSnoc(view, name, subRoutes);
      UniqueAppend(before, last);
      assert Disjoint(last, before) <==> Disjoint(before, last);
    }
  }


  /** Scanning the candidates in order, the first one found present is the one `FirstDuplicate` reports. */
  lemma FirstDuplicateIsFirstFound(candidates: seq<string>, current: seq<string>, i: nat)
    requires i < |candidates| && candidates[i] in current
    requires Disjoint(candidates[..i], current)
    ensures FirstDuplicate(candidates, current) == Some(candidates[i])
  {
  }

  /**
   * A route obtained through the constructor, with every sub-route itself
   * obtained through the constructor.
   */
  ghost predicate Constructed<V>(route: Route<V>)
    decreases route
  {
    && (forall k :: 0 <= k < |route.subs| ==> Constructed(route.subs[k]))
    && Built(route.view, route.name, route.subs).Success?
  }

  /** The uniqueness invariant: a constructed route never holds a duplicate present name. */
  lemma {:induction false} ConstructedIsUnique<V>(route: Route<V>)
    requires Constructed(route)
    ensures Unique(RouteNames(route))
    decreases route
  {
    forall k | 0 <= k < |route.subs| ensures Unique(RouteNames(route.subs[k])) {
      ConstructedIsUnique(route.subs[k]);
    }
    BuiltUniqueIff(route.view, route.name, route.subs);
  }

  /**
   * Constructing from constructed sub-routes succeeds exactly when the new
   * tree is duplicate-free, and what it builds is again a constructed route.
   */
  lemma ConstructionKeepsInvariant<V>(view: V, name: Name, subRoutes: seq<Route<V>>)
    requires forall k :: 0 <= k < |subRoutes| ==> Constructed(subRoutes[k])
    ensures Built(view, name, subRoutes).Success? <==> Unique(RouteNames(Route(view, name, subRoutes)))
    ensures Built(view, name, subRoutes).Success? ==> Constructed(Built(view, name, subRoutes).value)
  {
    forall k | 0 <= k < |subRoutes| ensures Unique(RouteNames(subRoutes[k])) {
      ConstructedIsUnique(subRoutes[k]);
    }
    BuiltUniqueIff(view, name, subRoutes);
  }

  // ---------------------------------------------------------------------------
  // Lookup
  // ---------------------------------------------------------------------------

  /** Some node of the list carries the given name. */
  ghost predicate HasNodeNamed<V>(nodes: seq<Route<V>>, routeName: Name) {
    exists m :: m in nodes && m.name == routeName
  }

  /** A node named so is in a concatenation exactly when it is in one of the parts. */
  lemma HasNodeNamedAppend<V>(a: seq<Route<V>>, b: seq<Route<V>>, routeName: Name)
    ensures HasNodeNamed(a + b, routeName) <==> HasNodeNamed(a, routeName) || HasNodeNamed(b, routeName)
  {
  }

  /** The search over sub-routes finds nothing exactly when every sub-route's own lookup fails. */
  lemma {:induction false} FirstSubMatchFails<V>(subs: seq<Route<V>>, routeName: Name)
    ensures FirstSubMatch(subs, routeName).None? <==>
      forall k :: 0 <= k < |subs| ==> RouteByName(subs[k], routeName).Failure?
    decreases |subs|
  {
    if subs != [] {
      FirstSubMatchFails(subs[1..], routeName);
      assert forall k :: 0 < k < |subs| ==> subs[k] == subs[1..][k - 1];
    }
  }

  /**
   * The search over sub-routes returns the result of the first sub-route, in
   * order, whose own lookup succeeds.
   */
  lemma {:induction false} FirstSubMatchAt<V>(subs: seq<Route<V>>, routeName: Name, k: nat)
    requires k < |subs| && RouteByName(subs[k], routeName).Success?
    requires forall j :: 0 <= j < k ==> RouteByName(subs[j], routeName).Failure?
    ensures FirstSubMatch(subs, routeName) == Some(RouteByName(subs[k], routeName).value)
    decreases k
  {
    if k > 0 {
      assert RouteByName(subs[0], routeName).Failure?;
      forall j | 0 <= j < k - 1 ensures RouteByName(subs[1..][j], routeName).Failure? {
        assert subs[1..][j] == subs[j + 1];
      }
      FirstSubMatchAt(subs[1..], routeName, k - 1);
    }
  }

  /**
   * Search order of `get_route_by_name`, failure: when the receiver's name does
   * not match, the lookup fails exactly when every sub-route's lookup fails.
   */
  lemma SearchFails<V>(route: Route<V>, routeName: Name)
    requires route.name != routeName
    ensures RouteByName(route, routeName).Failure? <==>
      forall k :: 0 <= k < |route.subs| ==> RouteByName(route.subs[k], routeName).Failure?
  {
    FirstSubMatchFails(route.subs, routeName);
  }

  /**
   * Search order of `get_route_by_name`, success: when the receiver's name does
   * not match, the lookup returns what the first sub-route, in iteration
   * order, whose own lookup succeeds returns.
   */
  lemma SearchOrder<V>(route: Route<V>, routeName: Name, k: nat)
    requires route.name != routeName
    requires k < |route.subs| && RouteByName(route.subs[k], routeName).Success?
    requires forall j :: 0 <= j < k ==> RouteByName(route.subs[j], routeName).Failure?
    ensures RouteByName(route, routeName) == RouteByName(route.subs[k], routeName)
  {
    FirstSubMatchAt(route.subs, routeName, k);
  }

  /**
   * Lookup finds a node exactly when some node of the subtree, the receiver
   * included, carries the requested name, and what it returns is a node of
   * the subtree.
   */
  lemma {:induction false} LookupMatchesSubtree<V>(route: Route<V>, routeName: Name)
    ensures RouteByName(route, routeName).Success? <==> HasNodeNamed(Subtree(route), routeName)
    ensures RouteByName(route, routeName).Success? ==> RouteByName(route, routeName).value in Subtree(route)
    decreases route
  {
    SubMatchMatchesSubtree(route.subs, routeName);
    assert Subtree(route) == [route] + SubtreeOf(route.subs);
    HasNodeNamedAppend([route], SubtreeOf(route.subs), routeName);
    if route.name == routeName {
      assert route in [route];
    }
  }

  /** `LookupMatchesSubtree` for the search over a list of sub-routes. */
  lemma {:induction false} SubMatchMatchesSubtree<V>(subs: seq<Route<V>>, routeName: Name)
    ensures FirstSubMatch(subs, routeName).Some? <==> HasNodeNamed(SubtreeOf(subs), routeName)
    ensures FirstSubMatch(subs, routeName).Some? ==> FirstSubMatch(subs, routeName).value in SubtreeOf(subs)
    decreases subs
  {
    if subs != [] {
      LookupMatchesSubtree(subs[0], routeName);
      SubMatchMatchesSubtree(subs[1..], routeName);
      HasNodeNamedAppend(Subtree(subs[0]), SubtreeOf(subs[1..]), routeName);
    }
  }

  /**
   * Totality and soundness: for a present name, lookup succeeds exactly when
   * the name is in the route's name list.
   */
  lemma {:induction false} LookupTotal<V>(route: Route<V>, s: string)
    requires s != ""
    ensures RouteByName(route, Some(s)).Success? <==> s in RouteNames(route)
    decreases route
  {
    SubLookupTotal(route.subs, s);
  }

  /** `LookupTotal` for the search over a list of sub-routes. */
  lemma {:induction false} SubLookupTotal<V>(subs: seq<Route<V>>, s: string)
    requires s != ""
    ensures FirstSubMatch(subs, Some(s)).Some? <==> s in SubRouteNames(subs)
    decreases subs
  {
    if subs != [] {
      LookupTotal(subs[0], s);
      SubLookupTotal(subs[1..], s);
    }
  }

  /** A node of the subtree with a present name contributes that name to the name list. */
  lemma {:induction false} SubtreeNameListed<V>(route: Route<V>, m: Route<V>)
    requires m in Subtree(route) && IsPresent(m.name)
    ensures m.name.value in RouteNames(route)
    decreases route
  {
    if m != route {
      SubtreeOfNameListed(route.subs, m);
    }
  }

  /** `SubtreeNameListed` for a list of sub-routes. */
  lemma {:induction false} SubtreeOfNameListed<V>(subs: seq<Route<V>>, m: Route<V>)
    requires m in SubtreeOf(subs) && IsPresent(m.name)
    ensures m.name.value in SubRouteNames(subs)
    decreases subs
  {
    if m in Subtree(subs[0]) {
      SubtreeNameListed(subs[0], m);
    } else {
      SubtreeOfNameListed(subs[1..], m);
    }
  }

  /** A node under the sub-routes lies in the subtree of one particular sub-route. */
  lemma {:induction false} SubtreeOfWhich<V>(subs: seq<Route<V>>, m: Route<V>) returns (k: nat)
    requires m in SubtreeOf(subs)
    ensures k < |subs| && m in Subtree(subs[k])
    decreases subs
  {
    if m in Subtree(subs[0]) {
      k := 0;
    } else {
      var k1 := SubtreeOfWhich(subs[1..], m);
      k := k1 + 1;
    }
  }

  /** The names under one sub-route are among the names under the whole list. */
  lemma {:induction false} SubRouteNamesContain<V>(subs: seq<Route<V>>, k: nat, x: string)
    requires k < |subs| && x in RouteNames(subs[k])
    ensures x in SubRouteNames(subs)
    decreases k
  {
    if k > 0 {
      assert subs[1..][k - 1] == subs[k];
      SubRouteNamesContain(subs[1..], k - 1, x);
    }
  }

  /** In a duplicate-free name list of sub-routes, each sub-route's own list is duplicate-free. */
  lemma {:induction false} UniqueSub<V>(subs: seq<Route<V>>, k: nat)
    requires k < |subs| && Unique(SubRouteNames(subs))
    ensures Unique(RouteNames(subs[k]))
    decreases k
  {
    UniqueAppend(RouteNames(subs[0]), SubRouteNames(subs[1..]));
    if k > 0 {
      assert subs[1..][k - 1] == subs[k];
      UniqueSub(subs[1..], k - 1);
    }
  }

  /** In a duplicate-free name list of sub-routes, a name under a later sub-route is under no earlier one. */
  lemma {:induction false} UniqueSiblingsDisjoint<V>(subs: seq<Route<V>>, j: nat, k: nat, x: string)
    requires j < k < |subs| && Unique(SubRouteNames(subs))
    requires x in RouteNames(subs[k])
    ensures x !in RouteNames(subs[j])
    decreases j
  {
    UniqueAppend(RouteNames(subs[0]), SubRouteNames(subs[1..]));
    assert subs[1..][k - 1] == subs[k];
    if j == 0 {
      SubRouteNamesContain(subs[1..], k - 1, x);
    } else {
      assert subs[1..][j - 1] == subs[j];
      UniqueSiblingsDisjoint(subs[1..], j - 1, k - 1, x);
    }
  }

  /**
   * In a duplicate-free tree, lookup of a present name returns exactly the
   * node of the subtree that carries it.
   */
  lemma {:induction false} LookupFindsTheNamedNode<V>(route: Route<V>, m: Route<V>)
    requires Unique(RouteNames(route))
    requires m in Subtree(route) && IsPresent(m.name)
    ensures RouteByName(route, m.name) == Success(m)
    decreases route
  {
    if m != route {
      var s := m.name.value;
      assert m in SubtreeOf(route.subs);
      var k := SubtreeOfWhich(route.subs, m);
      SubtreeNameListed(route.subs[k], m);
      SubRouteNamesContain(route.subs, k, s);
      UniqueAppend(OwnNames(route.name), SubRouteNames(route.subs));
      assert s !in OwnNames(route.name);
      UniqueSub(route.subs, k);
      LookupFindsTheNamedNode(route.subs[k], m);
      forall j | 0 <= j < k ensures RouteByName(route.subs[j], m.name).Failure? {
        LookupTotal(route.subs[j], s);
        UniqueSiblingsDisjoint(route.subs, j, k, s);
      }
      FirstSubMatchAt(route.subs, m.name, k);
    }
  }
}
