# django-routing route tree in Dafny

This project models `BaseRoute` from `django_routing/routes.py`. A route is a
node of a routing tree. It holds an opaque view, an optional name and an
ordered list of sub-routes.

- The constructor adds the given sub-routes one at a time.
- Each candidate sub-route is validated before it is appended. It is rejected
  with `DuplicatedRouteNameError` when any name in its subtree is already used
  by the route being built. "Used" means the route's own name, or a name under
  a sub-route accepted earlier.
- `_get_route_names` lists the names of the subtree in preorder. It skips
  names that are `None` or empty.
- `get_route_by_name` returns the receiver when its name matches. Otherwise it
  searches the sub-routes depth-first, in order. When nothing matches it raises
  `NonExistingRouteError`.

A route's name and view never change after construction. Its sub-route list
only grows while the constructor runs. So a route is the immutable value
`Route(view, name, subs)`. The view is a type parameter `V` the model never
looks into. `get_name`, `get_view` and `__iter__` are the fields `name`,
`view` and `subs` of that value.

Files:

- `wrappers.dfy`: module `Wrappers`. `Option` models Python's `None`.
  `Result` and `Outcome` model a return value or a raised exception.
- `routes.dfy`: module `Routes`. The datatypes, and the specification
  functions for each operation.
- `base_route.dfy`: module `BaseRoute`. The operations written as loops, the
  way the Python code runs them. Each method is proved to compute its
  specification function.
- `route_properties.dfy`: module `RouteProperties`. Lemmas about construction,
  the uniqueness invariant and lookup.

A name is `Option<string>`. `None` is Python's `None`. `Some("")` is the empty
string. A name takes part in the name list and in uniqueness only when it is
truthy (`IsPresent`). Lookup, however, compares raw names with `==`. So
looking up `None` or `""` can still find a node whose name is `None` or `""`.
The model keeps that behaviour.

Some behaviour is described for the library but has no code in `routes.py`.
This includes the specialization algorithm, structural equality and
uniqueness of unnamed siblings. The model follows the code. So the model
accepts two structurally equal unnamed siblings, and `create_specialization`
returns the receiver.

## Model

| member | source | states |
|---|---|---|
| `Routes.IsPresent` | django_routing/routes.py:115 | The truthiness test: a name counts exactly when it is neither `None` nor `''` |
| `Routes.OwnNames` | django_routing/routes.py:114-116 | The route's own contribution holds at most one name, and a string is in it exactly when it is the route's name and is not empty |
| `Routes.RouteNames` | django_routing/routes.py:111-122 | The name list never contains `''` (nor `None`, which is not a string), and a route with a present name lists it first, before any name under its sub-routes |
| `Routes.SubRouteNames` | django_routing/routes.py:118-121 | The names gathered from the sub-routes never contain `''`: empty names are skipped at every level of the tree |
| `Routes.FirstDuplicate` | django_routing/routes.py:105-109 | Finds nothing exactly when no candidate is among the current names. Otherwise it returns a current name that is the first candidate present, so every earlier candidate is absent |
| `Routes.SubRouteNameCheck` | django_routing/routes.py:101-109 | Passes exactly when the candidate's names and the route's names are disjoint. Otherwise it fails with `DuplicatedRouteNameError`, naming a name found in both lists |
| `Routes.WithSubRoute` | django_routing/routes.py:97-99 | Succeeds exactly when the candidate's names avoid the route's names. Then the result is the same route with the candidate appended last. Otherwise the error is `DuplicatedRouteNameError`, naming a name that occurs in both |
| `Routes.Built` | django_routing/routes.py:41-49 | A successful construction returns `Route(view, name, subRoutes)`. So `get_name` and `get_view` return the arguments, and iteration yields exactly the given sub-routes in the given order. A failed construction raises only `DuplicatedRouteNameError` |
| `Routes.RouteByName` | django_routing/routes.py:64-77 | A receiver whose name equals the requested one is itself the result. Any returned route carries the requested name. A failure is `NonExistingRouteError`, carrying the receiver and the requested name |
| `Routes.FirstSubMatch` | django_routing/routes.py:79-89 | A route found among the sub-routes carries the requested name |
| `Routes.CreateSpecialization` | django_routing/routes.py:124-130 | Ignores all its arguments and returns the receiver: same name, same view, same sub-routes |
| `RouteProperties.SubRouteNamesAppend` | django_routing/routes.py:118-121 | The names under a concatenation of sub-route lists are the concatenation of their names |
| `RouteProperties.SubRouteNamesSnoc` | django_routing/routes.py:118-121 | Taking one more sub-route appends exactly that sub-route's names to the list |
| `RouteProperties.SubRouteNamesExtend` | django_routing/routes.py:118-120 | One iteration of the loop: extending the accumulated list by sub-route `i`'s names gives the own name followed by the names under the first `i + 1` sub-routes |
| `RouteProperties.RouteNamesSnoc` | django_routing/routes.py:111-122 | The names of a route with one more sub-route are its previous names followed by the new sub-route's names |
| `RouteProperties.SubRouteNamesContain` | django_routing/routes.py:118-121 | Every name under one sub-route is in the names gathered from the whole sub-route list |
| `RouteProperties.BuiltSnoc` | django_routing/routes.py:47-49 | When the first `i` sub-routes built a route, construction over the first `i + 1` is exactly adding sub-route `i` to that route |
| `RouteProperties.BuiltFailureStep` | django_routing/routes.py:48-49 | When the sub-routes before the last one already raised, adding the last one is never attempted: the outcome is that same failure |
| `RouteProperties.BuiltFailurePersists` | django_routing/routes.py:47-49 | Once a prefix of the sub-routes is rejected, construction over the full list fails with that same error. The first raise aborts the loop |
| `RouteProperties.BuiltStep` | django_routing/routes.py:47-49 | Construction over `n + 1` sub-routes succeeds exactly when construction over the first `n` succeeds and the last one's names avoid all names present before it |
| `RouteProperties.BuiltSucceedsIff` | django_routing/routes.py:101-109 | Construction succeeds exactly when every sub-route fits after the earlier ones (`AllFit`, `FitsAfter`): its names avoid the parent's own present name and all names under the earlier sub-routes |
| `RouteProperties.BuiltFailureStop` | django_routing/routes.py:47-49 | A failed construction stops at some index `k` (`StopsAt`): the first `k` sub-routes built `Route(view, name, subRoutes[..k])`, and the whole outcome is adding sub-route `k` to that route, which fails |
| `RouteProperties.StopsAtExtend` | django_routing/routes.py:47-49 | Where construction over all but the last sub-route stopped, construction over all of them stops at the same index |
| `RouteProperties.BuiltFailureNamesDuplicate` | django_routing/routes.py:105-109 | A failed construction stops at some index `k` (`StopsAt`). The error names a name that occurs under sub-route `k` and also among the parent's own present name and the names under the first `k` sub-routes |
| `RouteProperties.UniqueAppend` | django_routing/routes.py:111-122 | A concatenated name list is duplicate-free exactly when both parts are duplicate-free and the parts are disjoint |
| `RouteProperties.BuiltUniqueIff` | django_routing/routes.py:101-122 | When each given sub-route is duplicate-free, construction succeeds exactly when the whole new tree's name list is duplicate-free. This covers sibling, ancestor and cousin duplicates, and nothing else is rejected |
| `RouteProperties.UniqueSub` | django_routing/routes.py:111-122 | When the names under a sub-route list are duplicate-free, so are the names of each single sub-route |
| `RouteProperties.UniqueSiblingsDisjoint` | django_routing/routes.py:111-122 | When the names under a sub-route list are duplicate-free, a name under a later sub-route occurs under no earlier one |
| `RouteProperties.FirstDuplicateIsFirstFound` | django_routing/routes.py:105-109 | Scanning candidates in order, the first one found among the current names is the name the validation reports |
| `RouteProperties.ConstructedIsUnique` | django_routing/routes.py:41-49 | Uniqueness invariant: a route built through the constructor, with every sub-route also built through it, never holds a duplicate present name |
| `RouteProperties.ConstructionKeepsInvariant` | django_routing/routes.py:97-109 | Building from constructed sub-routes succeeds exactly when the new tree is duplicate-free, and the result is again a constructed route |
| `RouteProperties.FirstSubMatchFails` | django_routing/routes.py:79-89 | The sub-route search finds nothing exactly when every sub-route's own lookup fails |
| `RouteProperties.FirstSubMatchAt` | django_routing/routes.py:79-89 | When sub-route `k` is the first, in order, whose lookup succeeds, the search returns exactly what that lookup returns: the failures before it are skipped and nothing after it is tried |
| `RouteProperties.SearchFails` | django_routing/routes.py:64-89 | When the receiver's name does not match, lookup raises `NonExistingRouteError` exactly when every sub-route's lookup fails |
| `RouteProperties.SearchOrder` | django_routing/routes.py:64-89 | When the receiver's name does not match, lookup returns the result of the first sub-route, in iteration order, whose lookup succeeds |
| `RouteProperties.LookupMatchesSubtree` | django_routing/routes.py:64-89 | Lookup succeeds exactly when some node of the subtree, the receiver included, carries the requested name (`HasNodeNamed`). The route it returns is a node of that subtree |
| `RouteProperties.SubMatchMatchesSubtree` | django_routing/routes.py:79-89 | The sub-route search succeeds exactly when some node under the sub-routes carries the name. What it returns is one of those nodes |
| `RouteProperties.LookupTotal` | django_routing/routes.py:64-89 | Totality and soundness: for a non-empty name, lookup succeeds exactly when the name is in the route's name list |
| `RouteProperties.SubLookupTotal` | django_routing/routes.py:79-89 | For a non-empty name, the sub-route search succeeds exactly when the name is in the sub-routes' names |
| `RouteProperties.SubtreeNameListed` | django_routing/routes.py:111-122 | Every node of the subtree with a present name contributes that name to the name list |
| `RouteProperties.SubtreeOfNameListed` | django_routing/routes.py:118-121 | Every node under the sub-routes with a present name contributes that name to the sub-routes' names |
| `RouteProperties.LookupFindsTheNamedNode` | django_routing/routes.py:64-89 | In a duplicate-free tree, looking up a node's present name returns exactly that node |
| `BaseRoute.NewRoute` | django_routing/routes.py:41-49 | The constructor loop computes `Built`. On success the route holds the given view, the given name and exactly the given sub-routes in order |
| `BaseRoute.AddSubRoute` | django_routing/routes.py:97-99 | Validating and then appending computes `WithSubRoute` |
| `BaseRoute.ValidateNewSubRouteName` | django_routing/routes.py:101-109 | The loop over the candidate's names, which stops at the first one already present, computes `SubRouteNameCheck` |
| `BaseRoute.GetRouteNames` | django_routing/routes.py:111-122 | The accumulating loop computes `RouteNames`: the own present name, then each sub-route's names in order |
| `BaseRoute.GetRouteByName` | django_routing/routes.py:64-77 | The self check, the sub-route search and the raise compute `RouteByName` |
| `BaseRoute.GetSubRouteByName` | django_routing/routes.py:79-89 | The loop that skips failing sub-routes and breaks at the first success computes `FirstSubMatch` |

## Left out

- Object identity: a route is a value, so identity is not modelled. `BaseRoute` defines no `__eq__`, so Python compares routes by identity. In the model, two equal routes cannot be told apart, and a route used under two parents looks the same as two equal copies.
- RouteProperties.LookupMatchesSubtree: "a node of the subtree" means a value equal to one of the subtree's nodes. It does not mean the same Python object.
- In-place mutation of `_sub_routes`: `_add_sub_route` appends to the list in place. The model returns a new route value instead. On a failed validation nothing is appended, so the caller's route stays as it was.
- `__repr__` (django_routing/routes.py:51-59) and the message strings are not modelled. `NonExistingRouteError` carries the searched route and the requested name, which the message formats. `DuplicatedRouteNameError` carries the duplicated name.
- Names that are not strings or `None`: Python allows any object, with its own truthiness and `==`. The model only has `None` and strings.
- The truthiness test `if not matching_route` holds only for `None`, because `BaseRoute` defines neither `__len__` nor `__bool__`. The model tests for `None` directly.
- The `ABCMeta` metaclass and the `RoutingException` base class are not modelled. Only the two raised error kinds are.
- `InvalidSpecializationError` is never raised in `routes.py`, and the specialization algorithm has no code there. `create_specialization` is a stub that returns `self`, and it is modelled as exactly that.
- Structural equality, the `sub_routes` collection object, the `Route` subclass, `DuplicatedRouteError` and a module-level `get_route_by_name` have no code in `routes.py`. Only the tests use them.
- `django_routing/_utils.py` is not part of this model. It only calls an arbitrary object's `__eq__`, and `routes.py` does not use it. `setup.py` (packaging) and `tests/assertions.py` (test helpers) are not part of it either.
