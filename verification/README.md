# aygabtu scope actor, in Dafny

aygabtu ("all your GET are belong to us") generates RSpec examples for the
routes of a Rails application. A scope narrows the routing table down through
a chain of filters. A terminal action then declares what happens to every
route the scope matches:

- `visit_with` / `visit` generate an example that visits the route;
- `pend` generates a pending example;
- `ignore` / `covered!` mark the route as deliberately left alone.

This project models three pieces of that system.

- **The scope actor** (`ScopeActor`, `Marks`, `Segments`) does the following
  for each action:
  - It matches every segment of the scope against the routing table once.
  - It registers one failing "matched nothing" example for each segment that
    matched nothing.
  - It walks the (segment, route) pairs in segment-then-route order. Each
    route gets a mark of the action's kind, and each visit or pend gets an
    example.
  - A route that already carries a mark the new action may not join makes the
    actor raise. The error names the route, the earlier action and that
    action's points of call. Every mark and example made before the raise
    stays in place.
- **The route wrapper** (`RouteWrapper`) provides:
  - the GET test;
  - a controller's namespace, memoised, and its basename;
  - the two description strings used in examples and error messages.
- **`Scope::VisitingWith`** (`VisitingWith`) derives a new scope whose visiting
  data is the receiver's merged with the argument.

Ruby's shared mutable objects become values:

- Every route's mark registry is a `Registry` indexed like the route list.
- The examples requested from the generators form a log of `Event`s.
- An exception becomes `Outcome.Raised`, which carries the state at the moment
  of the raise. Nothing is rolled back.
- A scope segment is an opaque predicate over a route and that route's current
  registry. This lets a `remaining` segment depend on earlier marks.

The main results:

- Marks only ever grow.
- Every route's registry stays `Consistent`:
  - at most one ignore or pend in all;
  - never a visit beside an ignore or a pend;
  - `touched` exactly when some mark exists.
- An action that passes the argument check completes exactly when its
  matches allow it (an `ignore` whose reason is not a String always raises):
  - a visit needs no ignore or pend on any matched route;
  - an ignore or pend needs every matched route unmarked and matched by one
    segment only.
- A completed action has a precise effect:
  - the log holds the diagnostics, then one event per pair for a visit or a
    pend, and none for an ignore;
  - every example carries the scope's visiting data merged with the argument;
  - every route gains one mark of the action's kind per pair naming it.
- A raised action stops at the first refused pair. The pairs before it stay
  marked, and on a consistent registry the error names the one kind of mark
  the route carries.
- Namespace and basename split a well-formed controller identifier at its last
  slash and join back to it.
- The description strings can be parsed back to the route's identity.

Controller identifiers are well formed when they are non-empty names joined by
single slashes.

Two facts about the code shape the model:

- There are three mark kinds: visit, ignore and pend. `covered!` records an
  ignore.
- `get?` is a substring test on the verb string.

## Model

| member | source | states |
|---|---|---|
| `RouteWrapper.IsGet` | lib/aygabtu/route_wrapper.rb:11-13 | true exactly when "GET" occurs somewhere in the verb specification |
| `RouteWrapper.ControllerNamespace` | lib/aygabtu/route_wrapper.rb:24-31 | fills the memo with the value it returns; a filled memo is returned unchanged; from a sound memo the value is the controller's namespace |
| `RouteWrapper.NamespaceMemoStable` | lib/aygabtu/route_wrapper.rb:24-25 | a second call returns the first call's answer and leaves the wrapper as the first call left it |
| `RouteWrapper.NamespaceNeverEmpty` | lib/aygabtu/route_wrapper.rb:26-29 | no controller means no namespace, and a namespace is never the empty string |
| `RouteWrapper.SplitController` | lib/aygabtu/route_wrapper.rb:24-35 | for a well-formed controller: the basename is a plain name; there is no namespace iff there is no slash, and then the basename is the whole controller; otherwise the namespace is well formed and namespace + "/" + basename is the controller |
| `RouteWrapper.JoinController` | lib/aygabtu/route_wrapper.rb:24-35 | joining a well-formed namespace and a plain name with "/" gives a well-formed controller whose namespace and basename are the two parts again |
| `RouteWrapper.NamespaceExamples` | lib/aygabtu/route_wrapper.rb:28-29 | "admin/widgets" has namespace "admin" and basename "widgets"; "a/b/c" has namespace "a/b"; "widgets" has no namespace and is its own basename |
| `RouteWrapper.ControllerBasename` | lib/aygabtu/route_wrapper.rb:33-35 | absent exactly when the controller is; otherwise the longest slash-free suffix of the controller: all of it, or the part right after a '/' |
| `RouteWrapper.LastSlashAt` | lib/aygabtu/route_wrapper.rb:28 | a position holding a '/' with no '/' after it is the last slash the split uses |
| `RouteWrapper.LastSlashNone` | lib/aygabtu/route_wrapper.rb:28 | a string without '/' has no last slash, so its namespace is absent |
| `RouteWrapper.Inspect` | lib/aygabtu/route_wrapper.rb:50-56 | the description parses back to the route's name when it has one, else to its path |
| `RouteWrapper.InspectInjective` | lib/aygabtu/route_wrapper.rb:50-56 | routes with equal descriptions have the same identity |
| `RouteWrapper.ExampleMessage` | lib/aygabtu/route_wrapper.rb:58-60 | starts with the message prefix, and the rest parses back to the route's identity |
| `VisitingWith.Merge` | lib/aygabtu/scope/visiting_with.rb:5 | the keys are the union of both sides; the argument's values win; the receiver's other values are kept |
| `VisitingWith.MergeIdentity` | lib/aygabtu/scope/visiting_with.rb:5 | merging with no data on either side changes nothing |
| `VisitingWith.MergeAssociative` | lib/aygabtu/scope/visiting_with.rb:5 | merging is associative |
| `VisitingWith.MergeAbsorbs` | lib/aygabtu/scope_actor.rb:20 | merging the scope's data in again leaves merge(scope data, argument) unchanged, so the per-route re-merge of the visit loop is harmless |
| `VisitingWith.VisitingWith` | lib/aygabtu/scope/visiting_with.rb:4-8 | same class and other entries; the visiting entry is present; its keys are the union; the argument wins; the receiver's other values are kept |
| `VisitingWith.VisitingWithNothing` | lib/aygabtu/scope/visiting_with.rb:4-8 | passing no data keeps the visiting data, and a scope that has the entry comes back identical |
| `VisitingWith.VisitingWithChain` | lib/aygabtu/scope/visiting_with.rb:4-8 | two calls in a row equal one call with the two arguments merged |
| `Marks.ActionValidRule` | lib/aygabtu/scope_actor.rb:73-77 | a visit is allowed iff the route has no ignore and no pend; an ignore or a pend iff the route has no mark at all |
| `Marks.FirstUsed` | lib/aygabtu/scope_actor.rb:65-67 | names a kind with points of call, and no kind before it in the search order has any |
| `Marks.MarkRoute` | lib/aygabtu/scope_actor.rb:60-71 | accepted iff the action is valid; an accepted mark touches the route, appends the point of call to that kind only and leaves the other kinds alone; a refusal reports a kind with non-empty points of call, the first such kind in the search order |
| `Marks.MarkRoutePreservesConsistent` | lib/aygabtu/scope_actor.rb:60-77 | marking keeps a route consistent, and a refusal on a consistent route names the one kind recorded |
| `Marks.ConsistentIsExclusive` | lib/aygabtu/scope_actor.rb:73-77 | a consistent route never carries two different kinds of mark |
| `Marks.MarkRouteGrows` | lib/aygabtu/scope_actor.rb:62-63 | an accepted mark only extends the route's lists and keeps it touched |
| `Marks.GrowsKeepsUsed` | lib/aygabtu/scope_actor.rb:62-63 | once marked or touched, a route stays so |
| `Marks.FreshIsConsistent` | lib/aygabtu/scope_actor.rb:73-77 | a registry of unmarked routes is consistent |
| `Segments.MatchingRoutes` | lib/aygabtu/scope_actor.rb:96 | exactly the routes the segment matches, each once, in route order |
| `Segments.SegmentRoutes` | lib/aygabtu/scope_actor.rb:93-100 | one list of matching routes per segment, in segment order |
| `Segments.Pairs` | lib/aygabtu/scope_actor.rb:79-83 | every pair names a segment and one of its routes; every such (segment, route) occurs; pairs are in segment-then-route order |
| `ScopeActor.NoMatchEvents` | lib/aygabtu/scope_actor.rb:85-91 | one diagnostic tagged with the action for exactly the segments that matched nothing, in segment order |
| `ScopeActor.MarkPass` | lib/aygabtu/scope_actor.rb:14-56 | keeps the registry size; a raise is always a conflict on a valid route |
| `ScopeActor.MarkPassGrows` | lib/aygabtu/scope_actor.rb:60-63 | whether or not it completes, the marking loop only extends registries and keeps them consistent |
| `ScopeActor.MarkPassLog` | lib/aygabtu/scope_actor.rb:14-56 | the marking loop only appends to the log, and never a diagnostic |
| `ScopeActor.CarriedSettles` | lib/aygabtu/scope_actor.rb:20 | after any route the visit loop's re-merged variable equals merge(scope data, argument), so each event is the one that data gives |
| `ScopeActor.MarkPassCompletedLog` | lib/aygabtu/scope_actor.rb:14-56 | a completed loop logged one event per pair for a visit or a pend and none for an ignore, every example with merge(scope data, argument) |
| `ScopeActor.MarkPassCompletedMarks` | lib/aygabtu/scope_actor.rb:60-63 | after a completed loop each route carries one more mark of the action's kind per pair naming it |
| `ScopeActor.MarkPassRaised` | lib/aygabtu/scope_actor.rb:64-70 | a raised loop stopped at some pair k: its state is the completed state of the pairs before k, and the error reports pair k's refusal in that state |
| `ScopeActor.EmittedShape` | lib/aygabtu/scope_actor.rb:14-56 | per pair: an example with the data for a visit, a pending example with the reason for a pend, nothing for an ignore |
| `ScopeActor.Matches` | lib/aygabtu/scope_actor.rb:93-97 | entry j is exactly segment j's matching routes against the registry as the action found it; their pairs all name valid routes |
| `ScopeActor.Perform` | lib/aygabtu/scope_actor.rb:14-56 | registries grow and stay consistent; a non-String ignore reason raises before anything else; the diagnostics come first and none follow; a completed action's log is exactly the diagnostics, then one event per pair for a visit or a pend and none for an ignore, and it adds one mark per pair |
| `ScopeActor.CountPairs` | lib/aygabtu/scope_actor.rb:79-83 | a route occurs among the pairs iff some segment matched it |
| `ScopeActor.MatchedRoutesMarked` | lib/aygabtu/scope_actor.rb:60-63 | after a completed action every matched route is touched and carries the action's mark; every other route is exactly as before |
| `ScopeActor.ExclusiveActionCompleted` | lib/aygabtu/scope_actor.rb:73-77 | on a consistent registry a completed ignore or pend met each route at most once, and only routes that carried no mark |
| `ScopeActor.MarkPassVisitCompletes` | lib/aygabtu/scope_actor.rb:75 | a visit loop completes iff no route among the pairs carries an ignore or a pend |
| `ScopeActor.MarkPassExclusiveCompletes` | lib/aygabtu/scope_actor.rb:73-77 | an ignore or pend loop completes iff every route among the pairs is unmarked and no route occurs twice |
| `ScopeActor.PairsVisitConditions` | lib/aygabtu/scope_actor.rb:79-83 | a condition holds of every pair's route iff it holds of every route some segment matched |
| `ScopeActor.PairsDistinct` | lib/aygabtu/scope_actor.rb:79-83 | no route occurs in two pairs iff no route is matched by two segments |
| `ScopeActor.PairsConditions` | lib/aygabtu/scope_actor.rb:79-83 | the completion conditions on pairs equal the same conditions on the segments' matches |
| `ScopeActor.VisitCompletes` | lib/aygabtu/scope_actor.rb:14-25 | a visit completes iff no matched route carries an ignore or a pend |
| `ScopeActor.ExclusiveCompletes` | lib/aygabtu/scope_actor.rb:31-56 | with a String reason, an ignore or a pend completes iff every matched route is unmarked and matched by one segment only |
| `ScopeActor.MarkPassNoRollback` | lib/aygabtu/scope_actor.rb:60-70 | a raised loop names the refused pair's route; every earlier pair's route holds a mark of the action's kind |
| `ScopeActor.NoRollback` | lib/aygabtu/scope_actor.rb:60-70 | a raised action: routes marked earlier in the same call keep their marks, and the refused route is the one reported |
| `ScopeActor.MarkPassConflict` | lib/aygabtu/scope_actor.rb:64-69 | on a consistent registry a raised loop reports the route, its description, and the one recorded kind with all its points of call |
| `ScopeActor.ConflictNamesPriorAction` | lib/aygabtu/scope_actor.rb:64-69 | on a consistent registry a conflict reports the route's description and its one earlier kind with all its points of call; a refused visit names an ignore or a pend |
| `ScopeActor.CompletedLog` | lib/aygabtu/scope_actor.rb:14-56 | a completed action logged the diagnostics, then per pair an example with merged data (visit) or a pending example with the reason (pend), nothing more for an ignore |
| `ScopeActor.CompletedMarks` | lib/aygabtu/scope_actor.rb:60-63 | a completed action added one mark of its kind per pair to each route, and nothing of other kinds |
| `ScopeActor.VisitWith` | lib/aygabtu/scope_actor.rb:14-25 | completes iff no matched route has an ignore or pend; diagnostics first, then one example per pair with merge(scope data, argument); one visit mark per pair; other kinds untouched; a raise is a visit conflict |
| `ScopeActor.VisitAll` | lib/aygabtu/scope_actor.rb:27-29 | `visit_with({})`: completes iff no matched route has an ignore or pend; diagnostics first, then one example per pair carrying exactly the scope's visiting data; one visit mark per pair; other kinds untouched; consistency kept |
| `ScopeActor.IgnoreAll` | lib/aygabtu/scope_actor.rb:31-41 | a non-String reason raises with the state untouched; otherwise completes iff the matches allow it, logs only the diagnostics, and adds one ignore mark per pair |
| `ScopeActor.Covered` | lib/aygabtu/scope_actor.rb:43-45 | an ignore with the fixed reason: never fails the argument check; completes iff the matches allow it; logs only the diagnostics; one ignore mark per pair; other kinds untouched; consistency kept |
| `ScopeActor.PendAll` | lib/aygabtu/scope_actor.rb:47-56 | completes iff the matches allow it; diagnostics, then one pending example with the unchecked reason per pair; one pend mark per pair |
| `ScopeActor.Dispatch` | lib/aygabtu/scope_actor.rb:10-56 | running a named action keeps registries growing and consistent; a conflict reports the kind that action records; the only other raise is `ignore` given a non-String |
| `ScopeActor.VisitDispatchesToVisitWith` | lib/aygabtu/scope_actor.rb:27-29 | `visit` behaves as `visit_with` given no data |
| `ScopeActor.CoveredDispatchesToIgnore` | lib/aygabtu/scope_actor.rb:43-45 | `covered!` behaves as `ignore` with the fixed reason |
| `ScopeActor.ActionsComplete` | lib/aygabtu/scope_actor.rb:10-12 | every call goes by a listed name, every listed name has a call, and no name is listed twice |
| `Scenarios.RemainingAfterAction` | spec/matching_routes_spec.rb:97-103 | starting from untouched routes, a `remaining` block after a completed action sees exactly the routes no segment of that action matched |
| `Scenarios.BogusMatches` | spec/example_spec.rb:12-17 | the `action(:action)` scope matches the one route: a single pair and no diagnostic |
| `Scenarios.BogusVisitScenario` | spec/example_spec.rb:12-58 | the visit completes, registers one example with both segment values, marks the route, and leaves nothing for `remaining` |
| `Scenarios.BogusIgnore` | lib/aygabtu/scope_actor.rb:31-41 | ignoring the one route completes, records one ignore mark and no visit mark |
| `Scenarios.VisitAfterIgnore` | lib/aygabtu/scope_actor.rb:64-69 | on the one route, ignored once and never visited, a visit raises a conflict naming that ignore and changes no registry |
| `Scenarios.IgnoreThenVisitScenario` | lib/aygabtu/scope_actor.rb:64-69 | visiting an ignored route raises a conflict naming the ignore and its point of call, and changes no registry |
| `Scenarios.TwiceRemainingMatches` | lib/aygabtu/scope_actor.rb:93-97 | two `remaining` segments over one untouched route both match it |
| `Scenarios.MemoisedVisitScenario` | lib/aygabtu/scope_actor.rb:93-97 | a visit over the two segments completes with two examples and two visit marks: the second segment's matches were fixed before the first mark |
| `Scenarios.MemoisedIgnoreScenario` | lib/aygabtu/scope_actor.rb:93-97 | an ignore over the two segments raises at the second pair, naming the ignore the first pair just made, and that mark stays |

## Left out

- Capturing the point of call (`PointOfCall.point_of_call`) inspects the Ruby call stack. Here it is a parameter of every action.
- Registering examples with RSpec (the `Generator` class) is not part of this model. Each request to a generator becomes an `Event` in the log, identified by segment index.
- How a scope splits into segments, and what each segment's `matches_route?` tests, is scope-composition code outside this model. A segment is an opaque predicate.
- The scenarios assume two segment definitions of their own: `Scenarios.Remaining` (a `remaining` block matches the routes not yet touched) and `Scenarios.ActionScope` (an `action(:action)` scope compares the route's action name). The scope code that builds these segments is outside this model.
- `segments_generators_routes` memoises per scope actor, and each action runs the diagnostic pass and then the marking pass over one memo. The model computes the matches once per action, from the registry as the action found it. A second action on the same actor object would reuse the first action's matches; that case is not modelled.
- The conflict search follows the insertion order of the Ruby hash `route.marks`. The model searches in the order visit, ignore, pend. On a consistent registry exactly one kind is recorded when a mark is refused, so the result is the same (`ConflictNamesPriorAction`).
- The conflict message text is reduced to its parts: the route's `inspect`, the requested and previous kinds, and the points of call. Their printed form is not modelled.
- `RouteWrapper.ControllerNamespace` and `RouteWrapper.ControllerBasename` split at the last '/'. This agrees with Ruby's `Pathname#dirname` / `#basename` on well-formed controller identifiers none of whose names is `.` or `..`. The model assumes controller identifiers of the well-formed shape. It does not model the `Pathname` treatment of a leading slash (`"/a/b"` has namespace `"a"` in the code but `"/a"` here), of a leading `.` or `..` name (`"../a"` has no namespace in the code but `".."` here, and `"./a/b"` has namespace `"a"` there but `"./a"` here; the basename agrees), nor of trailing or doubled slashes.
- `RouteWrapper.Inspect` treats the printed path regexp as an opaque string. Printing a `Regexp` is foreign code.
- `required_parts`, `controller`, `action`, `matches_string?`, `generate_url_with_proper_parameters` and `really_required_keys` only forward to the routing library's route object, which is foreign code. The first three are fields of `Route`. The others are not modelled.
- A route's verb is a string. Its regexp form in the routing library is not modelled.
- `inspect_data` and `factory_method` of `Scope::VisitingWith` only feed the debugging output and the DSL's method table. They are not modelled.
- The other entries of a scope's data are opaque tokens. Only the `:visiting_data` entry is modelled.
- A missing `:visiting_data` entry is read as no visiting data.
- Ruby's dynamic types are reduced to what the code tests. An `ignore` reason is a String or something else. Visiting values are literals or deferred method names.

