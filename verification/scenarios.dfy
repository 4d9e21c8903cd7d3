/**
  Whole-call properties and a worked scenario of the scope actor.

  The scenarios assume two segments of their own: a `remaining` block is taken
  to match every route not yet touched, and an `action(:action)` scope to
  compare the route's action name. Under that assumption, what `remaining`
  sees after a terminal action rests on the `touched` flags the scope actor
  sets.
*/
module Scenarios {
  import opened Wrappers
  import opened RouteWrapper
  import opened VisitingWith
  import opened Marks
  import opened Segments
  import opened ScopeActor

  /** The segment assumed for a `remaining` block: routes not touched so far. */
  function Remaining(): Segment {
    Segment((r: Route, rm: RouteMarks) => !rm.touched)
  }

  /** On a registry where nothing is touched yet, a `remaining` block after a
      completed action sees exactly the routes no segment of that action
      matched. */
  lemma RemainingAfterAction(routes: seq<Route>, segments: seq<Segment>, scope: Scope,
                             t: Intent, poc: PointOfCall, st: State)
    requires |st.registry| == |routes|
    requires forall i :: 0 <= i < |routes| ==> !st.registry[i].touched
    ensures var out := Perform(routes, segments, scope, t, poc, st);
            var m := Matches(routes, segments, st);
            out.Completed? ==>
              forall i :: i in MatchingRoutes(Remaining(), routes, out.state.registry) <==>
                0 <= i < |routes| && !(exists j :: 0 <= j < |m| && i in m[j])
  {
    MatchedRoutesMarked(routes, segments, scope, t, poc, st);
  }

  // ---------------------------------------------------------------------------
  // One GET route 'bogus/:segment1/:segment2' to bogus#action, an `action(:action)`
  // scope calling visit_with(segment1: 'fixed', segment2: :dynamic_segment), and
  // a `remaining` block afterwards.
  // ---------------------------------------------------------------------------

  function BogusRoutes(): seq<Route> {
    [Route("GET", ["segment1", "segment2"], Some("bogus"), Some("action"), None,
           "/bogus/:segment1/:segment2")]
  }

  /** The segment assumed for `action(:action)`: one test of the route's action. */
  function ActionScope(): seq<Segment> {
    [Segment((r: Route, rm: RouteMarks) => r.action == Some("action"))]
  }

  /** The point of call of the scenarios' first action. */
  const Here := PointOfCall(0)

  function BogusData(): VisitingData {
    map["segment1" := Literal("fixed"), "segment2" := Deferred("dynamic_segment")]
  }

  /** On any registry of the one route, the `action(:action)` scope matches
      that route, yields the single pair (0, 0), and no diagnostic. */
  lemma BogusMatches(st: State)
    requires |st.registry| == 1
    ensures Matches(BogusRoutes(), ActionScope(), st) == [[0]]
    ensures Pairs([[0]]) == [(0, 0)]
    ensures NoMatchEvents([[0]], Visit) == [] && NoMatchEvents([[0]], Ignore) == []
  {
    var routes, segments := BogusRoutes(), ActionScope();
    var m := Matches(routes, segments, st);
    assert segments[0].matchesRoute(routes[0], st.registry[0]);
    assert SelectFrom(segments[0], routes, st.registry, 1) == [];
    assert m[0] == MatchingRoutes(segments[0], routes, st.registry) == [0];
    assert PairsFrom([[0]], 1) == [];
    assert NoMatchFrom([[0]], Visit, 1) == [] && NoMatchFrom([[0]], Ignore, 1) == [];
  }

  /** The visit pass over the single pair (0, 0) of one fresh route logs one
      example with the pass's data, marks the route and touches it. */
  lemma BogusVisitPass()
    ensures var out := MarkPass(BogusRoutes(), VisitIntent(BogusData()), map[], [(0, 0)], BogusData(),
                                Here, State(Fresh(1), []));
            && out.Completed?
            && out.state.log == [Example(0, 0, BogusData())]
            && Calls(out.state.registry[0].marks, Visit) == [Here]
            && out.state.registry[0].touched
  {
    var routes, t, d := BogusRoutes(), VisitIntent(BogusData()), State(Fresh(1), []);
    MergeIdentity(BogusData());
    var pairs: seq<(nat, nat)> := [(0, 0)];
    assert RoutesBelow(pairs, 1);
    var r0 := MarkRoute(d.registry[0], Visit, Here);
    ActionValidRule(d.registry[0].marks, Visit);
    MarkPassStep(routes, t, map[], pairs, BogusData(), Here, d);
    assert pairs[1..] == [];
  }

  /** The visit completes, registers one example carrying both segment values
      and no diagnostic, marks the route, and leaves nothing for `remaining`. */
  lemma BogusVisitScenario()
    ensures var routes := BogusRoutes();
            var out := VisitWith(routes, ActionScope(), Scope(0, None, map[]), BogusData(),
                                 Here, State(Fresh(1), []));
            && out.Completed?
            && out.state.log == [Example(0, 0, BogusData())]
            && Calls(out.state.registry[0].marks, Visit) == [Here]
            && out.state.registry[0].touched
            && MatchingRoutes(Remaining(), routes, out.state.registry) == []
  {
    var routes, segments, scope := BogusRoutes(), ActionScope(), Scope(0, None, map[]);
    var st := State(Fresh(1), []);
    var t := VisitIntent(BogusData());
    BogusMatches(st);
    PerformIsMarkPass(routes, segments, scope, t, Here, st);
    assert Diagnosed(routes, segments, t, st) == st;
    BogusVisitPass();
    var out := MarkPass(routes, t, map[], [(0, 0)], BogusData(), Here, st);
    assert VisitWith(routes, segments, scope, BogusData(), Here, st) == out;
    assert SelectFrom(Remaining(), routes, out.state.registry, 1) == [];
  }

  /** The registry after ignoring the one route at point of call 1. */
  lemma BogusIgnore()
    ensures var first := IgnoreAll(BogusRoutes(), ActionScope(), Scope(0, None, map[]),
                                   StringArg("later"), PointOfCall(1), State(Fresh(1), []));
            && first.Completed?
            && Calls(first.state.registry[0].marks, Ignore) == [PointOfCall(1)]
            && Calls(first.state.registry[0].marks, Visit) == []
  {
    var st := State(Fresh(1), []);
    BogusMatches(st);
    assert ExclusiveUnblocked([[0]], st.registry);
    assert Count(0, [(0, 0)]) == 1;
    assert Repeat(PointOfCall(1), 1) == [PointOfCall(1)];
  }

  /** On the one route, ignored once and never visited, a visit raises a
      conflict naming that ignore, and changes no registry. */
  lemma VisitAfterIgnore(st: State, poc: PointOfCall)
    requires |st.registry| == 1
    requires Calls(st.registry[0].marks, Ignore) == [PointOfCall(1)]
    requires Calls(st.registry[0].marks, Visit) == []
    ensures var routes := BogusRoutes();
            var second := VisitAll(routes, ActionScope(), Scope(0, None, map[]), poc, st);
            && second.Raised?
            && second.error == Conflict(0, Inspect(routes[0]), Visit, Ignore, [PointOfCall(1)])
            && second.state.registry == st.registry
  {
    var routes, segments, scope := BogusRoutes(), ActionScope(), Scope(0, None, map[]);
    BogusMatches(st);
    var t := VisitIntent(map[]);
    PerformIsMarkPass(routes, segments, scope, t, poc, st);
    var d := Diagnosed(routes, segments, t, st);
    assert d.registry == st.registry;
    ActionValidRule(d.registry[0].marks, Visit);
    var r := MarkRoute(d.registry[0], Visit, poc);
    assert r.Rejected? && r.previous == Ignore;
    MergeIdentity(VisitingDataOf(scope));
    assert VisitAll(routes, segments, scope, poc, st)
             == MarkPass(routes, t, VisitingDataOf(scope), [(0, 0)], map[], poc, d);
  }

  /** Visiting a route an earlier `ignore` marked raises, naming the ignore and
      its point of call; the refused visit changes no registry. */
  lemma IgnoreThenVisitScenario()
    ensures var routes, segments, scope := BogusRoutes(), ActionScope(), Scope(0, None, map[]);
            var first := IgnoreAll(routes, segments, scope, StringArg("later"), PointOfCall(1),
                                   State(Fresh(1), []));
            && first.Completed?
            && var second := VisitAll(routes, segments, scope, PointOfCall(2), first.state);
               && second.Raised?
               && second.error == Conflict(0, Inspect(routes[0]), Visit, Ignore, [PointOfCall(1)])
               && second.state.registry == first.state.registry
  {
    BogusIgnore();
    var first := IgnoreAll(BogusRoutes(), ActionScope(), Scope(0, None, map[]), StringArg("later"),
                           PointOfCall(1), State(Fresh(1), []));
    VisitAfterIgnore(first.state, PointOfCall(2));
  }

  // ---------------------------------------------------------------------------
  // Two `remaining` segments over one untouched route: both match it, because
  // the matches are computed before the first mark is made.
  // ---------------------------------------------------------------------------

  function TwiceRemaining(): seq<Segment> {
    [Remaining(), Remaining()]
  }

  /** On an untouched route both segments match it. */
  lemma TwiceRemainingMatches(st: State)
    requires |st.registry| == 1 && !st.registry[0].touched
    ensures Matches(BogusRoutes(), TwiceRemaining(), st) == [[0], [0]]
    ensures Pairs([[0], [0]]) == [(0, 0), (1, 0)]
    ensures NoMatchEvents([[0], [0]], Visit) == [] && NoMatchEvents([[0], [0]], Ignore) == []
  {
    var routes, segments := BogusRoutes(), TwiceRemaining();
    var m := Matches(routes, segments, st);
    RemainingMatchesUntouched(st);
    assert |m| == 2 && segments[0] == Remaining() && segments[1] == Remaining();
    assert m[0] == [0] && m[1] == [0];
    TwiceMatchedPairs();
  }

  lemma RemainingMatchesUntouched(st: State)
    requires |st.registry| == 1 && !st.registry[0].touched
    ensures MatchingRoutes(Remaining(), BogusRoutes(), st.registry) == [0]
  {
    assert SelectFrom(Remaining(), BogusRoutes(), st.registry, 1) == [];
  }

  lemma TwiceMatchedPairs()
    ensures Pairs([[0], [0]]) == [(0, 0), (1, 0)]
    ensures NoMatchEvents([[0], [0]], Visit) == [] && NoMatchEvents([[0], [0]], Ignore) == []
  {
    assert PairsFrom([[0], [0]], 2) == [];
    assert PairsFrom([[0], [0]], 1) == [(1, 0)];
    assert NoMatchFrom([[0], [0]], Visit, 2) == [] && NoMatchFrom([[0], [0]], Ignore, 2) == [];
  }

  /** The visit pass over the pairs (0, 0) and (1, 0) of one fresh route marks
      it twice and logs one example per pair. */
  lemma TwiceVisitPass()
    ensures var out := MarkPass(BogusRoutes(), VisitIntent(map[]), map[], [(0, 0), (1, 0)], map[],
                                Here, State(Fresh(1), []));
            && out.Completed?
            && out.state.log == [Example(0, 0, map[]), Example(1, 0, map[])]
            && Calls(out.state.registry[0].marks, Visit) == [Here, Here]
  {
    var routes, t, d := BogusRoutes(), VisitIntent(map[]), State(Fresh(1), []);
    MergeIdentity(map[]);
    var pairs: seq<(nat, nat)> := [(0, 0), (1, 0)];
    assert RoutesBelow(pairs, 1);
    var r0 := MarkRoute(d.registry[0], Visit, Here);
    ActionValidRule(d.registry[0].marks, Visit);
    MarkPassStep(routes, t, map[], pairs, map[], Here, d);
    var d1 := Advance(t, 0, 0, map[], r0.after, d);
    assert pairs[1..] == [(1, 0)];
    var r1 := MarkRoute(d1.registry[0], Visit, Here);
    ActionValidRule(d1.registry[0].marks, Visit);
    assert Calls(d1.registry[0].marks, Ignore) == [] && Calls(d1.registry[0].marks, Pend) == [];
    MarkPassStep(routes, t, map[], [(1, 0)], map[], Here, d1);
    var d2 := Advance(t, 1, 0, map[], r1.after, d1);
    assert [(1, 0)][1..] == [];
    assert MarkPass(routes, t, map[], [(1, 0)], map[], Here, d1) == Completed(d2);
    assert d2.log == [Example(0, 0, map[]), Example(1, 0, map[])];
  }

  /** A visit over the two segments completes with two examples and two visit
      marks on the one route: the second segment still matches a route the
      first segment's pair has just touched. */
  lemma MemoisedVisitScenario()
    ensures var out := VisitAll(BogusRoutes(), TwiceRemaining(), Scope(0, None, map[]), Here,
                                State(Fresh(1), []));
            && out.Completed?
            && out.state.log == [Example(0, 0, map[]), Example(1, 0, map[])]
            && Calls(out.state.registry[0].marks, Visit) == [Here, Here]
  {
    var routes, segments, scope := BogusRoutes(), TwiceRemaining(), Scope(0, None, map[]);
    var st := State(Fresh(1), []);
    TwiceRemainingMatches(st);
    var t := VisitIntent(map[]);
    MergeIdentity(map[]);
    PerformIsMarkPass(routes, segments, scope, t, Here, st);
    assert Diagnosed(routes, segments, t, st) == st;
    TwiceVisitPass();
    assert VisitAll(routes, segments, scope, Here, st)
             == MarkPass(routes, t, map[], [(0, 0), (1, 0)], map[], Here, st);
  }

  /** An ignore over the two segments raises at the second pair: the first pair
      marked the route, and the second segment's memoised matches still name
      it. The mark of the first pair stays. */
  lemma MemoisedIgnoreScenario()
    ensures var routes := BogusRoutes();
            var out := IgnoreAll(routes, TwiceRemaining(), Scope(0, None, map[]), StringArg("later"),
                                 Here, State(Fresh(1), []));
            && out.Raised?
            && out.error == Conflict(0, Inspect(routes[0]), Ignore, Ignore, [Here])
            && Calls(out.state.registry[0].marks, Ignore) == [Here]
  {
    var routes, segments, scope := BogusRoutes(), TwiceRemaining(), Scope(0, None, map[]);
    var st := State(Fresh(1), []);
    TwiceRemainingMatches(st);
    var t := IgnoreIntent(StringArg("later"));
    PerformIsMarkPass(routes, segments, scope, t, Here, st);
    var d := Diagnosed(routes, segments, t, st);
    assert d.registry == st.registry;
    var pairs: seq<(nat, nat)> := [(0, 0), (1, 0)];
    var r0 := MarkRoute(d.registry[0], Ignore, Here);
    ActionValidRule(d.registry[0].marks, Ignore);
    assert r0.Marked?;
    assert RoutesBelow(pairs, 1);
    MarkPassStep(routes, t, map[], pairs, map[], Here, d);
    var d1 := Advance(t, 0, 0, map[], r0.after, d);
    assert pairs[1..] == [(1, 0)];
    assert Calls(d1.registry[0].marks, Ignore) == [Here];
    ActionValidRule(d1.registry[0].marks, Ignore);
    var r1 := MarkRoute(d1.registry[0], Ignore, Here);
    assert r1.Rejected?;
    assert r1.previous == Ignore by {
      assert Calls(d1.registry[0].marks, Visit) == [];
    }
    assert IgnoreAll(routes, segments, scope, StringArg("later"), Here, st)
             == MarkPass(routes, t, map[], [(1, 0)], map[], Here, d1);
  }
}
