/**
  The scope actor (lib/aygabtu/scope_actor.rb): applies one terminal action to
  every route a scope's segments match.

  The shared, mutable state of the Ruby code, every route's mark registry and
  the examples registered with the test framework, is threaded through as a
  `State`: the registry indexed like the route list, and a log of the events the
  example generator is asked to register.  An exception raised part way becomes
  `Raised` carrying the state at the moment of the raise; marks already made
  and examples already registered stay, as they do in the Ruby objects.
*/
module ScopeActor {
  import opened Wrappers
  import opened RouteWrapper
  import opened VisitingWith
  import opened Marks
  import opened Segments

  /** A Ruby argument, as far as `is_a?(String)` can tell. */
  datatype Argument = StringArg(text: string) | OtherArg

  /** What the example generator of a segment is asked to register. */
  datatype Event =
    | NoMatch(segment: nat, action: Action)                      // a failing "matched nothing" example
    | Example(segment: nat, route: nat, data: VisitingData)      // an example visiting the route
    | Pending(segment: nat, route: nat, reason: Argument)        // a pending example

  /** No "matched nothing" diagnostic among the events. */
  predicate NoDiagnostics(events: seq<Event>) {
    forall k :: 0 <= k < |events| ==> !events[k].NoMatch?
  }

  datatype Error =
    | InvalidReason                                              // ignore's reason is not a String
    | Conflict(route: nat, description: string, requested: Action,
               previous: Action, calls: seq<PointOfCall>)       // mark_route refused the mark

  datatype State = State(registry: Registry, log: seq<Event>)

  datatype Outcome = Completed(state: State) | Raised(error: Error, state: State)

  /** The terminal action invoked, with its argument. */
  datatype Intent =
    | VisitIntent(passData: VisitingData)
    | IgnoreIntent(reason: Argument)
    | PendIntent(reason: Argument)

  /** The mark kind an intent records and tags its diagnostics with. */
  function KindOf(t: Intent): Action {
    match t
    case VisitIntent(_) => Visit
    case IgnoreIntent(_) => Ignore
    case PendIntent(_) => Pend
  }

  // ---------------------------------------------------------------------------
  // First pass: one diagnostic per empty segment
  // ---------------------------------------------------------------------------

  function NoMatchFrom(m: seq<seq<nat>>, a: Action, lo: nat): (r: seq<Event>)
    requires lo <= |m|
    decreases |m| - lo
    ensures forall k :: 0 <= k < |r| ==> r[k].NoMatch? && r[k].action == a
    ensures forall k :: 0 <= k < |r| ==> lo <= r[k].segment < |m| && m[r[k].segment] == []
    ensures forall j :: lo <= j < |m| && m[j] == [] ==> NoMatch(j, a) in r
    ensures forall k, l :: 0 <= k < l < |r| ==> r[k].segment < r[l].segment
  {
    if lo == |m| then []
    else if m[lo] == [] then [NoMatch(lo, a)] + NoMatchFrom(m, a, lo + 1)
    else NoMatchFrom(m, a, lo + 1)
  }

  /** `each_empty_scope_segment` with `generate_no_match_failing_example(a)`:
      exactly one diagnostic per segment that matched nothing, tagged with the
      invoked action, in segment order, and none for any other segment. */
  function NoMatchEvents(m: seq<seq<nat>>, a: Action): (r: seq<Event>)
    ensures forall k :: 0 <= k < |r| ==> r[k].NoMatch? && r[k].action == a
    ensures forall j: nat :: NoMatch(j, a) in r <==> 0 <= j < |m| && m[j] == []
    ensures forall k, l :: 0 <= k < l < |r| ==> r[k].segment < r[l].segment
  {
    NoMatchFrom(m, a, 0)
  }

  // ---------------------------------------------------------------------------
  // Second pass: mark every matched route
  // ---------------------------------------------------------------------------

  /** The events registered for one successfully marked route. */
  function EventsFor(t: Intent, seg: nat, i: nat, data: VisitingData): seq<Event> {
    match t
    case VisitIntent(_) => [Example(seg, i, data)]
    case IgnoreIntent(_) => []
    case PendIntent(reason) => [Pending(seg, i, reason)]
  }

  /** The events registered for a run of successfully marked pairs. */
  function Emitted(t: Intent, pairs: seq<(nat, nat)>, data: VisitingData): seq<Event> {
    if pairs == [] then []
    else EventsFor(t, pairs[0].0, pairs[0].1, data) + Emitted(t, pairs[1..], data)
  }

  /** The visiting data every example of a visit carries: the scope's merged
      with the argument, the argument winning. */
  function ExampleData(t: Intent, scopeData: VisitingData): VisitingData {
    if t.VisitIntent? then Merge(scopeData, t.passData) else map[]
  }

  /** How often route `i` occurs among the pairs. */
  function Count(i: nat, pairs: seq<(nat, nat)>): nat {
    if pairs == [] then 0
    else (if pairs[0].1 == i then 1 else 0) + Count(i, pairs[1..])
  }

  lemma {:induction false} CountPositive(i: nat, pairs: seq<(nat, nat)>)
    ensures Count(i, pairs) > 0 <==> exists k :: 0 <= k < |pairs| && pairs[k].1 == i
  {
    if pairs != [] {
      CountPositive(i, pairs[1..]);
      if Count(i, pairs[1..]) > 0 {
        var k :| 0 <= k < |pairs[1..]| && pairs[1..][k].1 == i;
        assert pairs[k + 1].1 == i;
      }
      if exists k :: 0 <= k < |pairs| && pairs[k].1 == i {
        var k :| 0 <= k < |pairs| && pairs[k].1 == i;
        if k > 0 {
          assert pairs[1..][k - 1].1 == i;
        }
      }
    }
  }

  /** The value of the visit loop's `visiting_data` variable after one more
      route: the scope's data merged with it again. */
  function NextCarried(t: Intent, scopeData: VisitingData, carried: VisitingData): VisitingData {
    if t.VisitIntent? then Merge(scopeData, carried) else carried
  }

  /** The state after pair (seg, i) was marked, its registry now `after`. */
  function Advance(t: Intent, seg: nat, i: nat, data: VisitingData, after: RouteMarks, st: State): State
    requires i < |st.registry|
  {
    State(st.registry[i := after], st.log + EventsFor(t, seg, i, data))
  }

  /** The loop of `each_scope_segment_and_route` with `mark_route` and the
      generator call.  `carried` is the block's `visiting_data` variable, which
      the visit loop re-merges into itself on every route. */
  function MarkPass(routes: seq<Route>, t: Intent, scopeData: VisitingData,
                    pairs: seq<(nat, nat)>, carried: VisitingData,
                    poc: PointOfCall, st: State): (out: Outcome)
    requires |st.registry| == |routes|
    requires RoutesBelow(pairs, |routes|)
    decreases |pairs|
    ensures |out.state.registry| == |routes|
    ensures out.Raised? ==> out.error.Conflict? && out.error.route < |routes|
  {
    if pairs == [] then Completed(st)
    else
      var seg, i := pairs[0].0, pairs[0].1;
      var data := NextCarried(t, scopeData, carried);
      match MarkRoute(st.registry[i], KindOf(t), poc)
      case Rejected(previous, calls) =>
        Raised(Conflict(i, Inspect(routes[i]), KindOf(t), previous, calls), st)
      case Marked(after) =>
        MarkPass(routes, t, scopeData, pairs[1..], data, poc, Advance(t, seg, i, data, after, st))
  }

  /** One accepted mark: the pass goes on with the remaining pairs. */
  lemma MarkPassStep(routes: seq<Route>, t: Intent, scopeData: VisitingData,
                     pairs: seq<(nat, nat)>, carried: VisitingData,
                     poc: PointOfCall, st: State)
    requires |st.registry| == |routes|
    requires RoutesBelow(pairs, |routes|)
    requires pairs != [] && MarkRoute(st.registry[pairs[0].1], KindOf(t), poc).Marked?
    ensures RoutesBelow(pairs[1..], |routes|)
    ensures var data := NextCarried(t, scopeData, carried);
            var after := MarkRoute(st.registry[pairs[0].1], KindOf(t), poc).after;
            MarkPass(routes, t, scopeData, pairs, carried, poc, st)
              == MarkPass(routes, t, scopeData, pairs[1..], data, poc,
                          Advance(t, pairs[0].0, pairs[0].1, data, after, st))
  {
    assert forall k :: 0 <= k < |pairs[1..]| ==> pairs[1..][k] == pairs[k + 1];
  }

  /** One accepted mark makes the registry grow and keeps it consistent. */
  lemma AdvanceGrows(t: Intent, seg: nat, i: nat, data: VisitingData, poc: PointOfCall, st: State)
    requires i < |st.registry| && MarkRoute(st.registry[i], KindOf(t), poc).Marked?
    ensures var st' := Advance(t, seg, i, data, MarkRoute(st.registry[i], KindOf(t), poc).after, st);
            && RegistryGrows(st.registry, st'.registry)
            && (AllConsistent(st.registry) ==> AllConsistent(st'.registry))
  {
    MarkRouteGrows(st.registry[i], KindOf(t), poc);
    if AllConsistent(st.registry) {
      MarkRoutePreservesConsistent(st.registry[i], KindOf(t), poc);
    }
  }

  /** Marking only adds: every registry grows and stays consistent, whether or
      not the pass completes. */
  lemma {:induction false} MarkPassGrows(routes: seq<Route>, t: Intent, scopeData: VisitingData,
                                         pairs: seq<(nat, nat)>, carried: VisitingData,
                                         poc: PointOfCall, st: State)
    requires |st.registry| == |routes|
    requires RoutesBelow(pairs, |routes|)
    ensures var out := MarkPass(routes, t, scopeData, pairs, carried, poc, st);
            && RegistryGrows(st.registry, out.state.registry)
            && (AllConsistent(st.registry) ==> AllConsistent(out.state.registry))
    decreases |pairs|
  {
    if pairs != [] {
      var i := pairs[0].1;
      var r := MarkRoute(st.registry[i], KindOf(t), poc);
      if r.Marked? {
        var data := NextCarried(t, scopeData, carried);
        var st' := Advance(t, pairs[0].0, i, data, r.after, st);
        MarkPassStep(routes, t, scopeData, pairs, carried, poc, st);
        AdvanceGrows(t, pairs[0].0, i, data, poc, st);
        MarkPassGrows(routes, t, scopeData, pairs[1..], data, poc, st');
        RegistryGrowsTransitive(st.registry, st'.registry,
                                MarkPass(routes, t, scopeData, pairs[1..], data, poc, st').state.registry);
      }
    }
  }

  /** The marking pass only appends to the log, and never a diagnostic. */
  lemma {:induction false} MarkPassLog(routes: seq<Route>, t: Intent, scopeData: VisitingData,
                                       pairs: seq<(nat, nat)>, carried: VisitingData,
                                       poc: PointOfCall, st: State)
    requires |st.registry| == |routes|
    requires RoutesBelow(pairs, |routes|)
    ensures var out := MarkPass(routes, t, scopeData, pairs, carried, poc, st);
            st.log <= out.state.log && NoDiagnostics(out.state.log[|st.log|..])
    decreases |pairs|
  {
    if pairs != [] {
      var i := pairs[0].1;
      var r := MarkRoute(st.registry[i], KindOf(t), poc);
      if r.Marked? {
        var data := NextCarried(t, scopeData, carried);
        var st' := Advance(t, pairs[0].0, i, data, r.after, st);
        MarkPassStep(routes, t, scopeData, pairs, carried, poc, st);
        MarkPassLog(routes, t, scopeData, pairs[1..], data, poc, st');
        AppendNoDiagnostics(st.log, EventsFor(t, pairs[0].0, i, data), st'.log,
                            MarkPass(routes, t, scopeData, pairs[1..], data, poc, st').state.log);
      }
    }
  }

  /** Events without a diagnostic, then a diagnostic-free extension: the whole
      extension is diagnostic-free. */
  lemma AppendNoDiagnostics(log: seq<Event>, events: seq<Event>, log': seq<Event>, final: seq<Event>)
    requires NoDiagnostics(events) && log' == log + events
    requires log' <= final && NoDiagnostics(final[|log'|..])
    ensures log <= final && NoDiagnostics(final[|log|..])
  {
    assert final[|log|..] == events + final[|log'|..];
  }

  /** After one route the loop's visiting data is merge(scope data, argument)
      and stays so; only a visit's events carry it. */
  lemma CarriedSettles(t: Intent, scopeData: VisitingData, carried: VisitingData)
    requires t.VisitIntent? ==> carried == t.passData || carried == Merge(scopeData, t.passData)
    ensures t.VisitIntent? ==> NextCarried(t, scopeData, carried) == Merge(scopeData, t.passData)
    ensures forall seg, i :: EventsFor(t, seg, i, NextCarried(t, scopeData, carried))
                               == EventsFor(t, seg, i, ExampleData(t, scopeData))
  {
    if t.VisitIntent? {
      MergeAbsorbs(scopeData, t.passData);
    }
  }

  /** A completed pass logged exactly the events of its pairs, every example
      with the same merged visiting data. */
  lemma {:induction false} MarkPassCompletedLog(routes: seq<Route>, t: Intent, scopeData: VisitingData,
                                                pairs: seq<(nat, nat)>, carried: VisitingData,
                                                poc: PointOfCall, st: State)
    requires |st.registry| == |routes|
    requires RoutesBelow(pairs, |routes|)
    requires t.VisitIntent? ==> carried == t.passData || carried == Merge(scopeData, t.passData)
    ensures var out := MarkPass(routes, t, scopeData, pairs, carried, poc, st);
            out.Completed? ==> out.state.log == st.log + Emitted(t, pairs, ExampleData(t, scopeData))
    decreases |pairs|
  {
    if pairs != [] && MarkRoute(st.registry[pairs[0].1], KindOf(t), poc).Marked? {
      var seg, i := pairs[0].0, pairs[0].1;
      var r := MarkRoute(st.registry[i], KindOf(t), poc);
      var data := NextCarried(t, scopeData, carried);
      var st' := Advance(t, seg, i, data, r.after, st);
      MarkPassStep(routes, t, scopeData, pairs, carried, poc, st);
      CarriedSettles(t, scopeData, carried);
      MarkPassCompletedLog(routes, t, scopeData, pairs[1..], data, poc, st');
      LogStep(t, seg, i, pairs, ExampleData(t, scopeData), data, st.log, st'.log,
              MarkPass(routes, t, scopeData, pairs[1..], data, poc, st'));
    }
  }

  /** One step of the log induction: a pass that logged the remaining pairs'
      events after one more pair's logged the events of all the pairs. */
  lemma LogStep(t: Intent, seg: nat, i: nat, pairs: seq<(nat, nat)>, exampleData: VisitingData,
                data: VisitingData, log: seq<Event>, log': seq<Event>, out: Outcome)
    requires pairs != [] && pairs[0] == (seg, i)
    requires EventsFor(t, seg, i, data) == EventsFor(t, seg, i, exampleData)
    requires log' == log + EventsFor(t, seg, i, data)
    requires out.Completed? ==> out.state.log == log' + Emitted(t, pairs[1..], exampleData)
    ensures out.Completed? ==> out.state.log == log + Emitted(t, pairs, exampleData)
  {
    var events, rest := EventsFor(t, seg, i, data), Emitted(t, pairs[1..], exampleData);
    assert Emitted(t, pairs, exampleData) == events + rest;
    assert log + events + rest == log + (events + rest);
  }

  /** A completed pass left each route with one more mark of the invoked kind
      per occurrence among the pairs. */
  lemma {:induction false} MarkPassCompletedMarks(routes: seq<Route>, t: Intent, scopeData: VisitingData,
                                                  pairs: seq<(nat, nat)>, carried: VisitingData,
                                                  poc: PointOfCall, st: State)
    requires |st.registry| == |routes|
    requires RoutesBelow(pairs, |routes|)
    ensures var out := MarkPass(routes, t, scopeData, pairs, carried, poc, st);
            out.Completed? ==>
              forall x :: 0 <= x < |routes| ==>
                out.state.registry[x] == Stamp(st.registry[x], KindOf(t), poc, Count(x, pairs))
    decreases |pairs|
  {
    var out := MarkPass(routes, t, scopeData, pairs, carried, poc, st);
    if pairs != [] && out.Completed? {
      var seg, i := pairs[0].0, pairs[0].1;
      var r := MarkRoute(st.registry[i], KindOf(t), poc);
      var data := NextCarried(t, scopeData, carried);
      var st' := Advance(t, seg, i, data, r.after, st);
      MarkPassStep(routes, t, scopeData, pairs, carried, poc, st);
      MarkPassCompletedMarks(routes, t, scopeData, pairs[1..], data, poc, st');
      assert out == MarkPass(routes, t, scopeData, pairs[1..], data, poc, st');
      forall x | 0 <= x < |routes|
        ensures out.state.registry[x] == Stamp(st.registry[x], KindOf(t), poc, Count(x, pairs))
      {
        assert out.state.registry[x] == Stamp(st'.registry[x], KindOf(t), poc, Count(x, pairs[1..]));
        if x == i {
          assert Count(x, pairs) == Count(x, pairs[1..]) + 1;
          StampAfterMark(st.registry[i], KindOf(t), poc, Count(i, pairs[1..]));
        } else {
          assert Count(x, pairs) == Count(x, pairs[1..]);
          assert st'.registry[x] == st.registry[x];
        }
      }
    }
  }

  /** A raised pass stopped at the first pair whose mark was refused: its state
      is exactly the state after completing the pairs before that one (nothing
      is rolled back), and the error reports that route and the refusal. */
  lemma {:induction false} MarkPassRaised(routes: seq<Route>, t: Intent, scopeData: VisitingData,
                                          pairs: seq<(nat, nat)>, carried: VisitingData,
                                          poc: PointOfCall, st: State)
    requires |st.registry| == |routes|
    requires RoutesBelow(pairs, |routes|)
    ensures var out := MarkPass(routes, t, scopeData, pairs, carried, poc, st);
            out.Raised? ==>
              exists k :: 0 <= k < |pairs| && RaisedAt(routes, t, scopeData, pairs, carried, poc, st, k, out)
    decreases |pairs|
  {
    var out := MarkPass(routes, t, scopeData, pairs, carried, poc, st);
    if pairs != [] && out.Raised? {
      var seg, i := pairs[0].0, pairs[0].1;
      var data := NextCarried(t, scopeData, carried);
      var r := MarkRoute(st.registry[i], KindOf(t), poc);
      assert pairs[..0] == [];
      if r.Marked? {
        var st' := Advance(t, seg, i, data, r.after, st);
        MarkPassStep(routes, t, scopeData, pairs, carried, poc, st);
        MarkPassRaised(routes, t, scopeData, pairs[1..], data, poc, st');
        var k :| 0 <= k < |pairs[1..]| && RaisedAt(routes, t, scopeData, pairs[1..], data, poc, st', k, out);
        assert pairs[..k + 1][0] == pairs[0];
        assert pairs[..k + 1][1..] == pairs[1..][..k];
        assert RaisedAt(routes, t, scopeData, pairs, carried, poc, st, k + 1, out);
      } else {
        assert RaisedAt(routes, t, scopeData, pairs, carried, poc, st, 0, out);
      }
    }
  }

  /** `out` is what raising at pair `k` leaves: the completed state of the pairs
      before `k`, and a conflict refusing pair `k`'s route in that state. */
  predicate RaisedAt(routes: seq<Route>, t: Intent, scopeData: VisitingData,
                     pairs: seq<(nat, nat)>, carried: VisitingData,
                     poc: PointOfCall, st: State, k: nat, out: Outcome)
    requires |st.registry| == |routes|
    requires RoutesBelow(pairs, |routes|)
    requires k < |pairs|
  {
    && MarkPass(routes, t, scopeData, pairs[..k], carried, poc, st) == Completed(out.state)
    && |out.state.registry| == |routes|
    && var i := pairs[k].1;
       var r := MarkRoute(out.state.registry[i], KindOf(t), poc);
       && r.Rejected?
       && out == Raised(Conflict(i, Inspect(routes[i]), KindOf(t), r.previous, r.calls), out.state)
  }

  /** The events of marked pairs, spelt out per intent. */
  lemma {:induction false} EmittedShape(t: Intent, pairs: seq<(nat, nat)>, data: VisitingData)
    ensures NoDiagnostics(Emitted(t, pairs, data))
    ensures t.IgnoreIntent? ==> Emitted(t, pairs, data) == []
    ensures !t.IgnoreIntent? ==> |Emitted(t, pairs, data)| == |pairs|
    ensures t.VisitIntent? ==> forall k :: 0 <= k < |pairs| ==>
              Emitted(t, pairs, data)[k] == Example(pairs[k].0, pairs[k].1, data)
    ensures t.PendIntent? ==> forall k :: 0 <= k < |pairs| ==>
              Emitted(t, pairs, data)[k] == Pending(pairs[k].0, pairs[k].1, t.reason)
  {
    if pairs != [] {
      EmittedShape(t, pairs[1..], data);
    }
  }

  // ---------------------------------------------------------------------------
  // The actions
  // ---------------------------------------------------------------------------

  /** `ignore` given something other than a String. */
  predicate BadReason(t: Intent) {
    t.IgnoreIntent? && !t.reason.StringArg?
  }

  /** The matches of the scope's segments, memoised from the registry as it was
      when the action was invoked. */
  function Matches(routes: seq<Route>, segments: seq<Segment>, st: State): (m: seq<seq<nat>>)
    requires |st.registry| == |routes|
    ensures |m| == |segments| && WellFormedMatches(m, |routes|)
    ensures forall j :: 0 <= j < |m| ==> m[j] == MatchingRoutes(segments[j], routes, st.registry)
    ensures RoutesBelow(Pairs(m), |routes|)
  {
    var m := SegmentRoutes(segments, routes, st.registry);
    PairsRoutesBelow(m, |routes|);
    m
  }

  /** The state after the first pass: the diagnostics appended. */
  function Diagnosed(routes: seq<Route>, segments: seq<Segment>, t: Intent, st: State): (d: State)
    requires |st.registry| == |routes|
    ensures d.registry == st.registry
  {
    st.(log := st.log + NoMatchEvents(Matches(routes, segments, st), KindOf(t)))
  }

  /** The visit loop's `visiting_data` variable before the first route: the
      argument itself. */
  function InitialCarried(t: Intent): VisitingData {
    if t.VisitIntent? then t.passData else map[]
  }

  /** One action of the scope actor: the argument check, the diagnostic pass,
      then the marking pass over the memoised matches. */
  function Perform(routes: seq<Route>, segments: seq<Segment>, scope: Scope,
                   t: Intent, poc: PointOfCall, st: State): (out: Outcome)
    requires |st.registry| == |routes|
    ensures |out.state.registry| == |routes|
    ensures RegistryGrows(st.registry, out.state.registry)
    ensures AllConsistent(st.registry) ==> AllConsistent(out.state.registry)
    ensures BadReason(t) ==> out == Raised(InvalidReason, st)
    ensures !BadReason(t) ==>
              var diag := Diagnosed(routes, segments, t, st).log;
              diag <= out.state.log && NoDiagnostics(out.state.log[|diag|..])
    ensures out.Raised? && !BadReason(t) ==> out.error.Conflict? && out.error.requested == KindOf(t)
    ensures out.Completed? ==>
              var m := Matches(routes, segments, st);
              && out.state.log == Diagnosed(routes, segments, t, st).log
                                    + Emitted(t, Pairs(m), ExampleData(t, VisitingDataOf(scope)))
              && forall i :: 0 <= i < |routes| ==>
                   out.state.registry[i] == Stamp(st.registry[i], KindOf(t), poc, Count(i, Pairs(m)))
  {
    if BadReason(t) then
      Raised(InvalidReason, st)
    else
      var m := Matches(routes, segments, st);
      var d := Diagnosed(routes, segments, t, st);
      var carried := InitialCarried(t);
      var out := MarkPass(routes, t, VisitingDataOf(scope), Pairs(m), carried, poc, d);
      MarkPassGrows(routes, t, VisitingDataOf(scope), Pairs(m), carried, poc, d);
      MarkPassLog(routes, t, VisitingDataOf(scope), Pairs(m), carried, poc, d);
      MarkPassCompletedLog(routes, t, VisitingDataOf(scope), Pairs(m), carried, poc, d);
      MarkPassCompletedMarks(routes, t, VisitingDataOf(scope), Pairs(m), carried, poc, d);
      MarkPassRaised(routes, t, VisitingDataOf(scope), Pairs(m), carried, poc, d);
      out
  }

  // ---------------------------------------------------------------------------
  // Properties of one action
  // ---------------------------------------------------------------------------

  /** A route occurs among the pairs exactly when some segment matched it. */
  lemma CountPairs(m: seq<seq<nat>>, i: nat)
    ensures Count(i, Pairs(m)) > 0 <==> exists j :: 0 <= j < |m| && i in m[j]
  {
    CountPositive(i, Pairs(m));
    if exists j :: 0 <= j < |m| && i in m[j] {
      var j :| 0 <= j < |m| && i in m[j];
      assert (j, i) in Pairs(m);
    }
  }

  /** On completion every route some segment matched carries a new mark of the
      invoked kind, and every other route's registry is exactly as before. */
  lemma MatchedRoutesMarked(routes: seq<Route>, segments: seq<Segment>, scope: Scope,
                            t: Intent, poc: PointOfCall, st: State)
    requires |st.registry| == |routes|
    ensures var out := Perform(routes, segments, scope, t, poc, st);
            var m := Matches(routes, segments, st);
            out.Completed? ==>
              forall i :: 0 <= i < |routes| ==>
                if exists j :: 0 <= j < |m| && i in m[j]
                then Calls(out.state.registry[i].marks, KindOf(t)) != [] && out.state.registry[i].touched
                else out.state.registry[i] == st.registry[i]
  {
    var m := Matches(routes, segments, st);
    forall i | 0 <= i < |routes| {
      CountPairs(m, i);
    }
  }

  /** On a consistent registry, an ignore or a pend that completes met each
      route at most once, and only routes that carried no mark at all. */
  lemma ExclusiveActionCompleted(routes: seq<Route>, segments: seq<Segment>, scope: Scope,
                                 t: Intent, poc: PointOfCall, st: State)
    requires |st.registry| == |routes| && AllConsistent(st.registry)
    requires !t.VisitIntent?
    ensures var out := Perform(routes, segments, scope, t, poc, st);
            var p := Pairs(Matches(routes, segments, st));
            out.Completed? ==>
              forall i :: 0 <= i < |routes| ==>
                Count(i, p) <= 1 && (Count(i, p) == 1 ==> !Used(st.registry[i].marks))
  {
    var out := Perform(routes, segments, scope, t, poc, st);
    var p := Pairs(Matches(routes, segments, st));
    if out.Completed? {
      forall i | 0 <= i < |routes|
        ensures Count(i, p) <= 1 && (Count(i, p) == 1 ==> !Used(st.registry[i].marks))
      {
        var before, after := st.registry[i], out.state.registry[i];
        assert Consistent(after);
        assert |Calls(after.marks, KindOf(t))| == |Calls(before.marks, KindOf(t))| + Count(i, p);
      }
    }
  }

  // ---------------------------------------------------------------------------
  // When an action completes
  // ---------------------------------------------------------------------------

  /** Every pair's route carries no ignore and no pend. */
  predicate PairsVisitOpen(pairs: seq<(nat, nat)>, reg: Registry) {
    forall k :: 0 <= k < |pairs| ==> pairs[k].1 < |reg| && VisitOpen(reg[pairs[k].1])
  }

  /** Every pair's route carries no mark at all. */
  predicate PairsUnused(pairs: seq<(nat, nat)>, reg: Registry) {
    forall k :: 0 <= k < |pairs| ==> pairs[k].1 < |reg| && !Used(reg[pairs[k].1].marks)
  }

  /** No route occurs in two pairs. */
  predicate DistinctRoutes(pairs: seq<(nat, nat)>) {
    forall k, l :: 0 <= k < l < |pairs| ==> pairs[k].1 != pairs[l].1
  }

  /** A visit pass completes exactly when no route it meets carries an ignore
      or a pend: visits never block visits, and a visit adds no ignore or pend. */
  lemma {:induction false} MarkPassVisitCompletes(routes: seq<Route>, t: Intent, scopeData: VisitingData,
                                                  pairs: seq<(nat, nat)>, carried: VisitingData,
                                                  poc: PointOfCall, st: State)
    requires |st.registry| == |routes|
    requires RoutesBelow(pairs, |routes|)
    requires t.VisitIntent?
    ensures (MarkPass(routes, t, scopeData, pairs, carried, poc, st).Completed?)
              <==> PairsVisitOpen(pairs, st.registry)
    decreases |pairs|
  {
    if pairs != [] {
      var i := pairs[0].1;
      assert KindOf(t) == Visit;
      ActionValidRule(st.registry[i].marks, Visit);
      var r := MarkRoute(st.registry[i], Visit, poc);
      if r.Marked? {
        var data := NextCarried(t, scopeData, carried);
        var st' := Advance(t, pairs[0].0, i, data, r.after, st);
        MarkPassStep(routes, t, scopeData, pairs, carried, poc, st);
        MarkPassVisitCompletes(routes, t, scopeData, pairs[1..], data, poc, st');
        VisitOpenStep(pairs, st.registry, st'.registry);
      }
    }
  }

  /** Marking the first pair's route with a visit changes no route's ignore or
      pend lists, so the condition on the remaining pairs is the condition on
      all of them. */
  lemma VisitOpenStep(pairs: seq<(nat, nat)>, reg: Registry, reg': Registry)
    requires pairs != [] && RoutesBelow(pairs, |reg|) && |reg'| == |reg|
    requires VisitOpen(reg[pairs[0].1])
    requires forall x :: 0 <= x < |reg| ==> VisitOpen(reg'[x]) == VisitOpen(reg[x])
    ensures PairsVisitOpen(pairs[1..], reg') <==> PairsVisitOpen(pairs, reg)
  {
    assert forall k :: 0 <= k < |pairs[1..]| ==> pairs[1..][k] == pairs[k + 1];
    if PairsVisitOpen(pairs[1..], reg') {
      forall k | 0 <= k < |pairs| ensures VisitOpen(reg[pairs[k].1]) {
        if k > 0 {
          assert pairs[k] == pairs[1..][k - 1];
        }
      }
    }
  }

  /** An ignore or pend pass completes exactly when every route it meets is
      still unmarked and no route comes up twice (the second mark would be
      refused by the first). */
  lemma {:induction false} MarkPassExclusiveCompletes(routes: seq<Route>, t: Intent, scopeData: VisitingData,
                                                      pairs: seq<(nat, nat)>, carried: VisitingData,
                                                      poc: PointOfCall, st: State)
    requires |st.registry| == |routes|
    requires RoutesBelow(pairs, |routes|)
    requires !t.VisitIntent?
    ensures (MarkPass(routes, t, scopeData, pairs, carried, poc, st).Completed?)
              <==> PairsUnused(pairs, st.registry) && DistinctRoutes(pairs)
    decreases |pairs|
  {
    if pairs != [] {
      var i := pairs[0].1;
      var a := KindOf(t);
      assert a != Visit;
      ActionValidRule(st.registry[i].marks, a);
      var r := MarkRoute(st.registry[i], a, poc);
      if r.Marked? {
        var data := NextCarried(t, scopeData, carried);
        var st' := Advance(t, pairs[0].0, i, data, r.after, st);
        MarkPassStep(routes, t, scopeData, pairs, carried, poc, st);
        MarkPassExclusiveCompletes(routes, t, scopeData, pairs[1..], data, poc, st');
        assert Calls(st'.registry[i].marks, a) != [];
        UnusedStep(pairs, st.registry, st'.registry);
      }
    }
  }

  /** Marking the first pair's route (unmarked before, marked after) and no
      other: the remaining pairs meet only unmarked routes, none twice, exactly
      when all the pairs do. */
  lemma UnusedStep(pairs: seq<(nat, nat)>, reg: Registry, reg': Registry)
    requires pairs != [] && RoutesBelow(pairs, |reg|) && |reg'| == |reg|
    requires !Used(reg[pairs[0].1].marks) && Used(reg'[pairs[0].1].marks)
    requires forall x :: 0 <= x < |reg| && x != pairs[0].1 ==> reg'[x] == reg[x]
    ensures (PairsUnused(pairs[1..], reg') && DistinctRoutes(pairs[1..]))
              <==> (PairsUnused(pairs, reg) && DistinctRoutes(pairs))
  {
    var i := pairs[0].1;
    assert forall k :: 0 <= k < |pairs[1..]| ==> pairs[1..][k] == pairs[k + 1];
    if PairsUnused(pairs[1..], reg') && DistinctRoutes(pairs[1..]) {
      forall k | 0 <= k < |pairs| ensures !Used(reg[pairs[k].1].marks) {
        if k > 0 {
          assert pairs[k] == pairs[1..][k - 1];
        }
      }
      forall k, l | 0 <= k < l < |pairs| ensures pairs[k].1 != pairs[l].1 {
        assert pairs[l] == pairs[1..][l - 1];
        if k > 0 {
          assert pairs[k] == pairs[1..][k - 1];
        }
      }
    }
    if PairsUnused(pairs, reg) && DistinctRoutes(pairs) {
      forall k | 0 <= k < |pairs[1..]| ensures !Used(reg'[pairs[1..][k].1].marks) {
        assert pairs[1..][k] == pairs[k + 1];
        assert pairs[k + 1].1 != i;
      }
    }
  }

  /** No route is matched by two different segments. */
  predicate SegmentsDisjoint(m: seq<seq<nat>>) {
    forall j1, j2, i :: 0 <= j1 < j2 < |m| && i in m[j1] ==> i !in m[j2]
  }

  /** A visit can go through: no route any segment matched carries an ignore or
      a pend. */
  predicate VisitUnblocked(m: seq<seq<nat>>, reg: Registry) {
    forall j, i :: 0 <= j < |m| && i in m[j] ==> i < |reg| && VisitOpen(reg[i])
  }

  /** An ignore or a pend can go through: every matched route is unmarked and
      matched by one segment only. */
  predicate ExclusiveUnblocked(m: seq<seq<nat>>, reg: Registry) {
    SegmentsDisjoint(m) && MatchedUnused(m, reg)
  }

  /** Every route some segment matched is unmarked. */
  predicate MatchedUnused(m: seq<seq<nat>>, reg: Registry) {
    forall j, i :: 0 <= j < |m| && i in m[j] ==> i < |reg| && !Used(reg[i].marks)
  }

  /** A pair for every matched route, and a matched route for every pair. */
  lemma PairsVisitConditions(m: seq<seq<nat>>, reg: Registry)
    ensures PairsVisitOpen(Pairs(m), reg) <==> VisitUnblocked(m, reg)
    ensures PairsUnused(Pairs(m), reg) <==> MatchedUnused(m, reg)
  {
    var p := Pairs(m);
    forall j, i | 0 <= j < |m| && i in m[j] ensures exists k :: 0 <= k < |p| && p[k] == (j, i) {
      assert (j, i) in p;
    }
  }

  /** Segment-then-route order makes "no route in two pairs" the same as "no
      route in two segments". */
  lemma PairsDistinct(m: seq<seq<nat>>)
    requires forall j :: 0 <= j < |m| ==> Increasing(m[j])
    ensures DistinctRoutes(Pairs(m)) <==> SegmentsDisjoint(m)
  {
    if SegmentsDisjoint(m) {
      DisjointPairsDistinct(m);
    } else {
      SharedRouteRepeats(m);
    }
  }

  lemma DisjointPairsDistinct(m: seq<seq<nat>>)
    requires forall j :: 0 <= j < |m| ==> Increasing(m[j])
    requires SegmentsDisjoint(m)
    ensures DistinctRoutes(Pairs(m))
  {
    var p := Pairs(m);
    forall k, l | 0 <= k < l < |p| ensures p[k].1 != p[l].1 {
      assert Before(p[k], p[l]);
      assert p[k].1 in m[p[k].0] && p[l].1 in m[p[l].0];
    }
  }

  lemma SharedRouteRepeats(m: seq<seq<nat>>)
    requires forall j :: 0 <= j < |m| ==> Increasing(m[j])
    requires !SegmentsDisjoint(m)
    ensures !DistinctRoutes(Pairs(m))
  {
    var p := Pairs(m);
    var j1, j2, i :| 0 <= j1 < j2 < |m| && i in m[j1] && i in m[j2];
    assert (j1, i) in p && (j2, i) in p;
    var k :| 0 <= k < |p| && p[k] == (j1, i);
    var l :| 0 <= l < |p| && p[l] == (j2, i);
    OrderedIndices(p, k, l);
    assert p[k].1 == p[l].1;
  }

  /** In a sequence ordered by `Before`, a pair of an earlier segment comes at
      an earlier index. */
  lemma OrderedIndices(p: seq<(nat, nat)>, k: nat, l: nat)
    requires forall a, b :: 0 <= a < b < |p| ==> Before(p[a], p[b])
    requires k < |p| && l < |p| && p[k].0 < p[l].0
    ensures k < l
  {
  }

  /** The pairs conditions read back as conditions on the segments' matches. */
  lemma PairsConditions(m: seq<seq<nat>>, reg: Registry)
    requires forall j :: 0 <= j < |m| ==> Increasing(m[j])
    ensures PairsVisitOpen(Pairs(m), reg) <==> VisitUnblocked(m, reg)
    ensures (PairsUnused(Pairs(m), reg) && DistinctRoutes(Pairs(m))) <==> ExclusiveUnblocked(m, reg)
  {
    PairsVisitConditions(m, reg);
    PairsDistinct(m);
  }

  /** `visit_with` completes exactly when no matched route carries an ignore or
      a pend; otherwise it raises. */
  lemma VisitCompletes(routes: seq<Route>, segments: seq<Segment>, scope: Scope,
                       t: Intent, poc: PointOfCall, st: State)
    requires |st.registry| == |routes| && t.VisitIntent?
    ensures (Perform(routes, segments, scope, t, poc, st).Completed?)
              <==> VisitUnblocked(Matches(routes, segments, st), st.registry)
  {
    var m := Matches(routes, segments, st);
    PerformIsMarkPass(routes, segments, scope, t, poc, st);
    MarkPassVisitCompletes(routes, t, VisitingDataOf(scope), Pairs(m), InitialCarried(t), poc,
                           Diagnosed(routes, segments, t, st));
    PairsConditions(m, st.registry);
  }

  /** An `ignore` with a String reason or a `pend` completes exactly when every
      matched route is unmarked and no two segments match the same route. */
  lemma ExclusiveCompletes(routes: seq<Route>, segments: seq<Segment>, scope: Scope,
                           t: Intent, poc: PointOfCall, st: State)
    requires |st.registry| == |routes| && !t.VisitIntent?
    ensures !BadReason(t) ==>
              ((Perform(routes, segments, scope, t, poc, st).Completed?)
                 <==> ExclusiveUnblocked(Matches(routes, segments, st), st.registry))
  {
    if BadReason(t) {
      return;
    }
    var m := Matches(routes, segments, st);
    PerformIsMarkPass(routes, segments, scope, t, poc, st);
    MarkPassExclusiveCompletes(routes, t, VisitingDataOf(scope), Pairs(m), InitialCarried(t), poc,
                               Diagnosed(routes, segments, t, st));
    PairsConditions(m, st.registry);
  }

  /** An action past the argument check is its marking pass, started on the
      diagnosed state with the argument as the loop's visiting data. */
  lemma PerformIsMarkPass(routes: seq<Route>, segments: seq<Segment>, scope: Scope,
                          t: Intent, poc: PointOfCall, st: State)
    requires |st.registry| == |routes| && !BadReason(t)
    ensures Perform(routes, segments, scope, t, poc, st)
              == MarkPass(routes, t, VisitingDataOf(scope), Pairs(Matches(routes, segments, st)),
                          InitialCarried(t), poc, Diagnosed(routes, segments, t, st))
  {
  }

  /** Pair `k` is the refused one: its route is the error's, the route of every
      earlier pair carries a mark of the invoked kind, and marking pair `k`'s
      route in the final state is refused. */
  predicate RefusedAt(t: Intent, pairs: seq<(nat, nat)>, poc: PointOfCall, out: Outcome, k: nat)
    requires out.Raised? && out.error.Conflict?
    requires RoutesBelow(pairs, |out.state.registry|)
  {
    && k < |pairs|
    && pairs[k].1 == out.error.route
    && (forall k' :: 0 <= k' < k ==> Calls(out.state.registry[pairs[k'].1].marks, KindOf(t)) != [])
    && MarkRoute(out.state.registry[pairs[k].1], KindOf(t), poc).Rejected?
  }

  lemma {:induction false} MarkPassNoRollback(routes: seq<Route>, t: Intent, scopeData: VisitingData,
                                              pairs: seq<(nat, nat)>, carried: VisitingData,
                                              poc: PointOfCall, st: State)
    requires |st.registry| == |routes|
    requires RoutesBelow(pairs, |routes|)
    ensures var out := MarkPass(routes, t, scopeData, pairs, carried, poc, st);
            out.Raised? ==> exists k: nat :: RefusedAt(t, pairs, poc, out, k)
    decreases |pairs|
  {
    var out := MarkPass(routes, t, scopeData, pairs, carried, poc, st);
    if pairs != [] && out.Raised? {
      var i := pairs[0].1;
      var r := MarkRoute(st.registry[i], KindOf(t), poc);
      if r.Marked? {
        var data := NextCarried(t, scopeData, carried);
        var st' := Advance(t, pairs[0].0, i, data, r.after, st);
        MarkPassStep(routes, t, scopeData, pairs, carried, poc, st);
        MarkPassNoRollback(routes, t, scopeData, pairs[1..], data, poc, st');
        MarkPassGrows(routes, t, scopeData, pairs[1..], data, poc, st');
        var k: nat :| RefusedAt(t, pairs[1..], poc, out, k);
        assert Grows(st'.registry[i], out.state.registry[i]);
        assert Calls(out.state.registry[i].marks, KindOf(t))[0] == Calls(st'.registry[i].marks, KindOf(t))[0];
        forall k' | 0 <= k' < k + 1
          ensures Calls(out.state.registry[pairs[k'].1].marks, KindOf(t)) != []
        {
          if k' > 0 {
            assert pairs[k'] == pairs[1..][k' - 1];
          }
        }
        assert RefusedAt(t, pairs, poc, out, k + 1);
      } else {
        assert RefusedAt(t, pairs, poc, out, 0);
      }
    }
  }

  /** No rollback: when a mark is refused, every route marked earlier in the
      same call, in segment-then-route order, keeps its new mark, and the
      refused route is reported as it stood. */
  lemma NoRollback(routes: seq<Route>, segments: seq<Segment>, scope: Scope,
                   t: Intent, poc: PointOfCall, st: State)
    requires |st.registry| == |routes|
    requires !BadReason(t)
    ensures var out := Perform(routes, segments, scope, t, poc, st);
            out.Raised? ==>
              && out.error.Conflict?
              && exists k: nat :: RefusedAt(t, Pairs(Matches(routes, segments, st)), poc, out, k)
  {
    PerformIsMarkPass(routes, segments, scope, t, poc, st);
    MarkPassNoRollback(routes, t, VisitingDataOf(scope), Pairs(Matches(routes, segments, st)),
                       InitialCarried(t), poc, Diagnosed(routes, segments, t, st));
  }

  lemma MarkPassConflict(routes: seq<Route>, t: Intent, scopeData: VisitingData,
                         pairs: seq<(nat, nat)>, carried: VisitingData,
                         poc: PointOfCall, st: State)
    requires |st.registry| == |routes| && AllConsistent(st.registry)
    requires RoutesBelow(pairs, |routes|)
    ensures var out := MarkPass(routes, t, scopeData, pairs, carried, poc, st);
            out.Raised? ==> ConflictReport(routes, t, out)
  {
    var out := MarkPass(routes, t, scopeData, pairs, carried, poc, st);
    if out.Raised? {
      MarkPassRaised(routes, t, scopeData, pairs, carried, poc, st);
      var k :| 0 <= k < |pairs| && RaisedAt(routes, t, scopeData, pairs, carried, poc, st, k, out);
      assert RoutesBelow(pairs[..k], |routes|);
      MarkPassGrows(routes, t, scopeData, pairs[..k], carried, poc, st);
      var i := pairs[k].1;
      MarkRoutePreservesConsistent(out.state.registry[i], KindOf(t), poc);
      ActionValidRule(out.state.registry[i].marks, KindOf(t));
    }
  }

  /** What a conflict error reports: the refused route and its description,
      the one kind of mark that route already carries, and all that kind's
      points of call; a refused visit always names an ignore or a pend. */
  predicate ConflictReport(routes: seq<Route>, t: Intent, out: Outcome)
  {
    && out.Raised? && out.error.Conflict?
    && var i := out.error.route;
       && i < |routes| && i < |out.state.registry|
       && out.error.requested == KindOf(t)
       && out.error.description == Inspect(routes[i])
       && out.error.calls == Calls(out.state.registry[i].marks, out.error.previous) != []
       && (forall b :: Calls(out.state.registry[i].marks, b) != [] ==> b == out.error.previous)
       && (t.VisitIntent? ==> out.error.previous != Visit)
  }

  /** On a consistent registry a conflict names the prior action unambiguously. */
  lemma ConflictNamesPriorAction(routes: seq<Route>, segments: seq<Segment>, scope: Scope,
                                 t: Intent, poc: PointOfCall, st: State)
    requires |st.registry| == |routes| && AllConsistent(st.registry)
    ensures var out := Perform(routes, segments, scope, t, poc, st);
            out.Raised? && !BadReason(t) ==> ConflictReport(routes, t, out)
  {
    if !BadReason(t) {
      PerformIsMarkPass(routes, segments, scope, t, poc, st);
      MarkPassConflict(routes, t, VisitingDataOf(scope), Pairs(Matches(routes, segments, st)),
                       InitialCarried(t), poc, Diagnosed(routes, segments, t, st));
    }
  }

  /** The log of a completed action with intent `t`: the prefix `diag`, then
      per pair an example carrying `data` for a visit, a pending example with
      the reason for a pend, and nothing for an ignore. */
  predicate LogOfPairs(log: seq<Event>, diag: seq<Event>, t: Intent, p: seq<(nat, nat)>, data: VisitingData) {
    && |log| == |diag| + (if t.IgnoreIntent? then 0 else |p|)
    && log[..|diag|] == diag
    && (t.VisitIntent? ==> forall k :: 0 <= k < |p| ==> log[|diag| + k] == Example(p[k].0, p[k].1, data))
    && (t.PendIntent? ==> forall k :: 0 <= k < |p| ==> log[|diag| + k] == Pending(p[k].0, p[k].1, t.reason))
  }

  /** The registry after a completed action of kind `kind`: each route gained
      one call of that kind per pair naming it and kept its calls of the other
      kinds. */
  predicate MarksOfPairs(before: Registry, after: Registry, kind: Action, poc: PointOfCall,
                         p: seq<(nat, nat)>) {
    && |after| == |before|
    && (forall i :: 0 <= i < |before| ==>
          Calls(after[i].marks, kind) == Calls(before[i].marks, kind) + Repeat(poc, Count(i, p)))
    && (forall i, b :: 0 <= i < |before| && b != kind ==>
          Calls(after[i].marks, b) == Calls(before[i].marks, b))
  }

  /** The effect of a completed action with intent `t` over the matches `m`, its
      examples carrying `data`: the diagnostics, then the pairs' events, and
      one mark of the action's kind per pair. */
  predicate CompletedEffect(st: State, out: State, m: seq<seq<nat>>, t: Intent, data: VisitingData,
                            poc: PointOfCall) {
    && LogOfPairs(out.log, st.log + NoMatchEvents(m, KindOf(t)), t, Pairs(m), data)
    && MarksOfPairs(st.registry, out.registry, KindOf(t), poc, Pairs(m))
  }

  /** A completed action logged the diagnostics, then one event per
      (segment, matched route) pair for a visit or a pend, and none for an
      ignore. */
  lemma CompletedLog(routes: seq<Route>, segments: seq<Segment>, scope: Scope,
                     t: Intent, poc: PointOfCall, st: State)
    requires |st.registry| == |routes|
    ensures var out := Perform(routes, segments, scope, t, poc, st);
            var m := Matches(routes, segments, st);
            var p := Pairs(m);
            var diag := st.log + NoMatchEvents(m, KindOf(t));
            out.Completed? ==> LogOfPairs(out.state.log, diag, t, p, ExampleData(t, VisitingDataOf(scope)))
  {
    var out := Perform(routes, segments, scope, t, poc, st);
    if out.Completed? {
      var m := Matches(routes, segments, st);
      var p := Pairs(m);
      var data := ExampleData(t, VisitingDataOf(scope));
      var diag := st.log + NoMatchEvents(m, KindOf(t));
      assert out.state.log == diag + Emitted(t, p, data) by {
        assert Diagnosed(routes, segments, t, st).log == diag;
      }
      LogShape(t, p, data, diag, out.state.log);
    }
  }

  /** A log made of a prefix followed by the events of some pairs, read entry
      by entry. */
  lemma LogShape(t: Intent, p: seq<(nat, nat)>, data: VisitingData, diag: seq<Event>, log: seq<Event>)
    requires log == diag + Emitted(t, p, data)
    ensures LogOfPairs(log, diag, t, p, data)
  {
    EmittedShape(t, p, data);
  }

  /** A completed action added to each route one mark of its kind per
      (segment, route) pair naming it, and left the other kinds alone. */
  lemma CompletedMarks(routes: seq<Route>, segments: seq<Segment>, scope: Scope,
                       t: Intent, poc: PointOfCall, st: State)
    requires |st.registry| == |routes|
    ensures var out := Perform(routes, segments, scope, t, poc, st);
            var p := Pairs(Matches(routes, segments, st));
            out.Completed? ==> MarksOfPairs(st.registry, out.state.registry, KindOf(t), poc, p)
  {
  }

  // ---------------------------------------------------------------------------
  // The public actions
  // ---------------------------------------------------------------------------

  /** `visit_with(visiting_data)`: one diagnostic per empty segment, then a visit
      mark and an example per (segment, matched route) pair, in segment-then-
      route order, each example carrying the scope's visiting data merged with
      the argument, the argument winning. */
  function VisitWith(routes: seq<Route>, segments: seq<Segment>, scope: Scope,
                     passData: VisitingData, poc: PointOfCall, st: State): (out: Outcome)
    requires |st.registry| == |routes|
    ensures RegistryGrows(st.registry, out.state.registry)
    ensures AllConsistent(st.registry) ==> AllConsistent(out.state.registry)
    ensures out.Completed? <==> VisitUnblocked(Matches(routes, segments, st), st.registry)
    ensures out.Raised? ==> out.error.Conflict? && out.error.requested == Visit
    ensures out.Completed? ==>
              CompletedEffect(st, out.state, Matches(routes, segments, st), VisitIntent(passData),
                              Merge(VisitingDataOf(scope), passData), poc)
  {
    var t := VisitIntent(passData);
    assert KindOf(t) == Visit && t.passData == passData && !t.IgnoreIntent? && !BadReason(t);
    VisitCompletes(routes, segments, scope, t, poc, st);
    CompletedLog(routes, segments, scope, t, poc, st);
    CompletedMarks(routes, segments, scope, t, poc, st);
    Perform(routes, segments, scope, t, poc, st)
  }

  /** `visit`: `visit_with({})`, so every example carries exactly the scope's
      visiting data. */
  function VisitAll(routes: seq<Route>, segments: seq<Segment>, scope: Scope,
                    poc: PointOfCall, st: State): (out: Outcome)
    requires |st.registry| == |routes|
    ensures RegistryGrows(st.registry, out.state.registry)
    ensures AllConsistent(st.registry) ==> AllConsistent(out.state.registry)
    ensures out.Completed? <==> VisitUnblocked(Matches(routes, segments, st), st.registry)
    ensures out.Raised? ==> out.error.Conflict? && out.error.requested == Visit
    ensures out.Completed? ==>
              CompletedEffect(st, out.state, Matches(routes, segments, st), VisitIntent(map[]),
                              VisitingDataOf(scope), poc)
  {
    var out := VisitWith(routes, segments, scope, map[], poc, st);
    VisitAllEffect(routes, segments, scope, poc, st);
    out
  }

  /** With an empty argument, `visit_with`'s examples carry the scope's data. */
  lemma VisitAllEffect(routes: seq<Route>, segments: seq<Segment>, scope: Scope,
                       poc: PointOfCall, st: State)
    requires |st.registry| == |routes|
    ensures var out := VisitWith(routes, segments, scope, map[], poc, st);
            out.Completed? ==>
              CompletedEffect(st, out.state, Matches(routes, segments, st), VisitIntent(map[]),
                              VisitingDataOf(scope), poc)
  {
    MergeIdentity(VisitingDataOf(scope));
  }

  /** `ignore(reason)`: a reason that is not a String raises before any
      diagnostic or mark; otherwise one diagnostic per empty segment, then an
      ignore mark on every matched route and no example at all. */
  function IgnoreAll(routes: seq<Route>, segments: seq<Segment>, scope: Scope,
                     reason: Argument, poc: PointOfCall, st: State): (out: Outcome)
    requires |st.registry| == |routes|
    ensures RegistryGrows(st.registry, out.state.registry)
    ensures AllConsistent(st.registry) ==> AllConsistent(out.state.registry)
    ensures !reason.StringArg? ==> out == Raised(InvalidReason, st)
    ensures reason.StringArg? ==>
              (out.Completed? <==> ExclusiveUnblocked(Matches(routes, segments, st), st.registry))
    ensures reason.StringArg? && out.Raised? ==> out.error.Conflict? && out.error.requested == Ignore
    ensures out.Completed? ==>
              CompletedEffect(st, out.state, Matches(routes, segments, st), IgnoreIntent(reason), map[], poc)
  {
    var t := IgnoreIntent(reason);
    assert KindOf(t) == Ignore && t.IgnoreIntent? && (BadReason(t) <==> !reason.StringArg?);
    ExclusiveCompletes(routes, segments, scope, t, poc, st);
    CompletedLog(routes, segments, scope, t, poc, st);
    CompletedMarks(routes, segments, scope, t, poc, st);
    Perform(routes, segments, scope, t, poc, st)
  }

  const CoveredReason := "this is already covered by a non-aygabtu feature"

  /** `covered!`: `ignore` with a fixed String reason, so it never fails the
      argument check. */
  function Covered(routes: seq<Route>, segments: seq<Segment>, scope: Scope,
                   poc: PointOfCall, st: State): (out: Outcome)
    requires |st.registry| == |routes|
    ensures RegistryGrows(st.registry, out.state.registry)
    ensures AllConsistent(st.registry) ==> AllConsistent(out.state.registry)
    ensures out.Completed? <==> ExclusiveUnblocked(Matches(routes, segments, st), st.registry)
    ensures out.Raised? ==> out.error.Conflict? && out.error.requested == Ignore
    ensures out.Completed? ==>
              CompletedEffect(st, out.state, Matches(routes, segments, st),
                              IgnoreIntent(StringArg(CoveredReason)), map[], poc)
  {
    IgnoreAll(routes, segments, scope, StringArg(CoveredReason), poc, st)
  }

  /** `pend(reason)`: one diagnostic per empty segment, then a pend mark and a
      pending example carrying the reason per (segment, matched route) pair.
      The reason is passed on unchecked. */
  function PendAll(routes: seq<Route>, segments: seq<Segment>, scope: Scope,
                   reason: Argument, poc: PointOfCall, st: State): (out: Outcome)
    requires |st.registry| == |routes|
    ensures RegistryGrows(st.registry, out.state.registry)
    ensures AllConsistent(st.registry) ==> AllConsistent(out.state.registry)
    ensures out.Completed? <==> ExclusiveUnblocked(Matches(routes, segments, st), st.registry)
    ensures out.Raised? ==> out.error.Conflict? && out.error.requested == Pend
    ensures out.Completed? ==>
              CompletedEffect(st, out.state, Matches(routes, segments, st), PendIntent(reason), map[], poc)
  {
    var t := PendIntent(reason);
    assert KindOf(t) == Pend && t.reason == reason && !t.IgnoreIntent? && !BadReason(t);
    ExclusiveCompletes(routes, segments, scope, t, poc, st);
    CompletedLog(routes, segments, scope, t, poc, st);
    CompletedMarks(routes, segments, scope, t, poc, st);
    Perform(routes, segments, scope, t, poc, st)
  }

  /** The terminal actions the scope DSL exposes (`ScopeActor.actions`). */
  datatype DslAction = VisitWithAction | VisitAction | PendAction | IgnoreAction | CoveredAction

  /** The terminal actions, in the order the DSL registers them. */
  function Actions(): seq<DslAction> {
    [VisitWithAction, VisitAction, PendAction, IgnoreAction, CoveredAction]
  }

  /** A terminal action as a scope invokes it, with its argument. */
  datatype ActionCall =
    | VisitWithCall(visitingData: VisitingData)
    | VisitCall
    | PendCall(pendReason: Argument)
    | IgnoreCall(ignoreReason: Argument)
    | CoveredCall

  /** The DSL name a call goes by. */
  function NameOf(c: ActionCall): DslAction {
    match c
    case VisitWithCall(_) => VisitWithAction
    case VisitCall => VisitAction
    case PendCall(_) => PendAction
    case IgnoreCall(_) => IgnoreAction
    case CoveredCall => CoveredAction
  }

  /** The kind of mark a call records. */
  function RecordedKind(c: ActionCall): Action {
    match c
    case VisitWithCall(_) => Visit
    case VisitCall => Visit
    case PendCall(_) => Pend
    case IgnoreCall(_) => Ignore
    case CoveredCall => Ignore
  }

  /** Runs the scope actor method a call names. */
  function Dispatch(c: ActionCall, routes: seq<Route>, segments: seq<Segment>, scope: Scope,
                    poc: PointOfCall, st: State): (out: Outcome)
    requires |st.registry| == |routes|
    ensures RegistryGrows(st.registry, out.state.registry)
    ensures AllConsistent(st.registry) ==> AllConsistent(out.state.registry)
    ensures out.Raised? && out.error.Conflict? ==> out.error.requested == RecordedKind(c)
    ensures out.Raised? && !out.error.Conflict? ==> c.IgnoreCall? && !c.ignoreReason.StringArg?
  {
    match c
    case VisitWithCall(data) => VisitWith(routes, segments, scope, data, poc, st)
    case VisitCall => VisitAll(routes, segments, scope, poc, st)
    case PendCall(reason) => PendAll(routes, segments, scope, reason, poc, st)
    case IgnoreCall(reason) => IgnoreAll(routes, segments, scope, reason, poc, st)
    case CoveredCall => Covered(routes, segments, scope, poc, st)
  }

  /** `visit` is `visit_with` given no visiting data. */
  lemma VisitDispatchesToVisitWith(routes: seq<Route>, segments: seq<Segment>, scope: Scope,
                                   poc: PointOfCall, st: State)
    requires |st.registry| == |routes|
    ensures Dispatch(VisitCall, routes, segments, scope, poc, st)
              == Dispatch(VisitWithCall(map[]), routes, segments, scope, poc, st)
  {
  }

  /** `covered!` is `ignore` with the fixed reason. */
  lemma CoveredDispatchesToIgnore(routes: seq<Route>, segments: seq<Segment>, scope: Scope,
                                  poc: PointOfCall, st: State)
    requires |st.registry| == |routes|
    ensures Dispatch(CoveredCall, routes, segments, scope, poc, st)
              == Dispatch(IgnoreCall(StringArg(CoveredReason)), routes, segments, scope, poc, st)
  {
  }

  /** Every call goes by a listed name, and every listed name has a call. */
  lemma ActionsComplete()
    ensures forall c: ActionCall :: NameOf(c) in Actions()
    ensures forall a :: a in Actions() ==> exists c: ActionCall :: NameOf(c) == a
    ensures forall k, l :: 0 <= k < l < |Actions()| ==> Actions()[k] != Actions()[l]
  {
    var r := Actions();
    forall c: ActionCall ensures NameOf(c) in r {
      match c
      case VisitWithCall(_) => assert r[0] == NameOf(c);
      case VisitCall => assert r[1] == NameOf(c);
      case PendCall(_) => assert r[2] == NameOf(c);
      case IgnoreCall(_) => assert r[3] == NameOf(c);
      case CoveredCall => assert r[4] == NameOf(c);
    }
    forall a | a in r ensures exists c: ActionCall :: NameOf(c) == a {
      match a
      case VisitWithAction => assert NameOf(VisitWithCall(map[])) == a;
      case VisitAction => assert NameOf(VisitCall) == a;
      case PendAction => assert NameOf(PendCall(OtherArg)) == a;
      case IgnoreAction => assert NameOf(IgnoreCall(OtherArg)) == a;
      case CoveredAction => assert NameOf(CoveredCall) == a;
    }
  }
}
