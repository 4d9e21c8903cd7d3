/**
  Scope segments and the routes they match, as the scope actor iterates them
  (lib/aygabtu/scope_actor.rb, `segments_generators_routes`,
  `each_empty_scope_segment` and `each_scope_segment_and_route`).

  How a scope decomposes into segments and what each segment tests is scope
  composition code that is not part of this model; a segment is therefore an
  opaque predicate over a route and that route's current registry (the
  registry argument is what lets a "remaining" segment depend on earlier
  marks).
*/
module Segments {
  import opened RouteWrapper
  import opened Marks

  /** One segment of a scope: `segment.matches_route?(route)`. */
  datatype Segment = Segment(matchesRoute: (Route, RouteMarks) -> bool)

  predicate Increasing(s: seq<nat>) {
    forall k, l :: 0 <= k < l < |s| ==> s[k] < s[l]
  }

  /** The indices from `lo` on of the routes `seg` matches, in route order. */
  function SelectFrom(seg: Segment, routes: seq<Route>, reg: Registry, lo: nat): (r: seq<nat>)
    requires |reg| == |routes| && lo <= |routes|
    decreases |routes| - lo
    ensures forall k :: 0 <= k < |r| ==> lo <= r[k] < |routes|
    ensures forall k :: 0 <= k < |r| ==> seg.matchesRoute(routes[r[k]], reg[r[k]])
    ensures forall i :: lo <= i < |routes| && seg.matchesRoute(routes[i], reg[i]) ==> i in r
    ensures Increasing(r)
  {
    if lo == |routes| then []
    else if seg.matchesRoute(routes[lo], reg[lo]) then [lo] + SelectFrom(seg, routes, reg, lo + 1)
    else SelectFrom(seg, routes, reg, lo + 1)
  }

  /** The routes the segment matches, in route order: exactly the matching
      routes, each once. */
  function MatchingRoutes(seg: Segment, routes: seq<Route>, reg: Registry): (r: seq<nat>)
    requires |reg| == |routes|
    ensures forall i :: i in r <==> 0 <= i < |routes| && seg.matchesRoute(routes[i], reg[i])
    ensures Increasing(r)
  {
    SelectFrom(seg, routes, reg, 0)
  }

  /** The matches of every segment, one list per segment in segment order. */
  predicate WellFormedMatches(m: seq<seq<nat>>, n: nat) {
    && (forall j, k :: 0 <= j < |m| && 0 <= k < |m[j]| ==> m[j][k] < n)
    && (forall j :: 0 <= j < |m| ==> Increasing(m[j]))
  }

  /** `segments_generators_routes`: each segment's matching routes, computed
      once against the registry given. */
  function SegmentRoutes(segments: seq<Segment>, routes: seq<Route>, reg: Registry): (m: seq<seq<nat>>)
    requires |reg| == |routes|
    ensures |m| == |segments|
    ensures forall j :: 0 <= j < |m| ==> m[j] == MatchingRoutes(segments[j], routes, reg)
    ensures WellFormedMatches(m, |routes|)
  {
    var m := seq(|segments|, j requires 0 <= j < |segments| => MatchingRoutes(segments[j], routes, reg));
    assert forall j, k :: 0 <= j < |m| && 0 <= k < |m[j]| ==> m[j][k] in m[j];
    m
  }

  /** (segment, route) is lexicographically before (segment', route'). */
  predicate Before(p: (nat, nat), q: (nat, nat)) {
    p.0 < q.0 || (p.0 == q.0 && p.1 < q.1)
  }

  /** The (segment, route) pairs of segments `lo` and later. */
  function PairsFrom(m: seq<seq<nat>>, lo: nat): (r: seq<(nat, nat)>)
    requires lo <= |m|
    decreases |m| - lo
    ensures forall k :: 0 <= k < |r| ==> lo <= r[k].0 < |m| && r[k].1 in m[r[k].0]
    ensures forall j, x :: lo <= j < |m| && x in m[j] ==> (j, x) in r
    ensures (forall j :: lo <= j < |m| ==> Increasing(m[j])) ==>
              forall k, l :: 0 <= k < l < |r| ==> Before(r[k], r[l])
  {
    if lo == |m| then []
    else
      var row := seq(|m[lo]|, k requires 0 <= k < |m[lo]| => (lo, m[lo][k]));
      var rest := PairsFrom(m, lo + 1);
      assert forall x :: x in m[lo] ==> (lo, x) in row by {
        forall x | x in m[lo] ensures (lo, x) in row {
          var k :| 0 <= k < |m[lo]| && m[lo][k] == x;
          assert row[k] == (lo, x);
        }
      }
      row + rest
  }

  /** `each_scope_segment_and_route`: every (segment, matched route) pair, in
      segment-then-route order; a route matched by two segments occurs twice. */
  function Pairs(m: seq<seq<nat>>): (r: seq<(nat, nat)>)
    ensures forall k :: 0 <= k < |r| ==> r[k].0 < |m| && r[k].1 in m[r[k].0]
    ensures forall j, x :: 0 <= j < |m| && x in m[j] ==> (j, x) in r
    ensures (forall j :: 0 <= j < |m| ==> Increasing(m[j])) ==>
              forall k, l :: 0 <= k < l < |r| ==> Before(r[k], r[l])
  {
    PairsFrom(m, 0)
  }

  /** The route of every pair is a valid route index. */
  predicate RoutesBelow(pairs: seq<(nat, nat)>, n: nat) {
    forall k :: 0 <= k < |pairs| ==> pairs[k].1 < n
  }

  lemma PairsRoutesBelow(m: seq<seq<nat>>, n: nat)
    requires WellFormedMatches(m, n)
    ensures RoutesBelow(Pairs(m), n)
  {
    var p := Pairs(m);
    forall k | 0 <= k < |p| ensures p[k].1 < n {
      var j := p[k].0;
      var x :| 0 <= x < |m[j]| && m[j][x] == p[k].1;
    }
  }
}
