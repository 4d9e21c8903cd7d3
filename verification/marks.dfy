/**
  The per-route mark registry kept by the scope actor
  (lib/aygabtu/scope_actor.rb, `mark_route` and `route_action_valid?`).

  Every route carries a table from mark kind to the points of call that applied
  that kind, plus a `touched` flag.  Visits may pile up; an ignore or a pend is
  accepted only on a route carrying no mark at all, and nothing can be added
  after one.
*/
module Marks {

  /** The kinds of mark recorded on a route (`covered!` records `Ignore`). */
  datatype Action = Visit | Ignore | Pend

  /** The captured declaration site of a marking call, kept opaque. */
  datatype PointOfCall = PointOfCall(site: nat)

  type MarkTable = map<Action, seq<PointOfCall>>

  datatype RouteMarks = RouteMarks(marks: MarkTable, touched: bool)

  /** The registry every route starts with. */
  const Unmarked := RouteMarks(map[], false)

  /** The points of call recorded for `a`; a missing key reads as empty. */
  function Calls(m: MarkTable, a: Action): seq<PointOfCall> {
    if a in m then m[a] else []
  }

  /** Some mark of any kind is recorded. */
  predicate Used(m: MarkTable) {
    Calls(m, Visit) != [] || Calls(m, Ignore) != [] || Calls(m, Pend) != []
  }

  /** `route_action_valid?`: every list on the route must be empty, except that
      a visit does not look at earlier visits. */
  predicate ActionValid(m: MarkTable, a: Action) {
    forall b :: b in m && !(a == Visit && b == Visit) ==> m[b] == []
  }

  /** The exclusivity rule spelt out kind by kind: a visit is blocked only by an
      ignore or a pend; an ignore or a pend is blocked by any mark, visits
      included. */
  lemma ActionValidRule(m: MarkTable, a: Action)
    ensures ActionValid(m, a) <==>
              if a == Visit then Calls(m, Ignore) == [] && Calls(m, Pend) == []
              else !Used(m)
  {
    if a == Visit && Calls(m, Ignore) == [] && Calls(m, Pend) == [] {
      forall b | b in m && b != Visit ensures m[b] == [] {
        assert b == Ignore || b == Pend;
      }
    }
    if a != Visit && !Used(m) {
      forall b | b in m ensures m[b] == [] {
        assert Calls(m, b) == m[b];
        assert b == Visit || b == Ignore || b == Pend;
      }
    }
  }

  /** No ignore and no pend is recorded, so a visit is still accepted. */
  predicate VisitOpen(rm: RouteMarks) {
    Calls(rm.marks, Ignore) == [] && Calls(rm.marks, Pend) == []
  }

  /** The order Visit, Ignore, Pend in which a conflict looks for an earlier
      action. */
  predicate Precedes(a: Action, b: Action) {
    (a.Visit? && !b.Visit?) || (a.Ignore? && b.Pend?)
  }

  /** The action a rejected mark reports: the first kind, in the order Visit,
      Ignore, Pend, whose list is non-empty. */
  function FirstUsed(m: MarkTable): (a: Action)
    requires Used(m)
    ensures Calls(m, a) != []
    ensures forall b :: Precedes(b, a) ==> Calls(m, b) == []
  {
    if Calls(m, Visit) != [] then Visit
    else if Calls(m, Ignore) != [] then Ignore
    else Pend
  }

  /** The outcome of one `mark_route`: the route's new registry, or the earlier
      action and its points of call that make the mark invalid. */
  datatype Marking = Marked(after: RouteMarks) | Rejected(previous: Action, calls: seq<PointOfCall>)

  /** `mark_route` on one route. */
  function MarkRoute(rm: RouteMarks, a: Action, poc: PointOfCall): (r: Marking)
    ensures r.Marked? <==> ActionValid(rm.marks, a)
    ensures r.Marked? ==> r.after.touched
    ensures r.Marked? ==> Calls(r.after.marks, a) == Calls(rm.marks, a) + [poc]
    ensures r.Marked? ==> forall b :: b != a ==> Calls(r.after.marks, b) == Calls(rm.marks, b)
    ensures r.Rejected? ==> r.calls != [] && r.calls == Calls(rm.marks, r.previous)
    ensures r.Rejected? ==> forall b :: Precedes(b, r.previous) ==> Calls(rm.marks, b) == []
  {
    if ActionValid(rm.marks, a) then
      Marked(RouteMarks(rm.marks[a := Calls(rm.marks, a) + [poc]], true))
    else
      ActionValidRule(rm.marks, a);
      var prev := FirstUsed(rm.marks);
      Rejected(prev, Calls(rm.marks, prev))
  }

  /** The invariant every route's registry keeps: at most one ignore-or-pend
      mark in all, no visit beside it, and `touched` exactly when some mark is
      recorded. */
  predicate Consistent(rm: RouteMarks) {
    var v, i, p := Calls(rm.marks, Visit), Calls(rm.marks, Ignore), Calls(rm.marks, Pend);
    && |i| + |p| <= 1
    && (i != [] || p != [] ==> v == [])
    && (rm.touched <==> Used(rm.marks))
  }

  /** Exclusivity both ways round: a consistent route never carries a visit
      together with an ignore or a pend, nor an ignore together with a pend. */
  lemma ConsistentIsExclusive(rm: RouteMarks)
    requires Consistent(rm)
    ensures !(Calls(rm.marks, Visit) != [] && Calls(rm.marks, Ignore) != [])
    ensures !(Calls(rm.marks, Visit) != [] && Calls(rm.marks, Pend) != [])
    ensures !(Calls(rm.marks, Ignore) != [] && Calls(rm.marks, Pend) != [])
  {
  }

  /** `mark_route` keeps a route consistent, and on a consistent route a
      rejection names the one kind that is recorded. */
  lemma MarkRoutePreservesConsistent(rm: RouteMarks, a: Action, poc: PointOfCall)
    requires Consistent(rm)
    ensures MarkRoute(rm, a, poc).Marked? ==> Consistent(MarkRoute(rm, a, poc).after)
    ensures MarkRoute(rm, a, poc).Rejected? ==>
              forall b :: Calls(rm.marks, b) != [] ==> b == MarkRoute(rm, a, poc).previous
  {
    ActionValidRule(rm.marks, a);
    var r := MarkRoute(rm, a, poc);
    if r.Marked? {
      assert Calls(r.after.marks, Visit) == Calls(rm.marks, Visit) || a == Visit;
      assert Calls(r.after.marks, Ignore) == Calls(rm.marks, Ignore) || a == Ignore;
      assert Calls(r.after.marks, Pend) == Calls(rm.marks, Pend) || a == Pend;
    }
  }

  /** A route's registry only grows: every list is extended at its end, and a
      touched route stays touched. */
  predicate Grows(rm: RouteMarks, rm': RouteMarks) {
    && (rm.touched ==> rm'.touched)
    && Calls(rm.marks, Visit) <= Calls(rm'.marks, Visit)
    && Calls(rm.marks, Ignore) <= Calls(rm'.marks, Ignore)
    && Calls(rm.marks, Pend) <= Calls(rm'.marks, Pend)
  }

  lemma MarkRouteGrows(rm: RouteMarks, a: Action, poc: PointOfCall)
    ensures MarkRoute(rm, a, poc).Marked? ==> Grows(rm, MarkRoute(rm, a, poc).after)
  {
  }

  /** A marked route never becomes unmarked again. */
  lemma GrowsKeepsUsed(rm: RouteMarks, rm': RouteMarks)
    requires Grows(rm, rm')
    ensures Used(rm.marks) ==> Used(rm'.marks)
    ensures rm.touched ==> rm'.touched
  {
    assert Calls(rm.marks, Visit) != [] ==> Calls(rm'.marks, Visit)[0] == Calls(rm.marks, Visit)[0];
    assert Calls(rm.marks, Ignore) != [] ==> Calls(rm'.marks, Ignore)[0] == Calls(rm.marks, Ignore)[0];
    assert Calls(rm.marks, Pend) != [] ==> Calls(rm'.marks, Pend)[0] == Calls(rm.marks, Pend)[0];
  }

  /** The registries of all routes, indexed like the route list. */
  type Registry = seq<RouteMarks>

  function Fresh(n: nat): (reg: Registry)
    ensures |reg| == n && forall i :: 0 <= i < n ==> reg[i] == Unmarked
  {
    seq(n, i => Unmarked)
  }

  predicate AllConsistent(reg: Registry) {
    forall i :: 0 <= i < |reg| ==> Consistent(reg[i])
  }

  predicate RegistryGrows(reg: Registry, reg': Registry) {
    |reg| == |reg'| && forall i :: 0 <= i < |reg| ==> Grows(reg[i], reg'[i])
  }

  lemma FreshIsConsistent(n: nat)
    ensures AllConsistent(Fresh(n))
  {
  }

  lemma RegistryGrowsTransitive(r1: Registry, r2: Registry, r3: Registry)
    requires RegistryGrows(r1, r2) && RegistryGrows(r2, r3)
    ensures RegistryGrows(r1, r3)
  {
  }

  /** `n` copies of one point of call. */
  function Repeat(poc: PointOfCall, n: nat): (s: seq<PointOfCall>)
    ensures |s| == n
    ensures forall k :: 0 <= k < n ==> s[k] == poc
  {
    if n == 0 then [] else [poc] + Repeat(poc, n - 1)
  }

  /** A route's registry after `n` accepted marks of kind `a` at `poc`. */
  function Stamp(rm: RouteMarks, a: Action, poc: PointOfCall, n: nat): (r: RouteMarks)
    ensures Calls(r.marks, a) == Calls(rm.marks, a) + Repeat(poc, n)
    ensures forall b :: b != a ==> Calls(r.marks, b) == Calls(rm.marks, b)
    ensures r.touched == (rm.touched || n > 0)
  {
    if n == 0 then rm
    else RouteMarks(rm.marks[a := Calls(rm.marks, a) + Repeat(poc, n)], true)
  }

  /** One accepted mark followed by `n` more is `n + 1` marks. */
  lemma StampAfterMark(rm: RouteMarks, a: Action, poc: PointOfCall, n: nat)
    requires MarkRoute(rm, a, poc).Marked?
    ensures Stamp(MarkRoute(rm, a, poc).after, a, poc, n) == Stamp(rm, a, poc, n + 1)
  {
    var after := MarkRoute(rm, a, poc).after;
    assert Repeat(poc, n + 1) == [poc] + Repeat(poc, n);
    assert Calls(rm.marks, a) + [poc] + Repeat(poc, n) == Calls(rm.marks, a) + Repeat(poc, n + 1);
    if n == 0 {
      assert Repeat(poc, 1) == [poc];
    }
  }
}
