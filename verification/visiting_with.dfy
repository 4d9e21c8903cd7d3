/**
  Visiting data and `Scope::VisitingWith` (lib/aygabtu/scope/visiting_with.rb).

  Visiting data maps a URL parameter name to the value used when a generated
  example visits the route: a literal, or the name of a method called in the
  example to produce the value (`segment2: :dynamic_segment`).  A scope is a
  record of data entries; `visiting_with` returns a new record of the same
  class whose `:visiting_data` entry is the old visiting data merged with the
  argument.
*/
module VisitingWith {
  import opened Wrappers

  /** One visiting value: a literal, or a deferred method name. */
  datatype VisitValue = Literal(text: string) | Deferred(methodName: string)

  type VisitingData = map<string, VisitValue>

  /** Ruby's `Hash#merge`: every key of either side, the right side winning. */
  function Merge(base: VisitingData, pass: VisitingData): (r: VisitingData)
    ensures r.Keys == base.Keys + pass.Keys
    ensures forall k :: k in pass ==> r[k] == pass[k]
    ensures forall k :: k in base && k !in pass ==> r[k] == base[k]
  {
    base + pass
  }

  lemma MergeIdentity(a: VisitingData)
    ensures Merge(a, map[]) == a
    ensures Merge(map[], a) == a
  {
  }

  lemma MergeAssociative(a: VisitingData, b: VisitingData, c: VisitingData)
    ensures Merge(Merge(a, b), c) == Merge(a, Merge(b, c))
  {
  }

  /** Merging the same base in again changes nothing: the base's keys are
      already present and the right side still wins. */
  lemma MergeAbsorbs(a: VisitingData, b: VisitingData)
    ensures Merge(a, Merge(a, b)) == Merge(a, b)
  {
  }

  /** A scope's data entries other than `:visiting_data`; their values are
      opaque here. */
  datatype Datum = Datum(token: nat)

  /** A scope record: its class, its `:visiting_data` entry if present, and its
      other entries by key. */
  datatype Scope = Scope(
    scopeClass: nat,
    visitingEntry: Option<VisitingData>,
    otherEntries: map<string, Datum>
  )

  /** The `visiting_data` reader: the entry, or no data at all. */
  function VisitingDataOf(s: Scope): VisitingData {
    s.visitingEntry.GetOr(map[])
  }

  /** `visiting_with(pass_data)`: a new scope of the same class whose visiting
      data is the receiver's merged with `pass_data`, `pass_data` winning; every
      other entry is copied unchanged.  The receiver is a value and stays as it
      was. */
  function VisitingWith(s: Scope, passData: VisitingData): (r: Scope)
    ensures r.scopeClass == s.scopeClass
    ensures r.otherEntries == s.otherEntries
    ensures r.visitingEntry.Some?
    ensures VisitingDataOf(r).Keys == VisitingDataOf(s).Keys + passData.Keys
    ensures forall k :: k in passData ==> VisitingDataOf(r)[k] == passData[k]
    ensures forall k :: k in VisitingDataOf(s) && k !in passData ==>
              VisitingDataOf(r)[k] == VisitingDataOf(s)[k]
  {
    s.(visitingEntry := Some(Merge(VisitingDataOf(s), passData)))
  }

  /** Passing no data keeps the visiting data, and a scope that already has a
      `:visiting_data` entry comes back identical. */
  lemma VisitingWithNothing(s: Scope)
    ensures VisitingDataOf(VisitingWith(s, map[])) == VisitingDataOf(s)
    ensures s.visitingEntry.Some? ==> VisitingWith(s, map[]) == s
  {
    MergeIdentity(VisitingDataOf(s));
  }

  /** Two `visiting_with` calls in a row equal one call with the merged data. */
  lemma VisitingWithChain(s: Scope, a: VisitingData, b: VisitingData)
    ensures VisitingWith(VisitingWith(s, a), b) == VisitingWith(s, Merge(a, b))
  {
    MergeAssociative(VisitingDataOf(s), a, b);
  }
}
