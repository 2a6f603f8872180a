/** What the metadata schemata share: the validation report and the line
    rule of `TextLine` fields. */
module Schemata {
  import opened Wrappers

  /** One entry of a validation report: a field whose own constraints fail,
      or an invariant that raised its error. */
  datatype Problem<F, E> = Faulty(field: F) | Invalid(error: E)

  /** The line rule of a `TextLine` field: no line breaks. A field given
      its own `constraint` replaces this rule rather than adding to it. */
  predicate IsTextLine(s: string) {
    '\n' !in s && '\r' !in s
  }

  /** The report entry an invariant's outcome contributes. */
  function InvariantProblems<F(==), E(==)>(o: Outcome<E>): (ps: set<Problem<F, E>>)
    ensures o.Pass? ==> ps == {}
    ensures o.Fail? ==> ps == {Invalid(o.error)}
  {
    if o.Fail? then {Invalid(o.error)} else {}
  }
}
