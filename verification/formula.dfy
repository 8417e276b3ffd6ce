/** The CTL formula tree shared by every checker generation. */
module Formulas {

  /** Comparison of a `FloatProposition` against its threshold. */
  datatype Cmp = Lt | Le | Gt | Ge | Eq | Neq

  /** Which neighbour a `DirectionProposition` looks at. */
  datatype Facet = Positive | Negative

  /** Whether a `DirectionProposition` reads incoming or outgoing edges. */
  datatype Direction = In | Out

  datatype Op =
    | Negation | And | Or
    | ExistsNext | AllNext
    | ExistsUntil | AllUntil
    | ExistsFuture | AllFuture
    | ExistsGlobal | AllGlobal

  /** A formula is a proposition or an operator applied to an ordered list of sub-formulas. */
  datatype Formula =
    | FloatProp(variable: string, cmp: Cmp, threshold: real)
    | Tautology
    | Contradiction
    | DirectionProp(dirVariable: string, facet: Facet, direction: Direction)
    | Apply(op: Op, subs: seq<Formula>)
  {
    predicate IsProposition() { !Apply? }

    /** `getSubFormulaAt(i)`; a proposition has no sub-formulas. */
    function Sub(i: nat): Formula
      requires Apply? && i < |subs|
    {
      subs[i]
    }
  }

  function Unary(op: Op, a: Formula): Formula { Apply(op, [a]) }

  function Binary(op: Op, a: Formula, b: Formula): Formula { Apply(op, [a, b]) }

  /** An operator application with at least the sub-formulas its operator reads. */
  predicate WellFormed(f: Formula)
  {
    match f
    case Apply(op, subs) =>
      (op in {Negation, ExistsNext, AllNext, ExistsFuture, AllFuture, ExistsGlobal, AllGlobal} ==> |subs| >= 1) &&
      (op in {And, Or, ExistsUntil, AllUntil} ==> |subs| >= 2) &&
      forall i | 0 <= i < |subs| :: WellFormed(subs[i])
    case _ => true
  }

  /** `g` is `f` or occurs inside it. */
  predicate Occurs(g: Formula, f: Formula)
    decreases f
  {
    g == f || (f.Apply? && exists i | 0 <= i < |f.subs| :: Occurs(g, f.subs[i]))
  }

  lemma OccursInOperand(g: Formula, f: Formula, k: nat)
    requires f.Apply? && k < |f.subs| && Occurs(g, f.subs[k])
    ensures Occurs(g, f)
  {
  }
}
