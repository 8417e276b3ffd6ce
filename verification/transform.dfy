/**
 * The rewrite the ODE frontend applies to a parameter constraint before handing it to the
 * solver: negations are pushed down to comparisons and every strict comparison is relaxed
 * to a non-strict one, so the result only weakens the constraint.
 */
module OdeFormula {
  import opened Wrappers

  /** An arithmetic operand of a comparison. */
  datatype Term = Var(name: string) | Num(value: real)

  /** The Boolean expressions the rewrite distinguishes. */
  datatype Expr =
    | Atom(name: string)
    | True
    | False
    | Gt(left: Term, right: Term)
    | Lt(left: Term, right: Term)
    | Ge(left: Term, right: Term)
    | Le(left: Term, right: Term)
    | And(args: seq<Expr>)
    | Or(args: seq<Expr>)
    | Not(arg: Expr)

  // ---------------------------------------------------------------- the rewrite

  /**
   * `transform`: an unnegated strict comparison is relaxed, conjunction and disjunction
   * are mapped argument by argument, a negation is pushed inwards, and anything else is
   * returned as it is.
   */
  function Transform(e: Expr): (r: Result<Expr>)
    decreases e, 1
  {
    match e
    case Not(inner) => Negated(inner)
    case Gt(a, b) => Ok(Ge(a, b))
    case Lt(a, b) => Ok(Le(a, b))
    case And(cs) =>
      var ts :- TransformAll(cs, 0, false);
      Ok(And(ts))
    case Or(cs) =>
      var ts :- TransformAll(cs, 0, false);
      Ok(Or(ts))
    case _ => Ok(e)
  }

  /**
   * The rewrite of `Not(inner)`: a negated comparison becomes the non-strict opposite,
   * a negated conjunction or disjunction the dual over the negated arguments, a double
   * negation the rewrite of its argument, and a negated truth value the other one. A
   * negated atom fails with IllegalState.
   */
  function Negated(inner: Expr): (r: Result<Expr>)
    decreases inner, 0
  {
    match inner
    case Gt(a, b) => Ok(Le(a, b))
    case Lt(a, b) => Ok(Ge(a, b))
    case Ge(a, b) => Ok(Le(a, b))
    case Le(a, b) => Ok(Ge(a, b))
    case And(cs) =>
      var ts :- TransformAll(cs, 0, true);
      Ok(Or(ts))
    case Or(cs) =>
      var ts :- TransformAll(cs, 0, true);
      Ok(And(ts))
    case Not(a) => Transform(a)
    case True => Ok(False)
    case False => Ok(True)
    case Atom(_) => Err(IllegalState)
  }

  /** The rewrites of `cs[k..]`, each negated first when `negate` holds; the first failure wins. */
  function TransformAll(cs: seq<Expr>, k: nat, negate: bool): (r: Result<seq<Expr>>)
    requires k <= |cs|
    decreases cs, 2, |cs| - k
    ensures r.Ok? ==> |r.value| == |cs| - k
  {
    if k == |cs| then Ok([])
    else
      var first :- if negate then Negated(cs[k]) else Transform(cs[k]);
      var rest :- TransformAll(cs, k + 1, negate);
      Ok([first] + rest)
  }

  // ---------------------------------------------------------------- what the rewrite promises

  /** No negation and no strict comparison anywhere in `e`. */
  predicate Relaxed(e: Expr)
  {
    match e
    case Not(_) => false
    case Gt(_, _) => false
    case Lt(_, _) => false
    case And(cs) => forall i | 0 <= i < |cs| :: Relaxed(cs[i])
    case Or(cs) => forall i | 0 <= i < |cs| :: Relaxed(cs[i])
    case _ => true
  }

  /** An atom sits under an odd number of negations, so pushing them down cannot remove them. */
  predicate NegatedAtom(e: Expr, negative: bool)
  {
    match e
    case Atom(_) => negative
    case Not(a) => NegatedAtom(a, !negative)
    case And(cs) => exists i | 0 <= i < |cs| :: NegatedAtom(cs[i], negative)
    case Or(cs) => exists i | 0 <= i < |cs| :: NegatedAtom(cs[i], negative)
    case _ => false
  }

  function TermValue(t: Term, env: string -> real): real
  {
    match t
    case Var(x) => env(x)
    case Num(v) => v
  }

  /** The truth of `e` when variables take the values of `env` and atoms those of `atoms`. */
  predicate Eval(e: Expr, env: string -> real, atoms: string -> bool)
  {
    match e
    case Atom(p) => atoms(p)
    case True => true
    case False => false
    case Gt(a, b) => TermValue(a, env) > TermValue(b, env)
    case Lt(a, b) => TermValue(a, env) < TermValue(b, env)
    case Ge(a, b) => TermValue(a, env) >= TermValue(b, env)
    case Le(a, b) => TermValue(a, env) <= TermValue(b, env)
    case And(cs) => forall i | 0 <= i < |cs| :: Eval(cs[i], env, atoms)
    case Or(cs) => exists i | 0 <= i < |cs| :: Eval(cs[i], env, atoms)
    case Not(a) => !Eval(a, env, atoms)
  }

  /**
   * The rewrite fails exactly on a negated atom, with IllegalState; otherwise its result
   * is relaxed and is implied by the input under every valuation.
   */
  lemma {:induction false} TransformSound(e: Expr, env: string -> real, atoms: string -> bool)
    decreases e, 1
    ensures Transform(e).Err? <==> NegatedAtom(e, false)
    ensures Transform(e).Err? ==> Transform(e).error == IllegalState
    ensures Transform(e).Ok? ==> Relaxed(Transform(e).value)
    ensures Transform(e).Ok? && Eval(e, env, atoms) ==> Eval(Transform(e).value, env, atoms)
  {
    match e
    case Not(inner) => NegatedSound(inner, env, atoms);
    case And(cs) => TransformAllSound(cs, 0, false, env, atoms);
    case Or(cs) =>
      TransformAllSound(cs, 0, false, env, atoms);
      var r := TransformAll(cs, 0, false);
      if r.Ok? && Eval(e, env, atoms) {
        var i :| 0 <= i < |cs| && Eval(cs[i], env, atoms);
        assert Eval(r.value[i], env, atoms);
      }
    case _ =>
  }

  /** The same for the rewrite of a negation: the output is implied by the negated input. */
  lemma {:induction false} NegatedSound(inner: Expr, env: string -> real, atoms: string -> bool)
    decreases inner, 0
    ensures Negated(inner).Err? <==> NegatedAtom(inner, true)
    ensures Negated(inner).Err? ==> Negated(inner).error == IllegalState
    ensures Negated(inner).Ok? ==> Relaxed(Negated(inner).value)
    ensures Negated(inner).Ok? && !Eval(inner, env, atoms) ==> Eval(Negated(inner).value, env, atoms)
  {
    match inner
    case And(cs) =>
      TransformAllSound(cs, 0, true, env, atoms);
      var r := TransformAll(cs, 0, true);
      if r.Ok? && !Eval(inner, env, atoms) {
        var i :| 0 <= i < |cs| && !Eval(cs[i], env, atoms);
        assert Eval(r.value[i], env, atoms);
      }
    case Or(cs) => TransformAllSound(cs, 0, true, env, atoms);
    case Not(a) => TransformSound(a, env, atoms);
    case _ =>
  }

  lemma {:induction false} TransformAllSound(cs: seq<Expr>, k: nat, negate: bool, env: string -> real, atoms: string -> bool)
    requires k <= |cs|
    decreases cs, 2, |cs| - k
    ensures TransformAll(cs, k, negate).Err? <==> exists i | k <= i < |cs| :: NegatedAtom(cs[i], negate)
    ensures TransformAll(cs, k, negate).Err? ==> TransformAll(cs, k, negate).error == IllegalState
    ensures TransformAll(cs, k, negate).Ok? ==>
      var ts := TransformAll(cs, k, negate).value;
      forall i | 0 <= i < |ts| ::
        Relaxed(ts[i]) &&
        (negate && !Eval(cs[k + i], env, atoms) ==> Eval(ts[i], env, atoms)) &&
        (!negate && Eval(cs[k + i], env, atoms) ==> Eval(ts[i], env, atoms))
  {
    if k < |cs| {
      if negate {
        NegatedSound(cs[k], env, atoms);
      } else {
        TransformSound(cs[k], env, atoms);
      }
      TransformAllSound(cs, k + 1, negate, env, atoms);
    }
  }
}
