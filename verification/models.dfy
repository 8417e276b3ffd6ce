/** `Model`: the variable (state-space) ranges and parameter ranges of one ODE model. */
module Models {
  import opened TreeColorSet

  /**
   * `universe` is the finite set of parameter values colour sets range over: a parameter
   * range denotes the universe values it contains.
   */
  datatype Model = Model(variableRange: seq<Range>, parameterRange: seq<Range>, universe: set<real>)

  function VariableCount(m: Model): nat { |m.variableRange| }

  function ParameterCount(m: Model): nat { |m.parameterRange| }

  /** `getFullColorSet`: one dimension per parameter, dimension `i` being parameter range `i`. */
  function FullColorSet(m: Model): (r: ColorSet)
    ensures |r| == ParameterCount(m)
    ensures forall i | 0 <= i < |r| :: r[i] == Denote(m.universe, m.parameterRange[i])
  {
    seq(ParameterCount(m), i requires 0 <= i < ParameterCount(m) => Denote(m.universe, m.parameterRange[i]))
  }

  /** Every colour set within the parameter ranges lies inside the full colour set. */
  lemma FullColorSetIsGreatest(m: Model, c: ColorSet)
    requires |c| == ParameterCount(m)
    requires forall i | 0 <= i < |c| :: forall x | x in c[i] :: x in m.universe && m.parameterRange[i].Contains(x)
    ensures Encloses(FullColorSet(m), c)
  {
    var full := FullColorSet(m);
    forall i | 0 <= i < |c| ensures c[i] <= full[i] {
      forall x | x in c[i] ensures x in full[i] {
        assert x in Denote(m.universe, m.parameterRange[i]);
      }
    }
  }

  /** Parameter range `i` holds at least one universe value. */
  ghost predicate RangeInhabited(m: Model, i: nat)
    requires i < ParameterCount(m)
  {
    exists x :: x in m.universe && m.parameterRange[i].Contains(x)
  }

  /** The full colour set is non-empty exactly when every parameter range holds a universe value. */
  lemma FullColorSetNonEmpty(m: Model)
    ensures !IsEmpty(FullColorSet(m)) <==> forall i | 0 <= i < ParameterCount(m) :: RangeInhabited(m, i)
  {
    var full := FullColorSet(m);
    forall i | 0 <= i < ParameterCount(m)
      ensures full[i] != {} <==> RangeInhabited(m, i)
    {
      EmptyOrInhabited(full[i]);
      if full[i] != {} {
        var x :| x in full[i];
        assert x in m.universe && m.parameterRange[i].Contains(x);
      }
      if RangeInhabited(m, i) {
        var x :| x in m.universe && m.parameterRange[i].Contains(x);
        assert x in full[i];
      }
    }
  }
}
