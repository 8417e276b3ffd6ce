/**
 * The pattern checker of the ODE frontend: a formula of direction propositions, negation,
 * conjunction and disjunction evaluated at one node against the colours of its edges.
 */
module Pattern {
  import opened Wrappers
  import opened Formulas

  /** A node of the rectangular abstraction, by its coordinates. */
  type Coords = seq<int>

  /** The parts of the model a pattern reads: the variable order and the full colour set. */
  datatype Space<C> = Space(variables: seq<string>, full: set<C>)

  /**
   * What the checker sees of one node: its neighbour above and below in each variable
   * (an absent index is a missing neighbour) and the colours of its edges to its
   * successors and from its predecessors.
   */
  datatype View<C> = View(
    node: Coords,
    above: map<nat, Coords>,
    below: map<nat, Coords>,
    successors: map<Coords, set<C>>,
    predecessors: map<Coords, set<C>>)

  /** `getVariableIndexByName`: the first position holding `name`. */
  function VariableIndex(variables: seq<string>, name: string): (r: Result<nat>)
    ensures r.Ok? ==> r.value < |variables| && variables[r.value] == name &&
                      forall j | 0 <= j < r.value :: variables[j] != name
    ensures r.Err? <==> name !in variables
    ensures r.Err? ==> r.error == IllegalArgument
  {
    if |variables| == 0 then Err(IllegalArgument)
    else if variables[0] == name then Ok(0)
    else
      var rest := VariableIndex(variables[1..], name);
      assert forall j | 1 <= j < |variables| :: variables[j] == variables[1..][j - 1];
      if rest.Err? then rest else Ok(rest.value + 1)
  }

  /** The neighbour a direction proposition targets, if there is one. */
  function Target<C>(v: View<C>, facet: Facet, index: nat): Option<Coords>
  {
    var side := if facet == Positive then v.above else v.below;
    if index in side then Some(side[index]) else None
  }

  /** The colours of the edge a direction proposition reads; an absent edge has none. */
  function EdgeColours<C>(v: View<C>, direction: Direction, target: Coords): set<C>
  {
    var edges := if direction == In then v.predecessors else v.successors;
    if target in edges then edges[target] else {}
  }

  /**
   * `checkProperty`: the colours for which `f` holds at the node. Operands are evaluated
   * left to right; an operator other than negation, and or or, and a proposition other
   * than a direction proposition, fail with IllegalState.
   */
  function CheckProperty<C>(f: Formula, s: Space<C>, v: View<C>): (r: Result<set<C>>)
    decreases f
  {
    match f
    case DirectionProp(name, facet, direction) =>
      var index :- VariableIndex(s.variables, name);
      var target := Target(v, facet, index);
      if target.None? then Ok({}) else Ok(EdgeColours(v, direction, target.value))
    case Apply(Negation, subs) =>
      if |subs| < 1 then Err(IndexOutOfBounds)
      else
        var a :- CheckProperty(subs[0], s, v);
        Ok(s.full - a)
    case Apply(And, subs) =>
      if |subs| < 1 then Err(IndexOutOfBounds)
      else
        var a :- CheckProperty(subs[0], s, v);
        if |subs| < 2 then Err(IndexOutOfBounds)
        else
          var b :- CheckProperty(subs[1], s, v);
          Ok(a * b)
    case Apply(Or, subs) =>
      if |subs| < 1 then Err(IndexOutOfBounds)
      else
        var a :- CheckProperty(subs[0], s, v);
        if |subs| < 2 then Err(IndexOutOfBounds)
        else
          var b :- CheckProperty(subs[1], s, v);
          Ok(a + b)
    case _ => Err(IllegalState)
  }

  /** The formulas the checker accepts against the variable order `variables`. */
  predicate Supported(f: Formula, variables: seq<string>)
    decreases f
  {
    match f
    case DirectionProp(name, _, _) => name in variables
    case Apply(op, subs) =>
      (op == Negation && |subs| >= 1 && Supported(subs[0], variables)) ||
      (op in {And, Or} && |subs| >= 2 && Supported(subs[0], variables) && Supported(subs[1], variables))
    case _ => false
  }

  /** Colour `c` satisfies `f` at the node: the pointwise reading of a pattern. */
  predicate Holds<C>(f: Formula, s: Space<C>, v: View<C>, c: C)
    requires Supported(f, s.variables)
    decreases f
  {
    match f
    case DirectionProp(name, facet, direction) =>
      var index := VariableIndex(s.variables, name).value;
      Target(v, facet, index).Some? && c in EdgeColours(v, direction, Target(v, facet, index).value)
    case Apply(op, subs) =>
      if op == Negation then c in s.full && !Holds(subs[0], s, v, c)
      else if op == And then Holds(subs[0], s, v, c) && Holds(subs[1], s, v, c)
      else Holds(subs[0], s, v, c) || Holds(subs[1], s, v, c)
  }

  /** The checker succeeds exactly on supported formulas, and then gives the colours that satisfy them. */
  lemma {:induction false} CheckPropertyMeaning<C>(f: Formula, s: Space<C>, v: View<C>)
    decreases f
    ensures CheckProperty(f, s, v).Ok? <==> Supported(f, s.variables)
    ensures CheckProperty(f, s, v).Ok? ==> forall c :: c in CheckProperty(f, s, v).value <==> Holds(f, s, v, c)
  {
    match f
    case DirectionProp(_, _, _) =>
    case Apply(op, subs) =>
      if |subs| >= 1 {
        CheckPropertyMeaning(subs[0], s, v);
      }
      if |subs| >= 2 {
        CheckPropertyMeaning(subs[1], s, v);
      }
    case _ =>
  }

  /** The union of the colours on every edge of the node. */
  function EdgeUnion<C>(v: View<C>): set<C>
  {
    (set k, c | k in v.successors && c in v.successors[k] :: c) +
    (set k, c | k in v.predecessors && c in v.predecessors[k] :: c)
  }

  /** A result never holds a colour outside the full set and the node's edges. */
  lemma {:induction false} CheckPropertyBounded<C>(f: Formula, s: Space<C>, v: View<C>)
    decreases f
    ensures CheckProperty(f, s, v).Ok? ==> CheckProperty(f, s, v).value <= s.full + EdgeUnion(v)
  {
    match f
    case DirectionProp(name, facet, direction) =>
      var r := CheckProperty(f, s, v);
      if r.Ok? {
        forall c | c in r.value ensures c in EdgeUnion(v) {
          var index := VariableIndex(s.variables, name).value;
          var target := Target(v, facet, index).value;
          if direction == In {
            assert c in v.predecessors[target];
          } else {
            assert c in v.successors[target];
          }
        }
      }
    case Apply(op, subs) =>
      if |subs| >= 1 {
        CheckPropertyBounded(subs[0], s, v);
      }
      if |subs| >= 2 {
        CheckPropertyBounded(subs[1], s, v);
      }
    case _ =>
  }

  /** Double negation gives back the operand's colours within the full set. */
  lemma DoubleNegation<C>(g: Formula, s: Space<C>, v: View<C>)
    ensures var r := CheckProperty(Unary(Negation, Unary(Negation, g)), s, v);
      var a := CheckProperty(g, s, v);
      r.Ok? == a.Ok? && (r.Ok? ==> r.value == s.full * a.value)
  {
  }

  /** The negation of a conjunction gives the same colours as the disjunction of the negations. */
  lemma DeMorgan<C>(a: Formula, b: Formula, s: Space<C>, v: View<C>)
    requires CheckProperty(a, s, v).Ok? && CheckProperty(b, s, v).Ok?
    ensures CheckProperty(Unary(Negation, Binary(And, a, b)), s, v) ==
            CheckProperty(Binary(Or, Unary(Negation, a), Unary(Negation, b)), s, v)
  {
    var x, y := CheckProperty(a, s, v).value, CheckProperty(b, s, v).value;
    assert s.full - x * y == (s.full - x) + (s.full - y);
  }

  // ---------------------------------------------------------------- the node loop

  /** The nodes of `views` are pairwise different, as the keys of the node cache are. */
  predicate DistinctNodes<C>(views: seq<View<C>>)
  {
    forall i, j | 0 <= i < j < |views| :: views[i].node != views[j].node
  }

  /** The pattern can be checked at every node of `views`. */
  predicate AllChecked<C>(f: Formula, s: Space<C>, views: seq<View<C>>)
  {
    forall i | 0 <= i < |views| :: CheckProperty(f, s, views[i]).Ok?
  }

  /** `m` records exactly the nodes of `views` with a non-empty result, each with that result. */
  predicate Records<C>(m: map<Coords, set<C>>, f: Formula, s: Space<C>, views: seq<View<C>>)
    requires AllChecked(f, s, views)
  {
    ViewsRecorded(m, f, s, views) && KeysFrom(m, views)
  }

  /** Each node of `views` is in `m` exactly when its result is not empty, and maps to that result. */
  predicate ViewsRecorded<C>(m: map<Coords, set<C>>, f: Formula, s: Space<C>, views: seq<View<C>>)
    requires AllChecked(f, s, views)
  {
    forall i | 0 <= i < |views| ::
      && (views[i].node in m <==> CheckProperty(f, s, views[i]).value != {})
      && (views[i].node in m ==> m[views[i].node] == CheckProperty(f, s, views[i]).value)
  }

  /** Every key of `m` is the node of some view. */
  predicate KeysFrom<C>(m: map<Coords, set<C>>, views: seq<View<C>>)
  {
    forall k | k in m :: exists i | 0 <= i < |views| :: views[i].node == k
  }

  /**
   * The loop of `processPatterns`: check the pattern at every node and record the
   * colours of the nodes where the result is not empty. The first failure ends the loop.
   */
  function Collect<C>(f: Formula, s: Space<C>, views: seq<View<C>>): (r: Result<map<Coords, set<C>>>)
    requires DistinctNodes(views)
    ensures r.Ok? <==> AllChecked(f, s, views)
    ensures r.Ok? ==> Records(r.value, f, s, views)
  {
    if |views| == 0 then Ok(map[])
    else
      var last := views[|views| - 1];
      var earlier :- Collect(f, s, views[..|views| - 1]);
      var result :- CheckProperty(f, s, last);
      CollectStep(f, s, views, earlier);
      Ok(if result != {} then earlier[last.node := result] else earlier)
  }

  /** Recording the last node extends a record of the others. */
  lemma {:induction false} CollectStep<C>(f: Formula, s: Space<C>, views: seq<View<C>>, earlier: map<Coords, set<C>>)
    requires |views| > 0 && DistinctNodes(views) && AllChecked(f, s, views)
    requires Records(earlier, f, s, views[..|views| - 1])
    ensures var last := views[|views| - 1];
      var result := CheckProperty(f, s, last).value;
      Records(if result != {} then earlier[last.node := result] else earlier, f, s, views)
  {
    var n := |views| - 1;
    var last := views[n];
    var result := CheckProperty(f, s, last).value;
    var m := if result != {} then earlier[last.node := result] else earlier;
    CollectStepViews(f, s, views, earlier, m);
    CollectStepKeys(views, earlier, m);
  }

  /** Adding the last node's result keeps every node recorded as `Records` demands. */
  lemma {:induction false} CollectStepViews<C>(f: Formula, s: Space<C>, views: seq<View<C>>,
                                               earlier: map<Coords, set<C>>, m: map<Coords, set<C>>)
    requires |views| > 0 && DistinctNodes(views) && AllChecked(f, s, views)
    requires AllChecked(f, s, views[..|views| - 1]) && ViewsRecorded(earlier, f, s, views[..|views| - 1])
    requires KeysFrom(earlier, views[..|views| - 1])
    requires var last := views[|views| - 1];
      var result := CheckProperty(f, s, last).value;
      m == if result != {} then earlier[last.node := result] else earlier
    ensures ViewsRecorded(m, f, s, views)
  {
    var n := |views| - 1;
    var init := views[..n];
    var last := views[n];
    forall i | 0 <= i < |views|
      ensures views[i].node in m <==> CheckProperty(f, s, views[i]).value != {}
      ensures views[i].node in m ==> m[views[i].node] == CheckProperty(f, s, views[i]).value
    {
      if i < n {
        assert init[i] == views[i];
        assert init[i].node in earlier <==> CheckProperty(f, s, init[i]).value != {};
        assert views[i].node != last.node;
      }
    }
  }

  /** Adding the last node keeps every key a node of the views. */
  lemma {:induction false} CollectStepKeys<C>(views: seq<View<C>>, earlier: map<Coords, set<C>>, m: map<Coords, set<C>>)
    requires |views| > 0 && KeysFrom(earlier, views[..|views| - 1])
    requires m.Keys <= earlier.Keys + {views[|views| - 1].node}
    ensures KeysFrom(m, views)
  {
    var n := |views| - 1;
    var init := views[..n];
    forall k | k in m ensures exists i | 0 <= i < |views| :: views[i].node == k {
      if k == views[n].node {
        assert views[n].node == k;
      } else {
        var j :| 0 <= j < n && init[j].node == k;
        assert views[j] == init[j];
      }
    }
  }
}
