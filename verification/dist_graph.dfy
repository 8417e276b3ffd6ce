/** `Graph`: one rank's view of the partitioned state space. */
module DistGraph {
  import opened Wrappers
  import opened TreeColorSet
  import opened Models
  import opened Partitioner

  /** `id` is the rank of the process holding this graph. */
  datatype Graph = Graph(model: Model, partitioner: Partitioner, id: nat)

  /** A graph whose partitioner was built from the model and whose rank has a slice. */
  predicate ValidGraph(g: Graph)
  {
    Built(g.partitioner, g.model) && g.id < g.partitioner.size
  }

  /** The constructor: the partitioner's failures propagate. */
  function NewGraph(m: Model, size: nat, rank: nat): (r: Result<Graph>)
    requires 1 <= size && rank < size
    ensures r.Ok? <==> Create(m, size).Ok?
    ensures r.Ok? ==> r.value.model == m && r.value.id == rank
    ensures r.Ok? && ValidBounded(m.variableRange[0]) ==> ValidGraph(r.value)
  {
    var p :- Create(m, size);
    Ok(Graph(m, p, rank))
  }

  /** `isMyNode`: the owner of the node's coordinates is this rank. */
  function IsMyNode(g: Graph, coords: seq<int>): (r: Result<bool>)
    ensures r.Ok? <==> GetGraphId(g.partitioner, coords).Ok?
    ensures r.Ok? ==> (r.value <==> GetGraphId(g.partitioner, coords).value == g.id)
  {
    var owner :- GetGraphId(g.partitioner, coords);
    Ok(owner == g.id)
  }

  /** `getLimit`: the ranges this rank explores. */
  function GetLimit(g: Graph): (r: seq<Range>)
    requires ValidGraph(g)
    ensures r == GetMyLimit(g.partitioner, g.id, g.model.variableRange)
  {
    GetMyLimit(g.partitioner, g.id, g.model.variableRange)
  }

  /** A node is this rank's exactly when the first range of its limit holds the node's first coordinate. */
  lemma IsMyNodeWithinLimit(g: Graph, coords: seq<int>)
    requires ValidGraph(g) && |coords| > 0
    ensures IsMyNode(g, coords) == Ok(true) <==> GetLimit(g)[0].Contains(coords[0] as real)
    ensures IsMyNode(g, coords).Ok? <==> Lo(g.model) <= coords[0] as real <= Hi(g.model)
  {
    GetMyLimitOwned(g.partitioner, g.model, g.id, coords);
    GetGraphIdOwner(g.partitioner, g.model, coords);
  }

  /**
   * `getFullParamRange` as the source writes it: an empty set with one dimension per
   * VARIABLE, then parameter range `i` added to dimension `i`; a parameter without a
   * matching variable dimension makes the index fail.
   */
  function GetFullParamRangeAsWritten(g: Graph): (r: Result<ColorSet>)
    ensures ParameterCount(g.model) > VariableCount(g.model) <==> r == Err(IndexOutOfBounds)
    ensures r.Ok? ==> |r.value| == VariableCount(g.model)
    ensures r.Ok? ==> forall i | 0 <= i < |r.value| ::
      r.value[i] == if i < ParameterCount(g.model) then Denote(g.model.universe, g.model.parameterRange[i]) else {}
  {
    var m := g.model;
    if ParameterCount(m) > VariableCount(m) then Err(IndexOutOfBounds)
    else Ok(seq(VariableCount(m), i requires 0 <= i < VariableCount(m) =>
      if i < ParameterCount(m) then Denote(m.universe, m.parameterRange[i]) else {}))
  }

  /** With more variables than parameters, the set built as written is empty whatever the ranges. */
  lemma AsWrittenEmptyWithSurplusVariables(g: Graph)
    requires VariableCount(g.model) > ParameterCount(g.model)
    ensures GetFullParamRangeAsWritten(g).Ok?
    ensures IsEmpty(GetFullParamRangeAsWritten(g).value)
    ensures |GetFullParamRangeAsWritten(g).value| != ParameterCount(g.model)
  {
    var r := GetFullParamRangeAsWritten(g).value;
    assert r[ParameterCount(g.model)] == {};
  }

  /** A two-variable, one-parameter model whose full parameter range is plainly non-empty. */
  function SurplusExample(): Graph
  {
    var m := Model([ClosedRange(0.0, 4.0), ClosedRange(0.0, 4.0)], [ClosedRange(1.0, 2.0)], {1.5});
    Graph(m, Partitioner(1, [ClosedRange(0.0, 4.0)]), 0)
  }

  /** Counterexample: the set built as written is empty while the intended one holds 1.5. */
  lemma SurplusExampleDiffers()
    ensures IsEmpty(GetFullParamRangeAsWritten(SurplusExample()).value)
    ensures !IsEmpty(GetFullParamRange(SurplusExample()))
  {
    var g := SurplusExample();
    AsWrittenEmptyWithSurplusVariables(g);
    var full := GetFullParamRange(g);
    assert 1.5 in full[0];
  }

  /**
   * `getFullParamRange`, corrected to one dimension per parameter: the full colour set
   * of the model.
   */
  function GetFullParamRange(g: Graph): (r: ColorSet)
    ensures |r| == ParameterCount(g.model)
    ensures forall i | 0 <= i < |r| :: r[i] == Denote(g.model.universe, g.model.parameterRange[i])
  {
    FullColorSet(g.model)
  }

  /** The two agree exactly when the model has as many variables as parameters. */
  lemma FullParamRangeCorrectionAgrees(g: Graph)
    ensures GetFullParamRangeAsWritten(g) == Ok(GetFullParamRange(g)) <==>
      VariableCount(g.model) == ParameterCount(g.model)
  {
    if VariableCount(g.model) == ParameterCount(g.model) {
      assert GetFullParamRangeAsWritten(g).value == GetFullParamRange(g);
    }
  }
}
