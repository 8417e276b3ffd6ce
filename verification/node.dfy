/**
 * `Node`: a state of the distributed graph with its formula labels. Labels are values:
 * the source's defensive copies (coordinates, first-inserted colours) need no
 * counterpart, since nothing here can mutate a stored set through another reference.
 */
module DistNode {
  import opened Wrappers
  import opened JavaInt
  import opened TreeColorSet
  import opened Formulas

  type Coords = seq<int>

  /** `graphId` is the rank of the graph the node was created in. */
  datatype Node = Node(
    coordinates: Coords,
    graphId: int,
    formulae: map<Formula, ColorSet>,
    successors: map<Coords, ColorSet>)

  /** The constructor: no labels, no successors. */
  function NewNode(coordinates: Coords, graphId: int): (r: Node)
    ensures r.coordinates == coordinates && r.graphId == graphId
    ensures r.formulae == map[] && r.successors == map[]
  {
    Node(coordinates, graphId, map[], map[])
  }

  /** `getValidColors`: the stored colours of `f`, or the empty set of `dims` dimensions. */
  function GetValidColors(n: Node, f: Formula, dims: nat): (r: ColorSet)
    ensures f in n.formulae ==> r == n.formulae[f]
    ensures f !in n.formulae ==> |r| == dims && forall i | 0 <= i < dims :: r[i] == {}
  {
    if f in n.formulae then n.formulae[f] else CreateEmpty(dims)
  }

  /** Labels of exactly `dims` dimensions. */
  predicate LabelsHaveDims(n: Node, dims: nat)
  {
    forall f | f in n.formulae :: |n.formulae[f]| == dims
  }

  /**
   * `addFormula`: the label of `f` becomes its old colours joined with `c`, where an
   * absent label counts as empty; every other label is untouched. An absent label is
   * stored with the width of `c`; an existing one keeps its width, and the join reads
   * only that many dimensions of `c`.
   */
  function AddFormula(n: Node, f: Formula, c: ColorSet): (r: Node)
    requires f in n.formulae ==> |n.formulae[f]| <= |c|
    ensures f in r.formulae
    ensures f !in n.formulae ==> r.formulae[f] == c
    ensures f in n.formulae ==> |r.formulae[f]| == |n.formulae[f]|
    ensures forall i | 0 <= i < |r.formulae[f]| :: r.formulae[f][i] == GetValidColors(n, f, |c|)[i] + c[i]
    ensures forall g | g != f :: (g in r.formulae <==> g in n.formulae)
    ensures forall g | g != f && g in n.formulae :: r.formulae[g] == n.formulae[g]
    ensures r.coordinates == n.coordinates && r.graphId == n.graphId && r.successors == n.successors
  {
    if f !in n.formulae then n.(formulae := n.formulae[f := c])
    else n.(formulae := n.formulae[f := Union(n.formulae[f], c)])
  }

  /** `addFormula` on colours of any width: joining into a wider label throws. */
  function TryAddFormula(n: Node, f: Formula, c: ColorSet): (r: Result<Node>)
    ensures r.Err? <==> f in n.formulae && |c| < |n.formulae[f]|
    ensures r.Err? ==> r.error == IndexOutOfBounds
    ensures r.Ok? ==> r.value == AddFormula(n, f, c)
  {
    if f in n.formulae && |c| < |n.formulae[f]| then Err(IndexOutOfBounds) else Ok(AddFormula(n, f, c))
  }

  /** Adding colours the label already encloses changes nothing. */
  lemma AddEnclosedIsNoop(n: Node, f: Formula, c: ColorSet)
    requires f in n.formulae && |n.formulae[f]| == |c|
    requires Encloses(n.formulae[f], c)
    ensures AddFormula(n, f, c) == n
  {
    EnclosesMeansUnionUnchanged(n.formulae[f], c);
    assert n.formulae[f := n.formulae[f]] == n.formulae;
  }

  /** Two additions to one label are one addition of the joined colours. */
  lemma AddFormulaTwice(n: Node, f: Formula, a: ColorSet, b: ColorSet)
    requires |a| == |b|
    requires f in n.formulae ==> |n.formulae[f]| == |a|
    ensures AddFormula(AddFormula(n, f, a), f, b) == AddFormula(n, f, Union(a, b))
  {
    var lhs := AddFormula(AddFormula(n, f, a), f, b);
    var rhs := AddFormula(n, f, Union(a, b));
    forall i | 0 <= i < |a| ensures lhs.formulae[f][i] == rhs.formulae[f][i] {
      assert lhs.formulae[f][i] == GetValidColors(n, f, |a|)[i] + a[i] + b[i];
    }
    assert lhs.formulae[f] == rhs.formulae[f];
    assert lhs.formulae == rhs.formulae;
  }

  /** Adding the same colours twice is adding them once. */
  lemma AddFormulaIdempotent(n: Node, f: Formula, c: ColorSet)
    requires f in n.formulae ==> |n.formulae[f]| == |c|
    ensures AddFormula(AddFormula(n, f, c), f, c) == AddFormula(n, f, c)
  {
    var once := AddFormula(n, f, c);
    UnionEncloses(GetValidColors(n, f, |c|), c);
    assert Encloses(once.formulae[f], c);
    AddEnclosedIsNoop(once, f, c);
  }

  /** `addSuccessor`: join into an existing edge, otherwise store the given colours. */
  function AddSuccessor(n: Node, s: Coords, c: ColorSet): (r: Node)
    requires s in n.successors ==> |c| >= |n.successors[s]|
    ensures s in r.successors
    ensures s !in n.successors ==> r.successors[s] == c
    ensures s in n.successors ==> |r.successors[s]| == |n.successors[s]|
    ensures s in n.successors ==>
      forall i | 0 <= i < |r.successors[s]| :: r.successors[s][i] == n.successors[s][i] + c[i]
    ensures forall t | t != s :: (t in r.successors <==> t in n.successors)
    ensures forall t | t != s && t in n.successors :: r.successors[t] == n.successors[t]
    ensures r.formulae == n.formulae && r.coordinates == n.coordinates
  {
    if s in n.successors then n.(successors := n.successors[s := Union(n.successors[s], c)])
    else n.(successors := n.successors[s := c])
  }

  /** `equals`: same coordinates in the same graph. */
  predicate Equals(a: Node, b: Node)
  {
    a.coordinates == b.coordinates && a.graphId == b.graphId
  }

  /** `hashCode`: the coordinates' array hash plus 31 times the graph's rank, in `int` arithmetic. */
  function HashCode(n: Node): (r: int)
    ensures IsInt32(r)
  {
    Wrap(ArraysHashCode(n.coordinates) + Wrap(31 * n.graphId))
  }

  /** Equal nodes hash equally, whatever their labels. */
  lemma EqualNodesEqualHash(a: Node, b: Node)
    requires Equals(a, b)
    ensures HashCode(a) == HashCode(b)
  {
  }

  /** Unequal nodes of one graph can share a hash: `[0, 31]` and `[1, 0]`. */
  lemma UnequalNodesMayShareHash(graphId: int)
    ensures !Equals(NewNode([0, 31], graphId), NewNode([1, 0], graphId))
    ensures HashCode(NewNode([0, 31], graphId)) == HashCode(NewNode([1, 0], graphId))
  {
    ArraysHashCodeCollides();
  }
}
