/**
 * `FormulaVerificator`: one rank's part of checking a formula whose sub-formulas are
 * already labelled. Jobs for other ranks are appended to an outbox instead of being sent.
 */
module Verificator {
  import opened Wrappers
  import opened TreeColorSet
  import opened Formulas
  import opened Models
  import opened Partitioner
  import opened DistGraph
  import opened DistNode
  import opened NodeFactory
  import Listener

  /** A node with a colour set: one entry of the maps the native searches return. */
  type Entry = (Coords, ColorSet)

  /** `dispatchNewTask(parentTask, destination, source, dest, colours)`: a job for rank `destination`. */
  datatype Dispatch = Dispatch(parentTask: int, destination: nat, source: Coords, dest: Coords, colors: ColorSet)

  /**
   * What a run reads besides its state. `preds[n]` is the native predecessor search for
   * `n`: each predecessor with the colours of its edge into `n`. `init[p]` is the native
   * initial-node search for the float proposition `p`. `taskId` is the running task.
   */
  datatype Context = Context(graph: Graph, preds: map<Coords, seq<Entry>>, init: map<Formula, seq<Entry>>, taskId: int)

  /** The rank's node cache and the jobs it has dispatched so far. */
  datatype State = State(fac: Factory, outbox: seq<Dispatch>)

  /** Colour sets have one dimension per model parameter. */
  function Dims(ctx: Context): nat
  {
    ParameterCount(ctx.graph.model)
  }

  function OwnerOf(ctx: Context, c: Coords): Result<nat>
  {
    GetGraphId(ctx.graph.partitioner, c)
  }

  predicate IsMine(ctx: Context, c: Coords)
  {
    OwnerOf(ctx, c) == Ok(ctx.graph.id)
  }

  predicate EntriesHaveDims(es: seq<Entry>, dims: nat)
  {
    forall k | 0 <= k < |es| :: |es[k].1| == dims
  }

  /**
   * The native searches answer with colour sets of the model's dimension, and every
   * predecessor they report lies in some rank's slice.
   */
  predicate WellFormedContext(ctx: Context)
  {
    (forall n | n in ctx.preds :: EntriesHaveDims(ctx.preds[n], Dims(ctx))) &&
    (forall n, k | n in ctx.preds && 0 <= k < |ctx.preds[n]| :: OwnerOf(ctx, ctx.preds[n][k].0).Ok?) &&
    (forall p | p in ctx.init :: EntriesHaveDims(ctx.init[p], Dims(ctx)))
  }

  /** A node cache of this rank whose labels have the model's dimension. */
  predicate ValidFac(ctx: Context, fac: Factory)
  {
    ValidFactory(fac) && fac.graphId == ctx.graph.id &&
    forall c | c in fac.cache :: LabelsHaveDims(fac.cache[c], Dims(ctx))
  }

  predicate ValidState(ctx: Context, st: State)
  {
    ValidFac(ctx, st.fac)
  }

  /** The colours of `f` at `c` in a node cache; a node not yet cached has none. */
  function LabelIn(ctx: Context, fac: Factory, c: Coords, f: Formula): (r: ColorSet)
    ensures ValidFac(ctx, fac) ==> |r| == Dims(ctx)
  {
    if c in fac.cache then GetValidColors(fac.cache[c], f, Dims(ctx)) else CreateEmpty(Dims(ctx))
  }

  /** The colours of `f` at `c`; a node not yet cached has none. */
  function Label(ctx: Context, st: State, c: Coords, f: Formula): (r: ColorSet)
    ensures ValidState(ctx, st) ==> |r| == Dims(ctx)
    ensures c !in st.fac.cache ==> r == CreateEmpty(Dims(ctx))
  {
    LabelIn(ctx, st.fac, c, f)
  }

  /** `addFormula` on the cached node `c`. */
  function AddLabel(ctx: Context, st: State, c: Coords, f: Formula, colors: ColorSet): (r: State)
    requires ValidState(ctx, st) && c in st.fac.cache && |colors| == Dims(ctx)
    ensures ValidState(ctx, r) && r.outbox == st.outbox
    ensures r.fac.cache.Keys == st.fac.cache.Keys && r.fac.revealed == st.fac.revealed
    ensures forall i | 0 <= i < Dims(ctx) :: Label(ctx, r, c, f)[i] == Label(ctx, st, c, f)[i] + colors[i]
    ensures forall d, g | d != c || g != f :: Label(ctx, r, d, g) == Label(ctx, st, d, g)
  {
    var n := AddFormula(st.fac.cache[c], f, colors);
    State(st.fac.(cache := st.fac.cache[c := n]), st.outbox)
  }

  /** `getNode` for each coordinate list: nodes enter the cache, labels do not change. */
  function Register(ctx: Context, st: State, coords: seq<Coords>): (r: State)
    requires ValidState(ctx, st)
    ensures ValidState(ctx, r) && r.outbox == st.outbox && r.fac.revealed == st.fac.revealed
    ensures forall c :: c in r.fac.cache <==> c in st.fac.cache || c in coords
    ensures forall c, g :: Label(ctx, r, c, g) == Label(ctx, st, c, g)
  {
    var fac := RegisterAll(st.fac, coords);
    var r := State(fac, st.outbox);
    assert forall c | c in fac.cache && c !in st.fac.cache :: fac.cache[c].formulae == map[] by {
      forall c | c in fac.cache && c !in st.fac.cache ensures fac.cache[c].formulae == map[] {
        RegisteredNodesAreBare(st.fac, coords, c);
      }
    }
    r
  }

  lemma {:induction false} RegisteredNodesAreBare(fac: Factory, coords: seq<Coords>, c: Coords)
    requires ValidFactory(fac)
    requires c in RegisterAll(fac, coords).cache && c !in fac.cache
    ensures RegisterAll(fac, coords).cache[c].formulae == map[]
    decreases |coords|
  {
    var next := GetNode(fac, coords[0]).0;
    if c in next.cache {
      assert RegisterAll(fac, coords).cache[c] == next.cache[c];
    } else {
      RegisteredNodesAreBare(next, coords[1..], c);
    }
  }

  // ---------------------------------------------------------------- predecessors

  /** The native predecessor search restricted to `colors`: each edge's colours intersected with them. */
  function PredList(ctx: Context, node: Coords, colors: ColorSet): (r: seq<Entry>)
    requires WellFormedContext(ctx) && |colors| == Dims(ctx)
    ensures |r| == (if node in ctx.preds then |ctx.preds[node]| else 0)
    ensures forall k | 0 <= k < |r| :: r[k].0 == ctx.preds[node][k].0 && |r[k].1| == Dims(ctx)
    ensures forall k, i | 0 <= k < |r| && 0 <= i < Dims(ctx) :: r[k].1[i] == ctx.preds[node][k].1[i] * colors[i]
  {
    var es := if node in ctx.preds then ctx.preds[node] else [];
    seq(|es|, k requires 0 <= k < |es| => (es[k].0, Intersect(es[k].1, colors)))
  }

  /** Entries ready to be processed: cached, of the model's dimension, and with an owner. */
  predicate Ready(ctx: Context, st: State, es: seq<Entry>)
  {
    forall k | 0 <= k < |es| :: es[k].0 in st.fac.cache && |es[k].1| == Dims(ctx) && OwnerOf(ctx, es[k].0).Ok?
  }

  /** `computePredecessors`: the restricted predecessors, registered in the cache. */
  function ComputePredecessors(ctx: Context, st: State, node: Coords, colors: ColorSet): (r: (State, seq<Entry>))
    requires WellFormedContext(ctx) && ValidState(ctx, st) && |colors| == Dims(ctx)
    ensures r.1 == PredList(ctx, node, colors)
    ensures r.0 == Register(ctx, st, Keys(r.1))
    ensures Ready(ctx, r.0, r.1)
  {
    var es := PredList(ctx, node, colors);
    PredsReady(ctx, st, node, colors);
    (Register(ctx, st, Keys(es)), es)
  }

  /** Registered, the restricted predecessors are ready to be processed. */
  lemma {:induction false} PredsReady(ctx: Context, st: State, node: Coords, colors: ColorSet)
    requires WellFormedContext(ctx) && ValidState(ctx, st) && |colors| == Dims(ctx)
    ensures Ready(ctx, Register(ctx, st, Keys(PredList(ctx, node, colors))), PredList(ctx, node, colors))
  {
    var es := PredList(ctx, node, colors);
    var st' := Register(ctx, st, Keys(es));
    forall k | 0 <= k < |es| ensures es[k].0 in st'.fac.cache && |es[k].1| == Dims(ctx) && OwnerOf(ctx, es[k].0).Ok? {
      assert es[k].0 == Keys(es)[k];
      assert es[k].0 == ctx.preds[node][k].0;
    }
  }

  /** The job sent for a predecessor owned elsewhere. */
  function JobFor(ctx: Context, source: Coords, e: Entry): Dispatch
    requires OwnerOf(ctx, e.0).Ok?
  {
    Dispatch(ctx.taskId, OwnerOf(ctx, e.0).value, source, e.0, e.1)
  }

  /** The jobs for the entries owned elsewhere, in order. */
  function ForeignJobs(ctx: Context, source: Coords, es: seq<Entry>): seq<Dispatch>
    requires forall k | 0 <= k < |es| :: OwnerOf(ctx, es[k].0).Ok?
  {
    if |es| == 0 then []
    else (if IsMine(ctx, es[0].0) then [] else [JobFor(ctx, source, es[0])]) + ForeignJobs(ctx, source, es[1..])
  }

  /** The foreign jobs are exactly one job per entry owned elsewhere. */
  lemma {:induction false} ForeignJobsExact(ctx: Context, source: Coords, es: seq<Entry>)
    requires forall k | 0 <= k < |es| :: OwnerOf(ctx, es[k].0).Ok?
    ensures forall d | d in ForeignJobs(ctx, source, es) ::
      exists k | 0 <= k < |es| :: !IsMine(ctx, es[k].0) && d == JobFor(ctx, source, es[k])
    ensures forall k | 0 <= k < |es| && !IsMine(ctx, es[k].0) :: JobFor(ctx, source, es[k]) in ForeignJobs(ctx, source, es)
    ensures forall d | d in ForeignJobs(ctx, source, es) :: d.parentTask == ctx.taskId && d.source == source
  {
    if |es| > 0 {
      ForeignJobsExact(ctx, source, es[1..]);
      assert forall k | 1 <= k < |es| :: es[k] == es[1..][k - 1];
    }
  }

  /** Dimension `i` of what the entries at `c` contribute, counting only entries this rank owns. */
  function Contribution(ctx: Context, es: seq<Entry>, c: Coords, i: nat): set<real>
  {
    set k, x | 0 <= k < |es| && es[k].0 == c && IsMine(ctx, c) && i < |es[k].1| && x in es[k].1[i] :: x
  }

  /** Dimension `i` of what one entry contributes at `c`: its colours when it is at `c` and owned here. */
  function OwnedPart(ctx: Context, e: Entry, c: Coords, i: nat): set<real>
  {
    if e.0 == c && IsMine(ctx, c) && i < |e.1| then e.1[i] else {}
  }

  lemma {:induction false} ContributionCons(ctx: Context, es: seq<Entry>, c: Coords, i: nat)
    requires |es| > 0
    ensures Contribution(ctx, es, c, i) == OwnedPart(ctx, es[0], c, i) + Contribution(ctx, es[1..], c, i)
  {
    var head := OwnedPart(ctx, es[0], c, i);
    forall x | x in Contribution(ctx, es, c, i) ensures x in head + Contribution(ctx, es[1..], c, i) {
      var k :| 0 <= k < |es| && es[k].0 == c && IsMine(ctx, c) && i < |es[k].1| && x in es[k].1[i];
      if k > 0 {
        assert es[1..][k - 1] == es[k];
      }
    }
    forall x | x in Contribution(ctx, es[1..], c, i) ensures x in Contribution(ctx, es, c, i) {
      var k :| 0 <= k < |es[1..]| && es[1..][k].0 == c && IsMine(ctx, c) && i < |es[1..][k].1| && x in es[1..][k].1[i];
      assert es[k + 1] == es[1..][k];
    }
    forall x | x in head ensures x in Contribution(ctx, es, c, i) {
      assert es[0].0 == c;
    }
  }

  // ---------------------------------------------------------------- exists next

  /**
   * The inner loop of `processNext`: an owned predecessor gains its edge colours, a
   * foreign one costs one job.
   */
  function NextPreds(ctx: Context, st: State, f: Formula, source: Coords, es: seq<Entry>): (r: State)
    requires WellFormedContext(ctx) && ValidState(ctx, st) && Ready(ctx, st, es)
    decreases |es|
    ensures ValidState(ctx, r)
    ensures r.fac.cache.Keys == st.fac.cache.Keys && r.fac.revealed == st.fac.revealed
    ensures r.outbox == st.outbox + ForeignJobs(ctx, source, es)
    ensures forall c, g | g != f :: Label(ctx, r, c, g) == Label(ctx, st, c, g)
  {
    if |es| == 0 then st
    else
      var st1 := NextStep(ctx, st, f, source, es[0]);
      assert Ready(ctx, st1, es[1..]);
      var r := NextPreds(ctx, st1, f, source, es[1..]);
      OutboxAppend(st.outbox, if IsMine(ctx, es[0].0) then [] else [JobFor(ctx, source, es[0])], ForeignJobs(ctx, source, es[1..]));
      r
  }

  lemma {:induction false} UnionAssoc(a: set<real>, b: set<real>, c: set<real>)
    ensures a + b + c == a + (b + c)
  {
  }

  lemma {:induction false} OutboxAppend(a: seq<Dispatch>, b: seq<Dispatch>, c: seq<Dispatch>)
    ensures a + b + c == a + (b + c)
  {
  }

  /** One predecessor of `processNext`. */
  function NextStep(ctx: Context, st: State, f: Formula, source: Coords, e: Entry): (r: State)
    requires ValidState(ctx, st) && Ready(ctx, st, [e])
    ensures ValidState(ctx, r)
    ensures r.fac.cache.Keys == st.fac.cache.Keys && r.fac.revealed == st.fac.revealed
    ensures r.outbox == st.outbox + if IsMine(ctx, e.0) then [] else [JobFor(ctx, source, e)]
    ensures forall c, g | g != f || c != e.0 :: Label(ctx, r, c, g) == Label(ctx, st, c, g)
    ensures IsMine(ctx, e.0) ==> forall i | 0 <= i < Dims(ctx) :: Label(ctx, r, e.0, f)[i] == Label(ctx, st, e.0, f)[i] + e.1[i]
    ensures !IsMine(ctx, e.0) ==> Label(ctx, r, e.0, f) == Label(ctx, st, e.0, f)
  {
    assert e == [e][0];
    if IsMine(ctx, e.0) then AddLabel(ctx, st, e.0, f, e.1)
    else st.(outbox := st.outbox + [JobFor(ctx, source, e)])
  }

  /** Each node's colours for `f` grow by exactly what the owned entries at it contribute. */
  lemma {:induction false} NextPredsLabels(ctx: Context, st: State, f: Formula, source: Coords, es: seq<Entry>, c: Coords, i: nat)
    requires WellFormedContext(ctx) && ValidState(ctx, st) && Ready(ctx, st, es)
    requires i < Dims(ctx)
    ensures Label(ctx, NextPreds(ctx, st, f, source, es), c, f)[i] == Label(ctx, st, c, f)[i] + Contribution(ctx, es, c, i)
    decreases |es|
  {
    if |es| > 0 {
      var st1 := NextStep(ctx, st, f, source, es[0]);
      UnfoldNextPreds(ctx, st, f, source, es);
      NextPredsLabels(ctx, st1, f, source, es[1..], c, i);
      NextStepLabel(ctx, st, f, source, es[0], c, i);
      ContributionCons(ctx, es, c, i);
      UnionAssoc(Label(ctx, st, c, f)[i], OwnedPart(ctx, es[0], c, i), Contribution(ctx, es[1..], c, i));
    }
  }

  lemma {:induction false} UnfoldNextPreds(ctx: Context, st: State, f: Formula, source: Coords, es: seq<Entry>)
    requires WellFormedContext(ctx) && ValidState(ctx, st) && Ready(ctx, st, es) && |es| > 0
    ensures Ready(ctx, st, [es[0]]) && Ready(ctx, NextStep(ctx, st, f, source, es[0]), es[1..])
    ensures NextPreds(ctx, st, f, source, es) == NextPreds(ctx, NextStep(ctx, st, f, source, es[0]), f, source, es[1..])
  {
    assert Ready(ctx, st, [es[0]]);
  }

  /** One predecessor adds its colours at its own node when owned here, and nothing elsewhere. */
  lemma {:induction false} NextStepLabel(ctx: Context, st: State, f: Formula, source: Coords, e: Entry, c: Coords, i: nat)
    requires ValidState(ctx, st) && Ready(ctx, st, [e]) && i < Dims(ctx)
    ensures Label(ctx, NextStep(ctx, st, f, source, e), c, f)[i] == Label(ctx, st, c, f)[i] + OwnedPart(ctx, e, c, i)
  {
    assert |e.1| == Dims(ctx) by {
      assert [e][0] == e;
    }
  }

  /** `getAllValidNodes` on the run's state: revealing registers nodes but changes no label. */
  function Seeds(ctx: Context, st: State, p: Formula): (r: (State, seq<Entry>))
    requires WellFormedContext(ctx) && ValidState(ctx, st)
    ensures ValidState(ctx, r.0) && r.0.outbox == st.outbox
    ensures r.0.fac == GetAllValidNodes(st.fac, p, ctx.init, Dims(ctx)).0
    ensures r.1 == GetAllValidNodes(st.fac, p, ctx.init, Dims(ctx)).1
    ensures forall c | c in st.fac.cache :: c in r.0.fac.cache
    ensures forall c, g :: Label(ctx, r.0, c, g) == Label(ctx, st, c, g)
    ensures EntriesHaveDims(r.1, Dims(ctx))
    ensures forall k | 0 <= k < |r.1| :: r.1[k].0 in r.0.fac.cache
  {
    var res := GetAllValidNodes(st.fac, p, ctx.init, Dims(ctx));
    if p.FloatProp? && p !in st.fac.revealed then
      var revealed := State(st.fac.(revealed := st.fac.revealed + {p}), st.outbox);
      assert forall c, g :: Label(ctx, revealed, c, g) == Label(ctx, st, c, g);
      assert State(res.0, st.outbox) == Register(ctx, revealed, Keys(res.1));
      (State(res.0, st.outbox), res.1)
    else
      (State(res.0, st.outbox), res.1)
  }

  /** The jobs `processNext` dispatches for a list of targets. */
  function TargetJobs(ctx: Context, targets: seq<Entry>): seq<Dispatch>
    requires WellFormedContext(ctx) && EntriesHaveDims(targets, Dims(ctx))
  {
    if |targets| == 0 then []
    else
      var es := PredList(ctx, targets[0].0, targets[0].1);
      ForeignJobs(ctx, targets[0].0, es) + TargetJobs(ctx, targets[1..])
  }

  /** Dimension `i` of what the targets' owned predecessors at `c` receive. */
  function TargetsContribution(ctx: Context, targets: seq<Entry>, c: Coords, i: nat): set<real>
    requires WellFormedContext(ctx) && EntriesHaveDims(targets, Dims(ctx))
  {
    if |targets| == 0 then {}
    else Contribution(ctx, PredList(ctx, targets[0].0, targets[0].1), c, i) + TargetsContribution(ctx, targets[1..], c, i)
  }

  /** The outer loop of `processNext`: the predecessors of each target, restricted to its colours. */
  function NextTargets(ctx: Context, st: State, f: Formula, targets: seq<Entry>): (r: State)
    requires WellFormedContext(ctx) && ValidState(ctx, st) && EntriesHaveDims(targets, Dims(ctx))
    decreases |targets|
    ensures ValidState(ctx, r) && r.fac.revealed == st.fac.revealed
    ensures forall c | c in st.fac.cache :: c in r.fac.cache
    ensures r.outbox == st.outbox + TargetJobs(ctx, targets)
    ensures forall c, g | g != f :: Label(ctx, r, c, g) == Label(ctx, st, c, g)
  {
    if |targets| == 0 then st
    else
      var pr := ComputePredecessors(ctx, st, targets[0].0, targets[0].1);
      var st2 := NextPreds(ctx, pr.0, f, targets[0].0, pr.1);
      var r := NextTargets(ctx, st2, f, targets[1..]);
      OutboxAppend(st.outbox, ForeignJobs(ctx, targets[0].0, pr.1), TargetJobs(ctx, targets[1..]));
      r
  }

  lemma {:induction false} NextTargetsLabels(ctx: Context, st: State, f: Formula, targets: seq<Entry>, c: Coords, i: nat)
    requires WellFormedContext(ctx) && ValidState(ctx, st) && EntriesHaveDims(targets, Dims(ctx))
    requires i < Dims(ctx)
    ensures Label(ctx, NextTargets(ctx, st, f, targets), c, f)[i] ==
      Label(ctx, st, c, f)[i] + TargetsContribution(ctx, targets, c, i)
    decreases |targets|
  {
    if |targets| > 0 {
      var pr := ComputePredecessors(ctx, st, targets[0].0, targets[0].1);
      var st1, es := pr.0, pr.1;
      assert Label(ctx, st1, c, f) == Label(ctx, st, c, f);
      NextPredsLabels(ctx, st1, f, targets[0].0, es, c, i);
      var st2 := NextPreds(ctx, st1, f, targets[0].0, es);
      NextTargetsLabels(ctx, st2, f, targets[1..], c, i);
      assert NextTargets(ctx, st, f, targets) == NextTargets(ctx, st2, f, targets[1..]);
      assert es == PredList(ctx, targets[0].0, targets[0].1);
      UnionAssoc(Label(ctx, st, c, f)[i], Contribution(ctx, es, c, i), TargetsContribution(ctx, targets[1..], c, i));
    }
  }

  predicate IsNext(f: Formula)
  {
    f.Apply? && f.op == ExistsNext && |f.subs| >= 1
  }

  /** `processNext`: the predecessors of every node valid for the operand. */
  function ProcessNext(ctx: Context, st: State, f: Formula): (r: State)
    requires WellFormedContext(ctx) && ValidState(ctx, st) && IsNext(f)
    ensures ValidState(ctx, r)
    ensures forall c | c in st.fac.cache :: c in r.fac.cache
    ensures r.outbox == st.outbox + TargetJobs(ctx, Seeds(ctx, st, f.subs[0]).1)
    ensures forall c, g | g != f :: Label(ctx, r, c, g) == Label(ctx, st, c, g)
  {
    var (st1, targets) := Seeds(ctx, st, f.subs[0]);
    NextTargets(ctx, st1, f, targets)
  }

  /**
   * Exists-next labels a node with exactly the colours of its owned edges into nodes
   * valid for the operand, each restricted to that node's colours.
   */
  lemma {:induction false} ProcessNextLabels(ctx: Context, st: State, f: Formula, c: Coords, i: nat)
    requires WellFormedContext(ctx) && ValidState(ctx, st) && IsNext(f)
    requires i < Dims(ctx)
    ensures Label(ctx, ProcessNext(ctx, st, f), c, f)[i] ==
      Label(ctx, st, c, f)[i] + TargetsContribution(ctx, Seeds(ctx, st, f.subs[0]).1, c, i)
  {
    var (st1, targets) := Seeds(ctx, st, f.subs[0]);
    NextTargetsLabels(ctx, st1, f, targets, c, i);
  }

  /** A received exists-next job: the colours join the node's label, and nothing propagates. */
  function ReceiveNext(ctx: Context, st: State, f: Formula, my: Coords, colors: ColorSet): (r: State)
    requires ValidState(ctx, st) && |colors| == Dims(ctx)
    ensures ValidState(ctx, r) && r.outbox == st.outbox
    ensures forall c :: c in r.fac.cache <==> c in st.fac.cache || c == my
    ensures forall i | 0 <= i < Dims(ctx) :: Label(ctx, r, my, f)[i] == Label(ctx, st, my, f)[i] + colors[i]
    ensures forall c, g | c != my || g != f :: Label(ctx, r, c, g) == Label(ctx, st, c, g)
  {
    var st1 := Register(ctx, st, [my]);
    AddLabel(ctx, st1, my, f, colors)
  }

  // ---------------------------------------------------------------- exists until

  predicate IsUntil(f: Formula)
  {
    f.Apply? && f.op == ExistsUntil && |f.subs| >= 2
  }

  lemma {:induction false} SubFormulaDiffers(f: Formula, k: nat)
    requires f.Apply? && k < |f.subs|
    ensures f.subs[k] != f
  {
    assert f.subs[k] < f;
  }

  /** Every node the native predecessor search can report. */
  function PredNodes(ctx: Context): set<Coords>
  {
    set n, k | n in ctx.preds && 0 <= k < |ctx.preds[n]| :: ctx.preds[n][k].0
  }

  /** Dimension `i` of every edge colour set the native predecessor search can report. */
  function EdgeBound(ctx: Context, i: nat): set<real>
  {
    set n, k, x | n in ctx.preds && 0 <= k < |ctx.preds[n]| && i < |ctx.preds[n][k].1| && x in ctx.preds[n][k].1[i] :: x
  }

  /** Entries whose nodes and colours come from the native predecessor search. */
  predicate Bounded(ctx: Context, es: seq<Entry>)
  {
    forall k | 0 <= k < |es| ::
      es[k].0 in PredNodes(ctx) && forall i | 0 <= i < |es[k].1| :: es[k].1[i] <= EdgeBound(ctx, i)
  }

  lemma {:induction false} PredListBounded(ctx: Context, node: Coords, colors: ColorSet)
    requires WellFormedContext(ctx) && |colors| == Dims(ctx)
    ensures Bounded(ctx, PredList(ctx, node, colors))
  {
    var es := PredList(ctx, node, colors);
    forall k | 0 <= k < |es|
      ensures es[k].0 in PredNodes(ctx) && forall i | 0 <= i < |es[k].1| :: es[k].1[i] <= EdgeBound(ctx, i)
    {
      assert node in ctx.preds;
      assert es[k].0 == ctx.preds[node][k].0;
      forall i, x | 0 <= i < |es[k].1| && x in es[k].1[i] ensures x in EdgeBound(ctx, i) {
        assert i < |ctx.preds[node][k].1|;
        assert es[k].1[i] == ctx.preds[node][k].1[i] * colors[i];
        assert x in ctx.preds[node][k].1[i];
      }
    }
  }

  /** Colours the label of `f` at some predecessor could still gain: the termination measure. */
  ghost function Missing(ctx: Context, fac: Factory, f: Formula): set<(Coords, nat, real)>
    requires ValidFac(ctx, fac)
  {
    set c, i: nat, x | c in PredNodes(ctx) && i < Dims(ctx) && x in EdgeBound(ctx, i) && x !in LabelIn(ctx, fac, c, f)[i] :: (c, i, x)
  }

  /** Every label of `f` in `st` is kept in `r`. */
  ghost predicate LabelsGrow(ctx: Context, st: State, r: State, f: Formula)
    requires ValidState(ctx, st) && ValidState(ctx, r)
  {
    forall c, i {:trigger Label(ctx, r, c, f)[i]} | 0 <= i < Dims(ctx) :: Label(ctx, st, c, f)[i] <= Label(ctx, r, c, f)[i]
  }

  lemma {:induction false} NotSubsetWitness(a: set<real>, b: set<real>)
    ensures a <= b || exists x :: x in a && x !in b
  {
    if !exists x :: x in a && x !in b {
      assert forall x :: x in a ==> x in b;
      assert a - b == {};
    }
  }

  lemma {:induction false} SubsetCard<T>(a: set<T>, b: set<T>)
    requires a <= b
    ensures |a| <= |b|
  {
    assert b == a + (b - a);
    assert a * (b - a) == {};
  }

  lemma {:induction false} ProperSubsetCard<T>(a: set<T>, b: set<T>, x: T)
    requires a <= b && x in b && x !in a
    ensures |a| < |b|
  {
    assert b == a + (b - a);
    assert a * (b - a) == {};
    assert x in b - a;
  }

  lemma {:induction false} MissingSubset(ctx: Context, st: State, r: State, f: Formula)
    requires ValidState(ctx, st) && ValidState(ctx, r) && LabelsGrow(ctx, st, r, f)
    ensures Missing(ctx, r.fac, f) <= Missing(ctx, st.fac, f)
  {
    forall t | t in Missing(ctx, r.fac, f) ensures t in Missing(ctx, st.fac, f) {
      var c, i, x := t.0, t.1, t.2;
      assert Label(ctx, st, c, f)[i] <= Label(ctx, r, c, f)[i];
    }
  }

  /** States with the same labels of `f` have the same measure. */
  lemma {:induction false} MissingSame(ctx: Context, st: State, r: State, f: Formula)
    requires ValidState(ctx, st) && ValidState(ctx, r)
    requires forall c :: Label(ctx, r, c, f) == Label(ctx, st, c, f)
    ensures Missing(ctx, r.fac, f) == Missing(ctx, st.fac, f)
  {
    forall t ensures t in Missing(ctx, r.fac, f) <==> t in Missing(ctx, st.fac, f) {
      assert Label(ctx, r, t.0, f) == Label(ctx, st, t.0, f);
    }
  }

  lemma {:induction false} MissingShrinks(ctx: Context, st: State, r: State, f: Formula)
    requires ValidState(ctx, st) && ValidState(ctx, r) && LabelsGrow(ctx, st, r, f)
    ensures Missing(ctx, r.fac, f) <= Missing(ctx, st.fac, f)
    ensures |Missing(ctx, r.fac, f)| <= |Missing(ctx, st.fac, f)|
  {
    MissingSubset(ctx, st, r, f);
    SubsetCard(Missing(ctx, r.fac, f), Missing(ctx, st.fac, f));
  }

  /** Gaining one colour that an edge carries shrinks the measure. */
  lemma {:induction false} MissingShrinksStrictly(ctx: Context, st: State, r: State, f: Formula, c: Coords, i: nat, x: real)
    requires ValidState(ctx, st) && ValidState(ctx, r) && LabelsGrow(ctx, st, r, f)
    requires c in PredNodes(ctx) && i < Dims(ctx) && x in EdgeBound(ctx, i)
    requires x !in Label(ctx, st, c, f)[i] && x in Label(ctx, r, c, f)[i]
    ensures |Missing(ctx, r.fac, f)| < |Missing(ctx, st.fac, f)|
  {
    assert (c, i, x) in Missing(ctx, st.fac, f);
    MissingSubset(ctx, st, r, f);
    ProperSubsetCard(Missing(ctx, r.fac, f), Missing(ctx, st.fac, f), (c, i, x));
  }

  /** What every exists-until step keeps: valid state, cache and labels of other formulas; labels of `f` only grow. */
  ghost predicate UntilCore(ctx: Context, st: State, r: State, f: Formula)
    requires ValidState(ctx, st)
  {
    ValidState(ctx, r) && r.fac.revealed == st.fac.revealed &&
    (forall c | c in st.fac.cache :: c in r.fac.cache) &&
    LabelsGrow(ctx, st, r, f) &&
    (forall c, g {:trigger Label(ctx, r, c, g)} | g != f :: Label(ctx, r, c, g) == Label(ctx, st, c, g))
  }

  /** The colours `processUntilRecursive` pushes into predecessor `e`: the edge's colours within its φ colours. */
  function Pushed(ctx: Context, st: State, f: Formula, e: Entry): (r: ColorSet)
    requires ValidState(ctx, st) && IsUntil(f) && |e.1| == Dims(ctx)
    ensures |r| == Dims(ctx)
  {
    Intersect(e.1, Label(ctx, st, e.0, f.subs[0]))
  }

  /** `processUntilRecursive`: walk back from `node` along the edges that carry `colors`. */
  function Until(ctx: Context, st: State, f: Formula, node: Coords, colors: ColorSet): (r: State)
    requires WellFormedContext(ctx) && ValidState(ctx, st) && IsUntil(f) && |colors| == Dims(ctx)
    decreases |Missing(ctx, st.fac, f)|, |PredList(ctx, node, colors)| + 1, 0
    ensures UntilCore(ctx, st, r, f)
  {
    var pr := ComputePredecessors(ctx, st, node, colors);
    PredListBounded(ctx, node, colors);
    MissingSame(ctx, st, pr.0, f);
    UntilPreds(ctx, pr.0, f, node, pr.1)
  }

  lemma {:induction false} ReadyKept(ctx: Context, st: State, r: State, es: seq<Entry>)
    requires Ready(ctx, st, es)
    requires forall c | c in st.fac.cache :: c in r.fac.cache
    ensures Ready(ctx, r, es)
  {
  }

  lemma {:induction false} UntilCoreTrans(ctx: Context, st: State, s1: State, s2: State, f: Formula)
    requires ValidState(ctx, st) && UntilCore(ctx, st, s1, f) && UntilCore(ctx, s1, s2, f)
    ensures UntilCore(ctx, st, s2, f)
  {
  }

  /** Adding colours of `f` at a cached node is an exists-until step. */
  lemma {:induction false} UntilCoreAdd(ctx: Context, st: State, f: Formula, c: Coords, colors: ColorSet)
    requires ValidState(ctx, st) && c in st.fac.cache && |colors| == Dims(ctx)
    ensures UntilCore(ctx, st, AddLabel(ctx, st, c, f, colors), f)
  {
  }

  /**
   * The loop of `processUntilRecursive` over the predecessors `es`: an owned predecessor
   * gains the pushed colours and is walked back from when they are non-empty and new;
   * a foreign one costs one job with the un-intersected edge colours.
   */
  function UntilPreds(ctx: Context, st: State, f: Formula, node: Coords, es: seq<Entry>): (r: State)
    requires WellFormedContext(ctx) && ValidState(ctx, st) && IsUntil(f)
    requires Ready(ctx, st, es) && Bounded(ctx, es)
    decreases |Missing(ctx, st.fac, f)|, |es|, 1
    ensures UntilCore(ctx, st, r, f)
  {
    if |es| == 0 then st
    else
      var p := es[0].0;
      assert Ready(ctx, st, es[1..]) && Bounded(ctx, es[1..]);
      if IsMine(ctx, p) && PushesNew(ctx, st, f, es[0]) then
        UntilPush(ctx, st, f, node, es)
      else if IsMine(ctx, p) then
        UntilPreds(ctx, st, f, node, es[1..])
      else
        var st1 := st.(outbox := st.outbox + [JobFor(ctx, node, es[0])]);
        var r := UntilPreds(ctx, st1, f, node, es[1..]);
        UntilCoreTrans(ctx, st, st1, r, f);
        r
  }

  /** An owned predecessor that gains new colours: add them, walk back from it, then go on. */
  function UntilPush(ctx: Context, st: State, f: Formula, node: Coords, es: seq<Entry>): (r: State)
    requires WellFormedContext(ctx) && ValidState(ctx, st) && IsUntil(f)
    requires Ready(ctx, st, es) && Bounded(ctx, es) && |es| > 0
    requires IsMine(ctx, es[0].0) && PushesNew(ctx, st, f, es[0])
    decreases |Missing(ctx, st.fac, f)|, |es|, 0
    ensures UntilCore(ctx, st, r, f)
  {
    var p, pushed := es[0].0, Pushed(ctx, st, f, es[0]);
    assert Ready(ctx, st, es[1..]) && Bounded(ctx, es[1..]);
    assert Ready(ctx, st, [es[0]]) && Bounded(ctx, [es[0]]);
    var st1 := AddLabel(ctx, st, p, f, pushed);
    GainShrinks(ctx, st, f, es[0]);
    UntilCoreAdd(ctx, st, f, p, pushed);
    var st2 := Until(ctx, st1, f, p, pushed);
    MissingShrinks(ctx, st1, st2, f);
    assert |Missing(ctx, st2.fac, f)| < |Missing(ctx, st.fac, f)|;
    UntilCoreTrans(ctx, st, st1, st2, f);
    ReadyKept(ctx, st, st2, es[1..]);
    var r := UntilPreds(ctx, st2, f, node, es[1..]);
    UntilCoreTrans(ctx, st, st2, r, f);
    r
  }

  /** The guard of `processUntilRecursive`: the pushed colours are non-empty and not yet all there. */
  predicate PushesNew(ctx: Context, st: State, f: Formula, e: Entry)
    requires ValidState(ctx, st) && IsUntil(f) && |e.1| == Dims(ctx)
  {
    !IsEmpty(Pushed(ctx, st, f, e)) && !Encloses(Label(ctx, st, e.0, f), Pushed(ctx, st, f, e))
  }

  /** Adding new pushed colours strictly shrinks the measure. */
  lemma {:induction false} GainShrinks(ctx: Context, st: State, f: Formula, e: Entry)
    requires ValidState(ctx, st) && IsUntil(f) && |e.1| == Dims(ctx) && e.0 in st.fac.cache
    requires Bounded(ctx, [e])
    requires !Encloses(Label(ctx, st, e.0, f), Pushed(ctx, st, f, e))
    ensures |Missing(ctx, AddLabel(ctx, st, e.0, f, Pushed(ctx, st, f, e)).fac, f)| < |Missing(ctx, st.fac, f)|
  {
    var pushed := Pushed(ctx, st, f, e);
    var st1 := AddLabel(ctx, st, e.0, f, pushed);
    var i :| 0 <= i < Dims(ctx) && !(pushed[i] <= Label(ctx, st, e.0, f)[i]);
    NotSubsetWitness(pushed[i], Label(ctx, st, e.0, f)[i]);
    var x :| x in pushed[i] && x !in Label(ctx, st, e.0, f)[i];
    assert [e][0] == e;
    assert x in e.1[i];
    MissingShrinksStrictly(ctx, st, st1, f, e.0, i, x);
  }

  // ---------------------------------------------------------------- exists until: what a walk achieves

  /** A job as `dispatchNewTask` must send it: for this task, to the rank owning its node, which is not this one. */
  predicate JobValid(ctx: Context, d: Dispatch)
  {
    d.parentTask == ctx.taskId && OwnerOf(ctx, d.dest) == Ok(d.destination) &&
    d.destination != ctx.graph.id && |d.colors| == Dims(ctx)
  }

  /** `r`'s outbox extends `st`'s with valid jobs only. */
  ghost predicate JobsAppended(ctx: Context, st: State, r: State)
  {
    |st.outbox| <= |r.outbox| && r.outbox[..|st.outbox|] == st.outbox &&
    forall k | |st.outbox| <= k < |r.outbox| :: JobValid(ctx, r.outbox[k])
  }

  /** Every colour a walk adds to a label of `f` is a colour of φ at that node. */
  ghost predicate UntilSound(ctx: Context, st: State, r: State, f: Formula)
    requires ValidState(ctx, st) && ValidState(ctx, r) && IsUntil(f)
  {
    forall c, i {:trigger Label(ctx, r, c, f)[i]} | 0 <= i < Dims(ctx) ::
      Label(ctx, r, c, f)[i] <= Label(ctx, st, c, f)[i] + Label(ctx, st, c, f.subs[0])[i]
  }

  /** Nothing more would be pushed into `p`: the colours are empty or already there. */
  predicate Saturated(ctx: Context, st: State, f: Formula, p: Coords, s: ColorSet)
    requires ValidState(ctx, st) && |s| == Dims(ctx)
  {
    IsEmpty(s) || Encloses(Label(ctx, st, p, f), s)
  }

  /** Entries of the model's dimension whose nodes have an owner. */
  predicate Placed(ctx: Context, es: seq<Entry>)
  {
    forall k | 0 <= k < |es| :: |es[k].1| == Dims(ctx) && OwnerOf(ctx, es[k].0).Ok?
  }

  /** After the walk over `es`, every owned entry is saturated and every foreign one has its job. */
  ghost predicate UntilDone(ctx: Context, st: State, r: State, f: Formula, node: Coords, es: seq<Entry>)
    requires ValidState(ctx, st) && ValidState(ctx, r) && IsUntil(f) && Placed(ctx, es)
  {
    forall k | 0 <= k < |es| ::
      (IsMine(ctx, es[k].0) ==> Saturated(ctx, r, f, es[k].0, Pushed(ctx, st, f, es[k]))) &&
      (!IsMine(ctx, es[k].0) ==> JobFor(ctx, node, es[k]) in r.outbox)
  }

  lemma {:induction false} JobsTrans(ctx: Context, st: State, s1: State, s2: State)
    requires JobsAppended(ctx, st, s1) && JobsAppended(ctx, s1, s2)
    ensures JobsAppended(ctx, st, s2)
  {
    assert s2.outbox[..|st.outbox|] == s2.outbox[..|s1.outbox|][..|st.outbox|];
  }

  lemma {:induction false} UntilSoundTrans(ctx: Context, st: State, s1: State, s2: State, f: Formula)
    requires ValidState(ctx, st) && IsUntil(f) && UntilCore(ctx, st, s1, f) && ValidState(ctx, s2)
    requires UntilSound(ctx, st, s1, f) && UntilSound(ctx, s1, s2, f)
    ensures UntilSound(ctx, st, s2, f)
  {
    SubFormulaDiffers(f, 0);
  }

  lemma {:induction false} SaturatedKept(ctx: Context, st: State, r: State, f: Formula, p: Coords, s: ColorSet)
    requires ValidState(ctx, st) && ValidState(ctx, r) && |s| == Dims(ctx)
    requires LabelsGrow(ctx, st, r, f) && Saturated(ctx, st, f, p, s)
    ensures Saturated(ctx, r, f, p, s)
  {
  }

  /** The walk's facts for `es` from those for its tail, walked from a state with the same φ labels. */
  lemma {:induction false} UntilDoneCons(ctx: Context, st: State, s1: State, r: State, f: Formula, node: Coords, es: seq<Entry>)
    requires ValidState(ctx, st) && ValidState(ctx, s1) && ValidState(ctx, r) && IsUntil(f)
    requires Placed(ctx, es) && |es| > 0 && Placed(ctx, es[1..])
    requires forall c :: Label(ctx, s1, c, f.subs[0]) == Label(ctx, st, c, f.subs[0])
    requires UntilDone(ctx, s1, r, f, node, es[1..])
    requires IsMine(ctx, es[0].0) ==> Saturated(ctx, r, f, es[0].0, Pushed(ctx, st, f, es[0]))
    requires !IsMine(ctx, es[0].0) ==> JobFor(ctx, node, es[0]) in r.outbox
    ensures UntilDone(ctx, st, r, f, node, es)
  {
    forall k | 1 <= k < |es|
      ensures IsMine(ctx, es[k].0) ==> Saturated(ctx, r, f, es[k].0, Pushed(ctx, st, f, es[k]))
      ensures !IsMine(ctx, es[k].0) ==> JobFor(ctx, node, es[k]) in r.outbox
    {
      assert es[k] == es[1..][k - 1];
      assert Pushed(ctx, st, f, es[k]) == Pushed(ctx, s1, f, es[k]);
    }
  }

  /** What `Until` achieves: sound labels, valid jobs, and every predecessor of `node` saturated or dispatched. */
  lemma {:induction false} UntilFacts(ctx: Context, st: State, f: Formula, node: Coords, colors: ColorSet)
    requires WellFormedContext(ctx) && ValidState(ctx, st) && IsUntil(f) && |colors| == Dims(ctx)
    decreases |Missing(ctx, st.fac, f)|, |PredList(ctx, node, colors)| + 1, 0
    ensures Placed(ctx, PredList(ctx, node, colors))
    ensures UntilSound(ctx, st, Until(ctx, st, f, node, colors), f)
    ensures JobsAppended(ctx, st, Until(ctx, st, f, node, colors))
    ensures UntilDone(ctx, st, Until(ctx, st, f, node, colors), f, node, PredList(ctx, node, colors))
  {
    var pr := ComputePredecessors(ctx, st, node, colors);
    PredListBounded(ctx, node, colors);
    MissingSame(ctx, st, pr.0, f);
    UntilPredsFacts(ctx, pr.0, f, node, pr.1);
    var r := Until(ctx, st, f, node, colors);
    assert r == UntilPreds(ctx, pr.0, f, node, pr.1);
    UntilRebase(ctx, st, pr.0, r, f, node, pr.1);
  }

  /** The walk's facts carry over a step that changes neither labels nor outbox. */
  lemma {:induction false} UntilRebase(ctx: Context, st: State, pre: State, r: State, f: Formula, node: Coords, es: seq<Entry>)
    requires ValidState(ctx, st) && ValidState(ctx, pre) && ValidState(ctx, r) && IsUntil(f) && Placed(ctx, es)
    requires pre.outbox == st.outbox && forall c, g :: Label(ctx, pre, c, g) == Label(ctx, st, c, g)
    requires UntilSound(ctx, pre, r, f) && JobsAppended(ctx, pre, r) && UntilDone(ctx, pre, r, f, node, es)
    ensures UntilSound(ctx, st, r, f) && JobsAppended(ctx, st, r) && UntilDone(ctx, st, r, f, node, es)
  {
    forall k | 0 <= k < |es| ensures Pushed(ctx, st, f, es[k]) == Pushed(ctx, pre, f, es[k]) {
      assert Label(ctx, st, es[k].0, f.subs[0]) == Label(ctx, pre, es[k].0, f.subs[0]);
    }
    forall c, i | 0 <= i < Dims(ctx) ensures Label(ctx, r, c, f)[i] <= Label(ctx, st, c, f)[i] + Label(ctx, st, c, f.subs[0])[i] {
      assert Label(ctx, pre, c, f) == Label(ctx, st, c, f);
      assert Label(ctx, pre, c, f.subs[0]) == Label(ctx, st, c, f.subs[0]);
    }
  }

  lemma {:induction false} UntilPredsFacts(ctx: Context, st: State, f: Formula, node: Coords, es: seq<Entry>)
    requires WellFormedContext(ctx) && ValidState(ctx, st) && IsUntil(f)
    requires Ready(ctx, st, es) && Bounded(ctx, es)
    decreases |Missing(ctx, st.fac, f)|, |es|, 1
    ensures Placed(ctx, es)
    ensures UntilSound(ctx, st, UntilPreds(ctx, st, f, node, es), f)
    ensures JobsAppended(ctx, st, UntilPreds(ctx, st, f, node, es))
    ensures UntilDone(ctx, st, UntilPreds(ctx, st, f, node, es), f, node, es)
  {
    if |es| > 0 {
      var p := es[0].0;
      assert Ready(ctx, st, es[1..]) && Bounded(ctx, es[1..]);
      if IsMine(ctx, p) && PushesNew(ctx, st, f, es[0]) {
        UntilPushFacts(ctx, st, f, node, es);
      } else if IsMine(ctx, p) {
        UntilPredsFacts(ctx, st, f, node, es[1..]);
        MineStepFacts(ctx, st, f, node, es);
      } else {
        var st1 := st.(outbox := st.outbox + [JobFor(ctx, node, es[0])]);
        UnfoldForeign(ctx, st, f, node, es);
        UntilPredsFacts(ctx, st1, f, node, es[1..]);
        ForeignStepFacts(ctx, st, UntilPreds(ctx, st1, f, node, es[1..]), f, node, es);
      }
    }
  }

  /** An owned predecessor that gains nothing new is already saturated. */
  lemma {:induction false} MineStepFacts(ctx: Context, st: State, f: Formula, node: Coords, es: seq<Entry>)
    requires WellFormedContext(ctx) && ValidState(ctx, st) && IsUntil(f)
    requires Ready(ctx, st, es) && Bounded(ctx, es) && |es| > 0
    requires IsMine(ctx, es[0].0) && !PushesNew(ctx, st, f, es[0])
    requires Ready(ctx, st, es[1..]) && Bounded(ctx, es[1..])
    requires UntilDone(ctx, st, UntilPreds(ctx, st, f, node, es[1..]), f, node, es[1..])
    requires UntilSound(ctx, st, UntilPreds(ctx, st, f, node, es[1..]), f)
    requires JobsAppended(ctx, st, UntilPreds(ctx, st, f, node, es[1..]))
    ensures UntilSound(ctx, st, UntilPreds(ctx, st, f, node, es), f)
    ensures JobsAppended(ctx, st, UntilPreds(ctx, st, f, node, es))
    ensures UntilDone(ctx, st, UntilPreds(ctx, st, f, node, es), f, node, es)
  {
    var r := UntilPreds(ctx, st, f, node, es[1..]);
    assert r == UntilPreds(ctx, st, f, node, es);
    SaturatedKept(ctx, st, r, f, es[0].0, Pushed(ctx, st, f, es[0]));
    UntilDoneCons(ctx, st, st, r, f, node, es);
  }

  /** A predecessor owned elsewhere leaves its job in the outbox. */
  lemma {:induction false} ForeignStepFacts(ctx: Context, st: State, r: State, f: Formula, node: Coords, es: seq<Entry>)
    requires ValidState(ctx, st) && ValidState(ctx, r) && IsUntil(f)
    requires Placed(ctx, es) && |es| > 0 && Placed(ctx, es[1..]) && !IsMine(ctx, es[0].0)
    requires
      var st1 := st.(outbox := st.outbox + [JobFor(ctx, node, es[0])]);
      UntilDone(ctx, st1, r, f, node, es[1..]) && UntilSound(ctx, st1, r, f) && JobsAppended(ctx, st1, r)
    ensures UntilSound(ctx, st, r, f) && JobsAppended(ctx, st, r)
    ensures UntilDone(ctx, st, r, f, node, es)
  {
    var job := JobFor(ctx, node, es[0]);
    var st1 := st.(outbox := st.outbox + [job]);
    assert forall c, g :: Label(ctx, st1, c, g) == Label(ctx, st, c, g);
    assert JobValid(ctx, job);
    assert JobsAppended(ctx, st, st1);
    JobsTrans(ctx, st, st1, r);
    assert job in r.outbox by {
      assert r.outbox[..|st1.outbox|] == st1.outbox;
      assert r.outbox[|st.outbox|] == job;
    }
    UntilDoneCons(ctx, st, st1, r, f, node, es);
  }

  lemma {:induction false} UnfoldForeign(ctx: Context, st: State, f: Formula, node: Coords, es: seq<Entry>)
    requires WellFormedContext(ctx) && ValidState(ctx, st) && IsUntil(f)
    requires Ready(ctx, st, es) && Bounded(ctx, es) && |es| > 0 && !IsMine(ctx, es[0].0)
    ensures Ready(ctx, st.(outbox := st.outbox + [JobFor(ctx, node, es[0])]), es[1..]) && Bounded(ctx, es[1..])
    ensures UntilPreds(ctx, st, f, node, es) ==
            UntilPreds(ctx, st.(outbox := st.outbox + [JobFor(ctx, node, es[0])]), f, node, es[1..])
  {
    var st1 := st.(outbox := st.outbox + [JobFor(ctx, node, es[0])]);
    assert Ready(ctx, st1, es[1..]) && Bounded(ctx, es[1..]);
  }

  lemma {:induction false} UntilPushFacts(ctx: Context, st: State, f: Formula, node: Coords, es: seq<Entry>)
    requires WellFormedContext(ctx) && ValidState(ctx, st) && IsUntil(f)
    requires Ready(ctx, st, es) && Bounded(ctx, es) && |es| > 0
    requires IsMine(ctx, es[0].0) && PushesNew(ctx, st, f, es[0])
    decreases |Missing(ctx, st.fac, f)|, |es|, 0
    ensures Placed(ctx, es)
    ensures UntilSound(ctx, st, UntilPreds(ctx, st, f, node, es), f)
    ensures JobsAppended(ctx, st, UntilPreds(ctx, st, f, node, es))
    ensures UntilDone(ctx, st, UntilPreds(ctx, st, f, node, es), f, node, es)
  {
    var p, pushed := es[0].0, Pushed(ctx, st, f, es[0]);
    assert Ready(ctx, st, es[1..]) && Bounded(ctx, es[1..]);
    assert Ready(ctx, st, [es[0]]) && Bounded(ctx, [es[0]]);
    var st1 := AddLabel(ctx, st, p, f, pushed);
    GainShrinks(ctx, st, f, es[0]);
    UntilCoreAdd(ctx, st, f, p, pushed);
    UntilFacts(ctx, st1, f, p, pushed);
    var st2 := Until(ctx, st1, f, p, pushed);
    MissingShrinks(ctx, st1, st2, f);
    UntilCoreTrans(ctx, st, st1, st2, f);
    ReadyKept(ctx, st, st2, es[1..]);
    UntilPredsFacts(ctx, st2, f, node, es[1..]);
    var r := UntilPreds(ctx, st2, f, node, es[1..]);
    UnfoldPush(ctx, st, f, node, es);
    PushSound(ctx, st, st1, st2, r, f, es[0]);
    PushJobs(ctx, st, st1, st2, r);
    PushDone(ctx, st, st1, st2, r, f, node, es);
  }

  /** The push branch of the predecessor loop: label, walk, then the rest of the list. */
  lemma {:induction false} UnfoldPush(ctx: Context, st: State, f: Formula, node: Coords, es: seq<Entry>)
    requires WellFormedContext(ctx) && ValidState(ctx, st) && IsUntil(f)
    requires Ready(ctx, st, es) && Bounded(ctx, es) && |es| > 0
    requires IsMine(ctx, es[0].0) && PushesNew(ctx, st, f, es[0])
    ensures var pushed := Pushed(ctx, st, f, es[0]);
      var st2 := Until(ctx, AddLabel(ctx, st, es[0].0, f, pushed), f, es[0].0, pushed);
      Ready(ctx, st2, es[1..]) && Bounded(ctx, es[1..]) &&
      UntilPreds(ctx, st, f, node, es) == UntilPreds(ctx, st2, f, node, es[1..])
  {
    assert Ready(ctx, st, es[1..]) && Bounded(ctx, es[1..]);
    assert UntilPreds(ctx, st, f, node, es) == UntilPush(ctx, st, f, node, es);
  }

  /** The jobs of a push: none for the label itself, then the walk's and the tail's. */
  lemma {:induction false} PushJobs(ctx: Context, st: State, st1: State, st2: State, r: State)
    requires st1.outbox == st.outbox && JobsAppended(ctx, st1, st2) && JobsAppended(ctx, st2, r)
    ensures JobsAppended(ctx, st, r)
  {
    assert JobsAppended(ctx, st, st1);
    JobsTrans(ctx, st, st1, st2);
    JobsTrans(ctx, st, st2, r);
  }

  /** An owned predecessor that gains new colours ends saturated, and the rest follows from the tail. */
  lemma {:induction false} PushDone(ctx: Context, st: State, st1: State, st2: State, r: State, f: Formula, node: Coords, es: seq<Entry>)
    requires ValidState(ctx, st) && IsUntil(f)
    requires Placed(ctx, es) && |es| > 0 && Placed(ctx, es[1..]) && IsMine(ctx, es[0].0)
    requires es[0].0 in st.fac.cache
    requires st1 == AddLabel(ctx, st, es[0].0, f, Pushed(ctx, st, f, es[0]))
    requires UntilCore(ctx, st1, st2, f) && UntilCore(ctx, st2, r, f)
    requires UntilDone(ctx, st2, r, f, node, es[1..])
    ensures UntilDone(ctx, st, r, f, node, es)
  {
    PushSaturates(ctx, st, st1, st2, r, f, es[0]);
    SubFormulaDiffers(f, 0);
    assert forall c :: Label(ctx, st2, c, f.subs[0]) == Label(ctx, st, c, f.subs[0]) by {
      forall c ensures Label(ctx, st2, c, f.subs[0]) == Label(ctx, st, c, f.subs[0]) {
        assert Label(ctx, st2, c, f.subs[0]) == Label(ctx, st1, c, f.subs[0]);
      }
    }
    UntilDoneCons(ctx, st, st2, r, f, node, es);
  }

  lemma {:induction false} PushSound(ctx: Context, st: State, st1: State, st2: State, r: State, f: Formula, e: Entry)
    requires ValidState(ctx, st) && IsUntil(f) && |e.1| == Dims(ctx) && e.0 in st.fac.cache
    requires st1 == AddLabel(ctx, st, e.0, f, Pushed(ctx, st, f, e))
    requires UntilCore(ctx, st, st1, f) && UntilCore(ctx, st1, st2, f)
    requires UntilSound(ctx, st1, st2, f) && ValidState(ctx, r) && UntilSound(ctx, st2, r, f)
    ensures UntilSound(ctx, st, r, f)
  {
    UntilCoreTrans(ctx, st, st1, st2, f);
    SubFormulaDiffers(f, 0);
    assert UntilSound(ctx, st, st1, f);
    UntilSoundTrans(ctx, st, st1, st2, f);
    UntilSoundTrans(ctx, st, st2, r, f);
  }

  lemma {:induction false} PushSaturates(ctx: Context, st: State, st1: State, st2: State, r: State, f: Formula, e: Entry)
    requires ValidState(ctx, st) && IsUntil(f) && |e.1| == Dims(ctx) && e.0 in st.fac.cache
    requires st1 == AddLabel(ctx, st, e.0, f, Pushed(ctx, st, f, e))
    requires UntilCore(ctx, st1, st2, f) && UntilCore(ctx, st2, r, f)
    ensures Saturated(ctx, r, f, e.0, Pushed(ctx, st, f, e))
  {
    UntilCoreTrans(ctx, st1, st2, r, f);
    assert Saturated(ctx, st1, f, e.0, Pushed(ctx, st, f, e));
    SaturatedKept(ctx, st1, r, f, e.0, Pushed(ctx, st, f, e));
  }

  // ---------------------------------------------------------------- exists until: seeds and received jobs

  /** Entries whose nodes are cached and whose colour sets have the model's dimension. */
  predicate Cached(ctx: Context, st: State, es: seq<Entry>)
  {
    forall k | 0 <= k < |es| :: es[k].0 in st.fac.cache && |es[k].1| == Dims(ctx)
  }

  /** Dimension `i` of the colours one entry offers node `c`. */
  function SeedOwn(e: Entry, c: Coords, i: nat): set<real>
  {
    if e.0 == c && i < |e.1| then e.1[i] else {}
  }

  /** Dimension `i` of the colours the entries offer node `c`. */
  function SeedColors(es: seq<Entry>, c: Coords, i: nat): set<real>
  {
    if |es| == 0 then {}
    else SeedOwn(es[0], c, i) + SeedColors(es[1..], c, i)
  }

  /** One seed that is non-empty and new: labelled, then walked back from. */
  function SeedWalk(ctx: Context, st: State, f: Formula, e: Entry): (r: State)
    requires WellFormedContext(ctx) && ValidState(ctx, st) && IsUntil(f)
    requires e.0 in st.fac.cache && |e.1| == Dims(ctx)
    ensures UntilCore(ctx, st, r, f)
  {
    var st1 := AddLabel(ctx, st, e.0, f, e.1);
    UntilCoreAdd(ctx, st, f, e.0, e.1);
    var st2 := Until(ctx, st1, f, e.0, e.1);
    UntilCoreTrans(ctx, st, st1, st2, f);
    st2
  }

  /**
   * What one step of the seeding loop from `st` to `r` keeps for the seed `e`: valid jobs
   * appended, `e` saturated, φ's labels untouched, and labels of `f` grown only by φ's
   * colours and the seed's own.
   */
  ghost predicate SeedBound(ctx: Context, st: State, r: State, f: Formula, e: Entry)
    requires ValidState(ctx, st) && ValidState(ctx, r) && IsUntil(f) && |e.1| == Dims(ctx)
  {
    JobsAppended(ctx, st, r) && Saturated(ctx, r, f, e.0, e.1) &&
    (forall c :: Label(ctx, r, c, f.subs[0]) == Label(ctx, st, c, f.subs[0])) &&
    forall c, i | 0 <= i < Dims(ctx) ::
      Label(ctx, r, c, f)[i] <= Label(ctx, st, c, f)[i] + Label(ctx, st, c, f.subs[0])[i] + SeedOwn(e, c, i)
  }

  /** The part of `UntilFacts` a walk from a seed needs: sound labels and valid jobs. */
  lemma {:induction false} UntilSoundJobs(ctx: Context, st: State, f: Formula, node: Coords, colors: ColorSet)
    requires WellFormedContext(ctx) && ValidState(ctx, st) && IsUntil(f) && |colors| == Dims(ctx)
    ensures UntilSound(ctx, st, Until(ctx, st, f, node, colors), f)
    ensures JobsAppended(ctx, st, Until(ctx, st, f, node, colors))
  {
    UntilFacts(ctx, st, f, node, colors);
  }

  /** A walked seed ends saturated, adds only its own colours and φ's, and appends valid jobs. */
  lemma {:induction false} SeedWalkFacts(ctx: Context, st: State, f: Formula, e: Entry)
    requires WellFormedContext(ctx) && ValidState(ctx, st) && IsUntil(f)
    requires e.0 in st.fac.cache && |e.1| == Dims(ctx)
    ensures SeedBound(ctx, st, SeedWalk(ctx, st, f, e), f, e)
  {
    var st1 := AddLabel(ctx, st, e.0, f, e.1);
    UntilSoundJobs(ctx, st1, f, e.0, e.1);
    var r := Until(ctx, st1, f, e.0, e.1);
    assert r == SeedWalk(ctx, st, f, e);
    SeedWalkStep(ctx, st, st1, r, f, e);
  }

  /** The seed's step from the labelled state `st1` and the walk from it to `r`. */
  lemma {:induction false} SeedWalkStep(ctx: Context, st: State, st1: State, r: State, f: Formula, e: Entry)
    requires ValidState(ctx, st) && ValidState(ctx, st1) && IsUntil(f) && |e.1| == Dims(ctx)
    requires st1.outbox == st.outbox
    requires forall i | 0 <= i < Dims(ctx) :: Label(ctx, st1, e.0, f)[i] == Label(ctx, st, e.0, f)[i] + e.1[i]
    requires forall d, g | d != e.0 || g != f :: Label(ctx, st1, d, g) == Label(ctx, st, d, g)
    requires UntilCore(ctx, st1, r, f) && UntilSound(ctx, st1, r, f) && JobsAppended(ctx, st1, r)
    ensures SeedBound(ctx, st, r, f, e)
  {
    assert JobsAppended(ctx, st, st1);
    JobsTrans(ctx, st, st1, r);
    assert Saturated(ctx, st1, f, e.0, e.1);
    SaturatedKept(ctx, st1, r, f, e.0, e.1);
    SubFormulaDiffers(f, 0);
  }

  /** A seed that is empty or already there leaves the state as it is. */
  lemma {:induction false} SeedSkipFacts(ctx: Context, st: State, f: Formula, e: Entry)
    requires ValidState(ctx, st) && IsUntil(f) && |e.1| == Dims(ctx)
    requires IsEmpty(e.1) || Encloses(Label(ctx, st, e.0, f), e.1)
    ensures SeedBound(ctx, st, st, f, e)
  {
    assert JobsAppended(ctx, st, st);
  }

  /** The next state of the seeding loop after its first seed. */
  function SeedNext(ctx: Context, st: State, f: Formula, e: Entry): (r: State)
    requires WellFormedContext(ctx) && ValidState(ctx, st) && IsUntil(f)
    requires e.0 in st.fac.cache && |e.1| == Dims(ctx)
    ensures UntilCore(ctx, st, r, f)
  {
    if !IsEmpty(e.1) && !Encloses(Label(ctx, st, e.0, f), e.1) then SeedWalk(ctx, st, f, e) else st
  }

  /** The loop of `processUntil`: each new, non-empty seed joins the label and is walked back from. */
  function UntilSeeds(ctx: Context, st: State, f: Formula, seeds: seq<Entry>): (r: State)
    requires WellFormedContext(ctx) && ValidState(ctx, st) && IsUntil(f) && Cached(ctx, st, seeds)
    decreases |seeds|
    ensures UntilCore(ctx, st, r, f)
  {
    if |seeds| == 0 then st
    else
      var next := SeedNext(ctx, st, f, seeds[0]);
      assert Cached(ctx, next, seeds[1..]);
      var r := UntilSeeds(ctx, next, f, seeds[1..]);
      UntilCoreTrans(ctx, st, next, r, f);
      r
  }

  lemma {:induction false} SeedNextFacts(ctx: Context, st: State, f: Formula, e: Entry)
    requires WellFormedContext(ctx) && ValidState(ctx, st) && IsUntil(f)
    requires e.0 in st.fac.cache && |e.1| == Dims(ctx)
    ensures SeedBound(ctx, st, SeedNext(ctx, st, f, e), f, e)
  {
    if !IsEmpty(e.1) && !Encloses(Label(ctx, st, e.0, f), e.1) {
      SeedWalkFacts(ctx, st, f, e);
    } else {
      SeedSkipFacts(ctx, st, f, e);
    }
  }

  lemma {:induction false} UntilSeedsFacts(ctx: Context, st: State, f: Formula, seeds: seq<Entry>)
    requires WellFormedContext(ctx) && ValidState(ctx, st) && IsUntil(f) && Cached(ctx, st, seeds)
    decreases |seeds|
    ensures var r := UntilSeeds(ctx, st, f, seeds);
      JobsAppended(ctx, st, r) &&
      (forall k | 0 <= k < |seeds| :: Saturated(ctx, r, f, seeds[k].0, seeds[k].1)) &&
      forall c, i | 0 <= i < Dims(ctx) ::
        Label(ctx, r, c, f)[i] <= Label(ctx, st, c, f)[i] + Label(ctx, st, c, f.subs[0])[i] + SeedColors(seeds, c, i)
  {
    if |seeds| > 0 {
      var next := SeedNext(ctx, st, f, seeds[0]);
      SeedNextFacts(ctx, st, f, seeds[0]);
      UntilSeedsFacts(ctx, next, f, seeds[1..]);
      var r := UntilSeeds(ctx, next, f, seeds[1..]);
      JobsTrans(ctx, st, next, r);
      SeedsSaturated(ctx, next, r, f, seeds);
      SeedsLabels(ctx, st, next, r, f, seeds);
    }
  }

  /** Every seed ends saturated: the first by its own step, the rest by the tail's walk. */
  lemma {:induction false} SeedsSaturated(ctx: Context, next: State, r: State, f: Formula, seeds: seq<Entry>)
    requires ValidState(ctx, next) && ValidState(ctx, r) && IsUntil(f) && |seeds| > 0
    requires forall k | 0 <= k < |seeds| :: |seeds[k].1| == Dims(ctx)
    requires LabelsGrow(ctx, next, r, f) && Saturated(ctx, next, f, seeds[0].0, seeds[0].1)
    requires forall k | 0 <= k < |seeds[1..]| :: Saturated(ctx, r, f, seeds[1..][k].0, seeds[1..][k].1)
    ensures forall k | 0 <= k < |seeds| :: Saturated(ctx, r, f, seeds[k].0, seeds[k].1)
  {
    SaturatedKept(ctx, next, r, f, seeds[0].0, seeds[0].1);
    forall k | 1 <= k < |seeds| ensures Saturated(ctx, r, f, seeds[k].0, seeds[k].1) {
      assert seeds[k] == seeds[1..][k - 1];
    }
  }

  /** The label bound for `seeds` from the first step's bound and the tail's. */
  lemma {:induction false} SeedsLabels(ctx: Context, st: State, next: State, r: State, f: Formula, seeds: seq<Entry>)
    requires ValidState(ctx, st) && ValidState(ctx, next) && ValidState(ctx, r) && IsUntil(f)
    requires |seeds| > 0 && |seeds[0].1| == Dims(ctx)
    requires SeedBound(ctx, st, next, f, seeds[0])
    requires forall c, i | 0 <= i < Dims(ctx) ::
      Label(ctx, r, c, f)[i] <= Label(ctx, next, c, f)[i] + Label(ctx, next, c, f.subs[0])[i] + SeedColors(seeds[1..], c, i)
    ensures forall c, i | 0 <= i < Dims(ctx) ::
      Label(ctx, r, c, f)[i] <= Label(ctx, st, c, f)[i] + Label(ctx, st, c, f.subs[0])[i] + SeedColors(seeds, c, i)
  {
    var e := seeds[0];
    forall c, i | 0 <= i < Dims(ctx)
      ensures Label(ctx, r, c, f)[i] <= Label(ctx, st, c, f)[i] + Label(ctx, st, c, f.subs[0])[i] + SeedColors(seeds, c, i)
    {
      assert Label(ctx, next, c, f)[i] <= Label(ctx, st, c, f)[i] + Label(ctx, st, c, f.subs[0])[i] + SeedOwn(e, c, i);
      assert Label(ctx, next, c, f.subs[0]) == Label(ctx, st, c, f.subs[0]);
    }
  }

  /** The colours the entries offer a node are within its label of `g` when every entry carries that label. */
  lemma {:induction false} SeedColorsOfLabels(ctx: Context, st: State, es: seq<Entry>, g: Formula, c: Coords, i: nat)
    requires ValidState(ctx, st) && i < Dims(ctx)
    requires forall k | 0 <= k < |es| :: es[k].1 == Label(ctx, st, es[k].0, g)
    decreases |es|
    ensures SeedColors(es, c, i) <= Label(ctx, st, c, g)[i]
  {
    if |es| > 0 {
      SeedColorsOfLabels(ctx, st, es[1..], g, c, i);
    }
  }

  /** `processUntil`: seed from the nodes valid for ψ, then walk back through φ. */
  function ProcessUntil(ctx: Context, st: State, f: Formula): (r: State)
    requires WellFormedContext(ctx) && ValidState(ctx, st) && IsUntil(f)
    ensures ValidState(ctx, r) && r.fac.revealed == GetAllValidNodes(st.fac, f.subs[1], ctx.init, Dims(ctx)).0.revealed
    ensures forall c | c in st.fac.cache :: c in r.fac.cache
    ensures forall c, i | 0 <= i < Dims(ctx) :: Label(ctx, st, c, f)[i] <= Label(ctx, r, c, f)[i]
    ensures forall c, g | g != f :: Label(ctx, r, c, g) == Label(ctx, st, c, g)
  {
    var pr := Seeds(ctx, st, f.subs[1]);
    UntilSeeds(ctx, pr.0, f, pr.1)
  }

  /**
   * Exists-until from the seeds: every label of `f` gains only seed colours and colours
   * of φ, every seed ends in the label (unless empty), and jobs go to the predecessors'
   * owners.
   */
  lemma {:induction false} ProcessUntilFacts(ctx: Context, st: State, f: Formula, c: Coords, i: nat)
    requires WellFormedContext(ctx) && ValidState(ctx, st) && IsUntil(f) && i < Dims(ctx)
    ensures var seeds := Seeds(ctx, st, f.subs[1]).1;
      var r := ProcessUntil(ctx, st, f);
      JobsAppended(ctx, st, r) &&
      (forall k | 0 <= k < |seeds| :: Saturated(ctx, r, f, seeds[k].0, seeds[k].1)) &&
      Label(ctx, r, c, f)[i] <= Label(ctx, st, c, f)[i] + Label(ctx, st, c, f.subs[0])[i] + SeedColors(seeds, c, i)
  {
    var pr := Seeds(ctx, st, f.subs[1]);
    UntilSeedsFacts(ctx, pr.0, f, pr.1);
    var r := UntilSeeds(ctx, pr.0, f, pr.1);
    assert r == ProcessUntil(ctx, st, f);
    SeedsRebase(ctx, st, pr.0, r, f, pr.1, c, i);
  }

  /** The seeding loop's facts carry over the reveal step, which changes neither labels nor outbox. */
  lemma {:induction false} SeedsRebase(ctx: Context, st: State, pre: State, r: State, f: Formula, seeds: seq<Entry>, c: Coords, i: nat)
    requires ValidState(ctx, st) && ValidState(ctx, pre) && ValidState(ctx, r) && IsUntil(f) && i < Dims(ctx)
    requires pre.outbox == st.outbox
    requires Label(ctx, pre, c, f) == Label(ctx, st, c, f) && Label(ctx, pre, c, f.subs[0]) == Label(ctx, st, c, f.subs[0])
    requires JobsAppended(ctx, pre, r)
    requires forall c, i | 0 <= i < Dims(ctx) ::
      Label(ctx, r, c, f)[i] <= Label(ctx, pre, c, f)[i] + Label(ctx, pre, c, f.subs[0])[i] + SeedColors(seeds, c, i)
    ensures JobsAppended(ctx, st, r)
    ensures Label(ctx, r, c, f)[i] <= Label(ctx, st, c, f)[i] + Label(ctx, st, c, f.subs[0])[i] + SeedColors(seeds, c, i)
  {
    assert JobsAppended(ctx, st, pre);
    JobsTrans(ctx, st, pre, r);
  }

  /**
   * When ψ is already labelled (not a float proposition met for the first time), the
   * seeds are its labels, so `f` gains nothing outside φ and ψ.
   */
  lemma {:induction false} ProcessUntilFromLabels(ctx: Context, st: State, f: Formula, c: Coords, i: nat)
    requires WellFormedContext(ctx) && ValidState(ctx, st) && IsUntil(f) && i < Dims(ctx)
    requires !(f.subs[1].FloatProp? && f.subs[1] !in st.fac.revealed)
    ensures Label(ctx, ProcessUntil(ctx, st, f), c, f)[i] <=
      Label(ctx, st, c, f)[i] + Label(ctx, st, c, f.subs[0])[i] + Label(ctx, st, c, f.subs[1])[i]
  {
    var seeds := Seeds(ctx, st, f.subs[1]).1;
    ProcessUntilFacts(ctx, st, f, c, i);
    SeedsAreLabels(ctx, st, f.subs[1]);
    SeedColorsOfLabels(ctx, st, seeds, f.subs[1], c, i);
  }

  /** Served from the cache, the seeds carry the nodes' own labels. */
  lemma {:induction false} SeedsAreLabels(ctx: Context, st: State, p: Formula)
    requires WellFormedContext(ctx) && ValidState(ctx, st)
    requires !(p.FloatProp? && p !in st.fac.revealed)
    ensures var seeds := Seeds(ctx, st, p).1;
      forall k | 0 <= k < |seeds| :: seeds[k].1 == Label(ctx, st, seeds[k].0, p)
  {
  }

  /** ... and every node valid for ψ ends valid for `f`. */
  lemma {:induction false} ProcessUntilCoversTarget(ctx: Context, st: State, f: Formula, c: Coords)
    requires WellFormedContext(ctx) && ValidState(ctx, st) && IsUntil(f) && Dims(ctx) > 0
    requires !(f.subs[1].FloatProp? && f.subs[1] !in st.fac.revealed)
    requires c in st.fac.cache
    ensures Saturated(ctx, ProcessUntil(ctx, st, f), f, c, Label(ctx, st, c, f.subs[1]))
  {
    var pr := Seeds(ctx, st, f.subs[1]);
    var r := ProcessUntil(ctx, st, f);
    ProcessUntilFacts(ctx, st, f, c, 0);
    if !IsEmpty(Label(ctx, st, c, f.subs[1])) {
      assert ValidAt(st.fac, c, f.subs[1], Dims(ctx));
      assert c in Keys(pr.1);
      var k :| 0 <= k < |pr.1| && Keys(pr.1)[k] == c;
      assert Saturated(ctx, r, f, pr.1[k].0, pr.1[k].1);
    }
  }

  /**
   * A received exists-until job at `my`: the colours, cut to φ's colours at `my`, join the
   * label when non-empty and new, and the walk continues from there.
   */
  function ReceiveUntil(ctx: Context, st: State, f: Formula, my: Coords, colors: ColorSet): (r: State)
    requires WellFormedContext(ctx) && ValidState(ctx, st) && IsUntil(f) && |colors| == Dims(ctx)
    ensures ValidState(ctx, r) && r.fac.revealed == st.fac.revealed && my in r.fac.cache
    ensures forall c | c in st.fac.cache :: c in r.fac.cache
    ensures forall c, i | 0 <= i < Dims(ctx) :: Label(ctx, st, c, f)[i] <= Label(ctx, r, c, f)[i]
    ensures forall c, g | g != f :: Label(ctx, r, c, g) == Label(ctx, st, c, g)
  {
    var st1 := Register(ctx, st, [my]);
    SeedNext(ctx, st1, f, (my, Intersect(colors, Label(ctx, st1, my, f.subs[0]))))
  }

  /** What a received exists-until job achieves. */
  lemma {:induction false} ReceiveUntilFacts(ctx: Context, st: State, f: Formula, my: Coords, colors: ColorSet)
    requires WellFormedContext(ctx) && ValidState(ctx, st) && IsUntil(f) && |colors| == Dims(ctx)
    ensures var r := ReceiveUntil(ctx, st, f, my, colors);
      JobsAppended(ctx, st, r) && UntilSound(ctx, st, r, f) &&
      Saturated(ctx, r, f, my, Intersect(colors, Label(ctx, st, my, f.subs[0])))
  {
    var st1 := Register(ctx, st, [my]);
    var pushed := Intersect(colors, Label(ctx, st1, my, f.subs[0]));
    assert pushed == Intersect(colors, Label(ctx, st, my, f.subs[0]));
    SeedNextFacts(ctx, st1, f, (my, pushed));
    ReceiveStep(ctx, st, st1, SeedNext(ctx, st1, f, (my, pushed)), f, (my, pushed));
  }

  lemma {:induction false} ReceiveStep(ctx: Context, st: State, st1: State, r: State, f: Formula, e: Entry)
    requires ValidState(ctx, st) && ValidState(ctx, st1) && ValidState(ctx, r) && IsUntil(f)
    requires |e.1| == Dims(ctx) && st1.outbox == st.outbox
    requires forall c, g :: Label(ctx, st1, c, g) == Label(ctx, st, c, g)
    requires forall i | 0 <= i < Dims(ctx) :: e.1[i] <= Label(ctx, st, e.0, f.subs[0])[i]
    requires SeedBound(ctx, st1, r, f, e)
    ensures JobsAppended(ctx, st, r) && UntilSound(ctx, st, r, f) && Saturated(ctx, r, f, e.0, e.1)
  {
    assert JobsAppended(ctx, st, st1);
    JobsTrans(ctx, st, st1, r);
    forall c, i | 0 <= i < Dims(ctx)
      ensures Label(ctx, r, c, f)[i] <= Label(ctx, st, c, f)[i] + Label(ctx, st, c, f.subs[0])[i]
    {
      assert Label(ctx, r, c, f)[i] <= Label(ctx, st1, c, f)[i] + Label(ctx, st1, c, f.subs[0])[i] + SeedOwn(e, c, i);
      assert Label(ctx, st1, c, f) == Label(ctx, st, c, f);
      assert Label(ctx, st1, c, f.subs[0]) == Label(ctx, st, c, f.subs[0]);
    }
  }

  // ---------------------------------------------------------------- negation

  predicate IsNegation(f: Formula)
  {
    f.Apply? && f.op == Negation && |f.subs| >= 1
  }

  /** The full parameter range less the operand's colours at `n`. */
  function Complement(ctx: Context, n: Node, f: Formula): (r: ColorSet)
    requires IsNegation(f) && LabelsHaveDims(n, Dims(ctx))
    ensures |r| == Dims(ctx)
  {
    Subtract(GetFullParamRange(ctx.graph), GetValidColors(n, f.subs[0], Dims(ctx)))
  }

  /** One node of the negation loop: a non-empty complement joins the label. */
  function NegationNode(ctx: Context, n: Node, f: Formula): (r: Node)
    requires IsNegation(f) && LabelsHaveDims(n, Dims(ctx))
    ensures LabelsHaveDims(r, Dims(ctx))
    ensures r.coordinates == n.coordinates && r.graphId == n.graphId
  {
    var full := Complement(ctx, n, f);
    if !IsEmpty(full) then AddFormula(n, f, full) else n
  }

  /** The negation branch of `processFormula`: every cached node, independently. */
  function ProcessNegation(ctx: Context, st: State, f: Formula): (r: State)
    requires ValidState(ctx, st) && IsNegation(f)
    ensures ValidState(ctx, r) && r.outbox == st.outbox
    ensures r.fac.cache.Keys == st.fac.cache.Keys && r.fac.revealed == st.fac.revealed
    ensures forall c, g | g != f :: Label(ctx, r, c, g) == Label(ctx, st, c, g)
  {
    var cache := map c | c in st.fac.cache :: NegationNode(ctx, st.fac.cache[c], f);
    State(st.fac.(cache := cache), st.outbox)
  }

  /** The label of `f` a node not yet labelled with it gets from the negation loop. */
  lemma {:induction false} NegationNodeLabel(ctx: Context, n: Node, f: Formula)
    requires IsNegation(f) && LabelsHaveDims(n, Dims(ctx))
    requires forall i | 0 <= i < Dims(ctx) :: GetValidColors(n, f, Dims(ctx))[i] == {}
    ensures forall i | 0 <= i < Dims(ctx) ::
      GetValidColors(NegationNode(ctx, n, f), f, Dims(ctx))[i] ==
      (if IsEmpty(Complement(ctx, n, f)) then {} else Complement(ctx, n, f)[i])
  {
  }

  /** Node-level form of `NegationExcludesOperand`. */
  lemma {:induction false} NegationNodeExcludes(ctx: Context, n: Node, f: Formula, x: seq<real>)
    requires IsNegation(f) && LabelsHaveDims(n, Dims(ctx)) && Dims(ctx) > 0
    requires forall i | 0 <= i < Dims(ctx) :: GetValidColors(n, f, Dims(ctx))[i] == {}
    ensures InColors(x, GetValidColors(NegationNode(ctx, n, f), f, Dims(ctx))) ==>
      InColors(x, GetFullParamRange(ctx.graph)) && !InColors(x, GetValidColors(n, f.subs[0], Dims(ctx)))
  {
    var full := Complement(ctx, n, f);
    NegationNodeLabel(ctx, n, f);
    var l := GetValidColors(NegationNode(ctx, n, f), f, Dims(ctx));
    if IsEmpty(full) {
      assert l[0] == {};
    } else {
      assert l == full;
      SubtractValuations(GetFullParamRange(ctx.graph), GetValidColors(n, f.subs[0], Dims(ctx)), x);
    }
  }

  /**
   * A colour valuation the negation adds to a node not yet labelled with it lies in the
   * full parameter range and is not a valuation of the operand there.
   */
  lemma {:induction false} NegationExcludesOperand(ctx: Context, st: State, f: Formula, c: Coords, x: seq<real>)
    requires ValidState(ctx, st) && IsNegation(f) && Dims(ctx) > 0
    requires forall i | 0 <= i < Dims(ctx) :: Label(ctx, st, c, f)[i] == {}
    ensures InColors(x, Label(ctx, ProcessNegation(ctx, st, f), c, f)) ==>
      InColors(x, GetFullParamRange(ctx.graph)) && !InColors(x, Label(ctx, st, c, f.subs[0]))
  {
    var r := ProcessNegation(ctx, st, f);
    if c in st.fac.cache {
      var n := st.fac.cache[c];
      assert Label(ctx, st, c, f) == GetValidColors(n, f, Dims(ctx));
      NegationNodeExcludes(ctx, n, f, x);
      assert Label(ctx, r, c, f) == GetValidColors(NegationNode(ctx, n, f), f, Dims(ctx));
    } else {
      assert Label(ctx, r, c, f)[0] == {};
    }
  }

  /** Node-level form of `NegationExactForOneParameter`. */
  lemma {:induction false} NegationNodeExact(ctx: Context, n: Node, f: Formula, x: seq<real>)
    requires IsNegation(f) && LabelsHaveDims(n, Dims(ctx)) && Dims(ctx) == 1
    requires GetValidColors(n, f, Dims(ctx))[0] == {}
    ensures InColors(x, GetValidColors(NegationNode(ctx, n, f), f, Dims(ctx))) <==>
      InColors(x, GetFullParamRange(ctx.graph)) && !InColors(x, GetValidColors(n, f.subs[0], Dims(ctx)))
  {
    var full := Complement(ctx, n, f);
    NegationNodeLabel(ctx, n, f);
    if IsEmpty(full) {
      assert full[0] == {};
    }
  }

  /**
   * With a single parameter the per-dimension difference is exact: a cached node gains
   * precisely the valuations of the full range that the operand lacks.
   */
  lemma {:induction false} NegationExactForOneParameter(ctx: Context, st: State, f: Formula, c: Coords, x: seq<real>)
    requires ValidState(ctx, st) && IsNegation(f) && Dims(ctx) == 1 && c in st.fac.cache
    requires Label(ctx, st, c, f)[0] == {}
    ensures InColors(x, Label(ctx, ProcessNegation(ctx, st, f), c, f)) <==>
      InColors(x, GetFullParamRange(ctx.graph)) && !InColors(x, Label(ctx, st, c, f.subs[0]))
  {
    var n := st.fac.cache[c];
    assert Label(ctx, st, c, f) == GetValidColors(n, f, Dims(ctx));
    NegationNodeExact(ctx, n, f, x);
    assert Label(ctx, ProcessNegation(ctx, st, f), c, f) == GetValidColors(NegationNode(ctx, n, f), f, Dims(ctx));
  }

  /**
   * One node of the negation loop as the source writes it, with `getFullParamRange` of one
   * dimension per variable: building it throws when parameters outnumber variables, and
   * `subtract` throws reading the narrower operand label when variables outnumber them.
   */
  function NegationNodeAsWritten(ctx: Context, n: Node, f: Formula): (r: Result<Node>)
    requires IsNegation(f) && LabelsHaveDims(n, Dims(ctx))
    ensures r.Err? <==> VariableCount(ctx.graph.model) != ParameterCount(ctx.graph.model)
    ensures r.Err? ==> r.error == IndexOutOfBounds
    ensures r.Ok? ==> r.value == NegationNode(ctx, n, f)
  {
    FullParamRangeCorrectionAgrees(ctx.graph);
    var full :- GetFullParamRangeAsWritten(ctx.graph);
    var rest :- TrySubtract(full, GetValidColors(n, f.subs[0], Dims(ctx)));
    if !IsEmpty(rest) then Ok(AddFormula(n, f, rest)) else Ok(n)
  }

  /**
   * The negation branch as the source writes it. Every cached node throws or none does,
   * so the first node the loop visits decides: a model whose variable and parameter
   * counts differ fails as soon as the cache holds a node, and otherwise the branch is
   * the corrected one.
   */
  function ProcessNegationAsWritten(ctx: Context, st: State, f: Formula): (r: Result<State>)
    requires ValidState(ctx, st) && IsNegation(f)
    ensures r.Err? <==> |st.fac.cache| > 0 && VariableCount(ctx.graph.model) != ParameterCount(ctx.graph.model)
    ensures r.Err? ==> r.error == IndexOutOfBounds
    ensures r.Ok? ==> r.value == ProcessNegation(ctx, st, f)
  {
    if exists c | c in st.fac.cache :: NegationNodeAsWritten(ctx, st.fac.cache[c], f).Err? then
      Err(IndexOutOfBounds)
    else
      var cache := map c | c in st.fac.cache :: NegationNodeAsWritten(ctx, st.fac.cache[c], f).value;
      assert |st.fac.cache| > 0 ==> VariableCount(ctx.graph.model) == ParameterCount(ctx.graph.model) by {
        if |st.fac.cache| > 0 {
          var c :| c in st.fac.cache;
          assert NegationNodeAsWritten(ctx, st.fac.cache[c], f).Ok?;
        }
      }
      assert cache == map c | c in st.fac.cache :: NegationNode(ctx, st.fac.cache[c], f);
      Ok(State(st.fac.(cache := cache), st.outbox))
  }

  /**
   * Two variables and one parameter: the corrected negation labels the one cached node
   * with the whole parameter range, while the branch as written throws.
   */
  lemma NegationAsWrittenThrows()
    ensures var full := Range(Closed(0.0), Closed(1.0));
      var ctx := Context(Graph(Model([full, full], [full], {0.5}), Partitioner(1, [full]), 0), map[], map[], 0);
      var p := Apply(ExistsNext, []);
      var f := Apply(Negation, [p]);
      var st := State(Factory(0, map[[0, 0] := Node([0, 0], 0, map[], map[])], [[0, 0]], {}), []);
      ValidState(ctx, st) && IsNegation(f) &&
      Label(ctx, ProcessNegation(ctx, st, f), [0, 0], f) == [{0.5}] &&
      ProcessNegationAsWritten(ctx, st, f) == Err(IndexOutOfBounds)
  {
    var full := Range(Closed(0.0), Closed(1.0));
    var ctx := Context(Graph(Model([full, full], [full], {0.5}), Partitioner(1, [full]), 0), map[], map[], 0);
    var p := Apply(ExistsNext, []);
    var f := Apply(Negation, [p]);
    var n := Node([0, 0], 0, map[], map[]);
    var st := State(Factory(0, map[[0, 0] := n], [[0, 0]], {}), []);
    assert (set x | x in {0.5} && full.Contains(x)) == {0.5} by {
      assert full.Contains(0.5);
    }
    assert Denote({0.5}, full) == {0.5};
    assert ctx.graph.model.parameterRange[0] == full;
    var r := GetFullParamRange(ctx.graph);
    assert |r| == 1 && r[0] == {0.5};
    assert r == [{0.5}];
    var e := GetValidColors(n, f.subs[0], Dims(ctx));
    assert |e| == 1 && e[0] == {};
    assert Dims(ctx) == 1 && {0.5} - {} == {0.5};
    assert Complement(ctx, n, f)[0] == {0.5} - {};
    assert Complement(ctx, n, f) == [{0.5}];
    assert NegationNode(ctx, n, f).formulae[f] == [{0.5}];
    assert ProcessNegation(ctx, st, f).fac.cache[[0, 0]] == NegationNode(ctx, n, f);
    assert NegationNodeAsWritten(ctx, n, f).Err?;
  }

  // ---------------------------------------------------------------- conjunction

  predicate IsAnd(f: Formula)
  {
    f.Apply? && f.op == And && |f.subs| >= 2
  }

  /** The colours of both operands at `n`. */
  function Meet(ctx: Context, n: Node, f: Formula): (r: ColorSet)
    requires IsAnd(f) && LabelsHaveDims(n, Dims(ctx))
    ensures |r| == Dims(ctx)
  {
    Intersect(GetValidColors(n, f.subs[0], Dims(ctx)), GetValidColors(n, f.subs[1], Dims(ctx)))
  }

  /** One node of the conjunction loop: a non-empty meet joins the label; the operands stay as they were. */
  function AndNode(ctx: Context, n: Node, f: Formula): (r: Node)
    requires IsAnd(f) && LabelsHaveDims(n, Dims(ctx))
    ensures LabelsHaveDims(r, Dims(ctx))
    ensures r.coordinates == n.coordinates && r.graphId == n.graphId
  {
    var meet := Meet(ctx, n, f);
    if !IsEmpty(meet) then AddFormula(n, f, meet) else n
  }

  /**
   * The conjunction loop as the source writes it: `getValidColors` hands out the stored
   * colours of the first operand and `intersect` narrows them in place, so that label
   * becomes the meet whether or not anything is added.
   */
  function AndNodeAsWritten(ctx: Context, n: Node, f: Formula): (r: Node)
    requires IsAnd(f) && LabelsHaveDims(n, Dims(ctx))
    ensures LabelsHaveDims(r, Dims(ctx))
    ensures r.coordinates == n.coordinates && r.graphId == n.graphId
  {
    var meet := Meet(ctx, n, f);
    var narrowed := if f.subs[0] in n.formulae then n.(formulae := n.formulae[f.subs[0] := meet]) else n;
    if !IsEmpty(meet) then AddFormula(narrowed, f, meet) else narrowed
  }

  /** The two agree on the conjunction's label; the source also overwrites the first operand's. */
  lemma {:induction false} AndAsWrittenNarrowsOperand(ctx: Context, n: Node, f: Formula)
    requires IsAnd(f) && LabelsHaveDims(n, Dims(ctx))
    ensures GetValidColors(AndNodeAsWritten(ctx, n, f), f, Dims(ctx)) == GetValidColors(AndNode(ctx, n, f), f, Dims(ctx))
    ensures f.subs[0] in n.formulae ==> AndNodeAsWritten(ctx, n, f).formulae[f.subs[0]] == Meet(ctx, n, f)
    ensures GetValidColors(AndNode(ctx, n, f), f.subs[0], Dims(ctx)) == GetValidColors(n, f.subs[0], Dims(ctx))
  {
    SubFormulaDiffers(f, 0);
  }

  /** The node of the finding: `p` holds {1, 2}, `q` holds {1}. */
  function AliasNode(): Node
  {
    Node([0], 0, map[FloatProp("p", Gt, 0.0) := [{1.0, 2.0}], FloatProp("q", Gt, 0.0) := [{1.0}]], map[])
  }

  function AliasContext(): Context
  {
    var m := Model([ClosedRange(0.0, 1.0)], [ClosedRange(0.0, 2.0)], {0.0, 1.0, 2.0});
    Context(Graph(m, Partitioner(1, [ClosedRange(0.0, 1.0)]), 0), map[], map[], 0)
  }

  /** Checking `p ∧ q` as written leaves `p` holding only {1}: a later `p` is read wrong. */
  lemma {:induction false} AndAliasCorruptsOperand()
    ensures var p, q := FloatProp("p", Gt, 0.0), FloatProp("q", Gt, 0.0);
      var f := Binary(And, p, q);
      AndNodeAsWritten(AliasContext(), AliasNode(), f).formulae[p] == [{1.0}] &&
      AliasNode().formulae[p] == [{1.0, 2.0}] &&
      AndNode(AliasContext(), AliasNode(), f).formulae[p] == [{1.0, 2.0}]
  {
    var p, q := FloatProp("p", Gt, 0.0), FloatProp("q", Gt, 0.0);
    var f := Binary(And, p, q);
    var n := AliasNode();
    assert p != q && p != f;
    assert Dims(AliasContext()) == 1;
    assert GetValidColors(n, p, 1) == [{1.0, 2.0}] && GetValidColors(n, q, 1) == [{1.0}];
    var meet := Meet(AliasContext(), n, f);
    assert meet[0] == {1.0, 2.0} * {1.0};
    assert {1.0, 2.0} * {1.0} == {1.0};
    assert meet == [{1.0}];
  }

  /** The conjunction branch of `processFormula`, with the operands left intact. */
  function ProcessAnd(ctx: Context, st: State, f: Formula): (r: State)
    requires ValidState(ctx, st) && IsAnd(f)
    ensures ValidState(ctx, r) && r.outbox == st.outbox
    ensures r.fac.cache.Keys == st.fac.cache.Keys && r.fac.revealed == st.fac.revealed
    ensures forall c, g | g != f :: Label(ctx, r, c, g) == Label(ctx, st, c, g)
  {
    var cache := map c | c in st.fac.cache :: AndNode(ctx, st.fac.cache[c], f);
    State(st.fac.(cache := cache), st.outbox)
  }

  /** The conjunction branch as written: the first operand's labels are narrowed too. */
  function ProcessAndAsWritten(ctx: Context, st: State, f: Formula): (r: State)
    requires ValidState(ctx, st) && IsAnd(f)
    ensures ValidState(ctx, r) && r.fac.cache.Keys == st.fac.cache.Keys
  {
    var cache := map c | c in st.fac.cache :: AndNodeAsWritten(ctx, st.fac.cache[c], f);
    State(st.fac.(cache := cache), st.outbox)
  }

  /** The label of `f` a node not yet labelled with it gets from the conjunction loop. */
  lemma {:induction false} AndNodeLabel(ctx: Context, n: Node, f: Formula)
    requires IsAnd(f) && LabelsHaveDims(n, Dims(ctx))
    requires forall i | 0 <= i < Dims(ctx) :: GetValidColors(n, f, Dims(ctx))[i] == {}
    ensures forall i | 0 <= i < Dims(ctx) ::
      GetValidColors(AndNode(ctx, n, f), f, Dims(ctx))[i] ==
      (if IsEmpty(Meet(ctx, n, f)) then {} else Meet(ctx, n, f)[i])
  {
  }

  /**
   * At a node not yet labelled with the conjunction, a valuation ends in its label exactly
   * when it is a valuation of both operands.
   */
  lemma {:induction false} AndExact(ctx: Context, st: State, f: Formula, c: Coords, x: seq<real>)
    requires ValidState(ctx, st) && IsAnd(f) && c in st.fac.cache
    requires forall i | 0 <= i < Dims(ctx) :: Label(ctx, st, c, f)[i] == {}
    ensures InColors(x, Label(ctx, ProcessAnd(ctx, st, f), c, f)) <==>
      InColors(x, Label(ctx, st, c, f.subs[0])) && InColors(x, Label(ctx, st, c, f.subs[1]))
  {
    var r := ProcessAnd(ctx, st, f);
    var n := st.fac.cache[c];
    var meet := Meet(ctx, n, f);
    IntersectValuations(GetValidColors(n, f.subs[0], Dims(ctx)), GetValidColors(n, f.subs[1], Dims(ctx)), x);
    assert Label(ctx, st, c, f) == GetValidColors(n, f, Dims(ctx));
    AndNodeLabel(ctx, n, f);
    assert Label(ctx, r, c, f) == GetValidColors(AndNode(ctx, n, f), f, Dims(ctx));
    if IsEmpty(meet) {
      IsEmptyMeansNoValuation(meet);
      assert Label(ctx, r, c, f)[0] == {};
    } else {
      assert Label(ctx, r, c, f) == meet;
    }
  }

  /** Across the whole cache, the source's loop narrows every labelled first operand to the meet. */
  lemma {:induction false} ProcessAndAsWrittenNarrows(ctx: Context, st: State, f: Formula, c: Coords)
    requires ValidState(ctx, st) && IsAnd(f) && c in st.fac.cache && f.subs[0] in st.fac.cache[c].formulae
    ensures Label(ctx, ProcessAndAsWritten(ctx, st, f), c, f.subs[0]) == Meet(ctx, st.fac.cache[c], f)
    ensures Label(ctx, ProcessAndAsWritten(ctx, st, f), c, f) == Label(ctx, ProcessAnd(ctx, st, f), c, f)
  {
    AndAsWrittenNarrowsOperand(ctx, st.fac.cache[c], f);
  }

  // ---------------------------------------------------------------- dispatch

  /** The operators `processFormula` handles; every other one leaves the state alone. */
  predicate Handled(f: Formula)
  {
    f.Apply? && f.op in {ExistsNext, ExistsUntil, Negation, And}
  }

  /**
   * `getSubFormulaAt` fails for a missing operand. Exists-next and exists-until read their
   * operand before anything else; negation and conjunction read theirs only inside the
   * loop over the cache, so an empty cache never reaches the read.
   */
  predicate MissingOperand(st: State, f: Formula)
  {
    f.Apply? &&
    ((f.op == ExistsNext && |f.subs| < 1) || (f.op == ExistsUntil && |f.subs| < 2) ||
     (f.op == Negation && |f.subs| < 1 && |st.fac.cache| > 0) ||
     (f.op == And && |f.subs| < 2 && |st.fac.cache| > 0))
  }

  /** `processFormula(formula)`: the primary run of one operator on this rank. */
  function ProcessFormula(ctx: Context, st: State, f: Formula): (r: Result<State>)
    requires WellFormedContext(ctx) && ValidState(ctx, st)
    ensures r.Err? <==> MissingOperand(st, f)
    ensures r.Err? ==> r.error == IndexOutOfBounds
    ensures r.Ok? ==> ValidState(ctx, r.value) && (forall c | c in st.fac.cache :: c in r.value.fac.cache)
    ensures r.Ok? ==> forall c, g | g != f :: Label(ctx, r.value, c, g) == Label(ctx, st, c, g)
    ensures r.Ok? && !Handled(f) ==> r.value == st
  {
    if MissingOperand(st, f) then Err(IndexOutOfBounds)
    else if !f.Apply? then Ok(st)
    else if f.op == ExistsNext then Ok(ProcessNext(ctx, st, f))
    else if f.op == ExistsUntil then Ok(ProcessUntil(ctx, st, f))
    else if f.op == Negation then
      if |f.subs| < 1 then Ok(st) else Ok(ProcessNegation(ctx, st, f))
    else if f.op == And then
      if |f.subs| < 2 then Ok(st) else Ok(ProcessAnd(ctx, st, f))
    else Ok(st)
  }

  /** The cached node `c` stores a label for `f`. */
  predicate HasLabel(st: State, c: Coords, f: Formula)
  {
    c in st.fac.cache && f in st.fac.cache[c].formulae
  }

  /** The cached node `c` replaced by `n`. */
  function PutNode(st: State, c: Coords, n: Node): (r: State)
    requires c in st.fac.cache
    ensures r.fac.cache.Keys == st.fac.cache.Keys && r.fac.cache[c] == n && r.outbox == st.outbox
    ensures forall d | d in st.fac.cache && d != c :: r.fac.cache[d] == st.fac.cache[d]
  {
    State(st.fac.(cache := st.fac.cache[c := n]), st.outbox)
  }

  /**
   * `processFormula` with colours whose dimension is not the model's. Every colour-set
   * operation runs over its receiver's dimensions and reads the argument's at the same
   * index, so a short argument throws `IndexOutOfBoundsException`, surplus dimensions of
   * an argument are ignored, and a label stored for the first time keeps whatever
   * dimension it came with.
   */
  function ReceiveMisfit(ctx: Context, st: State, f: Formula, my: Coords, colors: ColorSet): (r: Result<State>)
    requires ValidState(ctx, st) && |colors| != Dims(ctx)
    ensures r.Err? ==> r.error == IndexOutOfBounds
    ensures r.Ok? ==> forall c :: c in r.value.fac.cache <==> c in st.fac.cache || c == my
    ensures r.Ok? ==> forall c, g | c != my || g != f :: Label(ctx, r.value, c, g) == Label(ctx, st, c, g)
    ensures f.Apply? && f.op == ExistsNext ==> (r.Err? <==> HasLabel(st, my, f) && |colors| < Dims(ctx))
    ensures f.Apply? && f.op == ExistsNext && r.Ok? && HasLabel(st, my, f) ==>
      |Label(ctx, r.value, my, f)| == Dims(ctx) &&
      forall i | 0 <= i < Dims(ctx) :: Label(ctx, r.value, my, f)[i] == Label(ctx, st, my, f)[i] + colors[i]
    ensures f.Apply? && f.op == ExistsNext && !HasLabel(st, my, f) ==> r.Ok? && Label(ctx, r.value, my, f) == colors
    ensures f.Apply? && f.op == ExistsUntil && (|f.subs| < 2 || |colors| > Dims(ctx) || |colors| == 0) ==>
      r == Err(IndexOutOfBounds)
    ensures IsUntil(f) && 0 < |colors| < Dims(ctx) ==>
      var meet := Intersect(colors, Label(ctx, st, my, f.subs[0]));
      (IsEmpty(meet) ==> r.Ok? && Label(ctx, r.value, my, f) == Label(ctx, st, my, f)) &&
      (!IsEmpty(meet) && HasLabel(st, my, f) ==> r == Err(IndexOutOfBounds)) &&
      (!IsEmpty(meet) && !HasLabel(st, my, f) ==> r.Ok? && Label(ctx, r.value, my, f) == meet)
    ensures !(f.Apply? && (f.op == ExistsNext || f.op == ExistsUntil)) ==>
      r.Ok? && forall c, g :: Label(ctx, r.value, c, g) == Label(ctx, st, c, g)
  {
    var st1 := Register(ctx, st, [my]);
    var n := st1.fac.cache[my];
    if f.Apply? && f.op == ExistsNext then
      var n' :- TryAddFormula(n, f, colors);
      Ok(PutNode(st1, my, n'))
    else if f.Apply? && f.op == ExistsUntil then
      if |f.subs| < 2 then Err(IndexOutOfBounds)
      else
        var meet :- TryIntersect(colors, GetValidColors(n, f.subs[0], Dims(ctx)));
        if IsEmpty(meet) then Ok(st1)
        else
          var enclosed :- TryEncloses(GetValidColors(n, f, Dims(ctx)), meet);
          if enclosed then Ok(st1)
          else
            var n' :- TryAddFormula(n, f, meet);
            Ok(PutNode(st1, my, n'))
    else Ok(st1)
  }

  /**
   * `processFormula(formula, my, colours)`: a job received from another rank. The node is
   * first fetched through `getNode`, as the listener does; exists-next joins the colours,
   * exists-until continues the walk, anything else only registers the node. Colours of
   * another dimension than the model's take the paths of `ReceiveMisfit`.
   */
  function ReceiveFormula(ctx: Context, st: State, f: Formula, my: Coords, colors: ColorSet): (r: Result<State>)
    requires WellFormedContext(ctx) && ValidState(ctx, st)
    ensures |colors| == Dims(ctx) ==> (r.Err? <==> f.Apply? && f.op == ExistsUntil && |f.subs| < 2)
    ensures |colors| == Dims(ctx) && r.Ok? ==> ValidState(ctx, r.value) && my in r.value.fac.cache
    ensures |colors| != Dims(ctx) ==> r == ReceiveMisfit(ctx, st, f, my, colors)
    ensures r.Ok? ==> forall c | c in st.fac.cache :: c in r.value.fac.cache
    ensures r.Ok? ==> forall c, g | g != f :: Label(ctx, r.value, c, g) == Label(ctx, st, c, g)
    ensures |colors| == Dims(ctx) && r.Ok? && f.Apply? && f.op == ExistsNext ==>
      forall i | 0 <= i < Dims(ctx) :: Label(ctx, r.value, my, f)[i] == Label(ctx, st, my, f)[i] + colors[i]
  {
    if |colors| != Dims(ctx) then ReceiveMisfit(ctx, st, f, my, colors)
    else if f.Apply? && f.op == ExistsNext then Ok(ReceiveNext(ctx, st, f, my, colors))
    else if f.Apply? && f.op == ExistsUntil then
      if |f.subs| < 2 then Err(IndexOutOfBounds) else Ok(ReceiveUntil(ctx, st, f, my, colors))
    else Ok(Register(ctx, st, [my]))
  }

  /**
   * A model with one variable and two parameters. The listener decodes a job's colours
   * with one dimension per variable, so an exists-next job for a node whose label already
   * has both parameter dimensions throws on the second one.
   */
  lemma NarrowJobFails()
    ensures var full := Range(Closed(0.0), Closed(1.0));
      var ctx := Context(Graph(Model([full], [full, full], {0.5}), Partitioner(1, [full]), 0), map[], map[], 0);
      var f := Apply(ExistsNext, []);
      var st := State(Factory(0, map[[0] := Node([0], 0, map[f := [{0.5}, {0.5}]], map[])], [[0]], {}), []);
      var ranges := [[(0.25, 0.75)]];
      var sent := Listener.EncodeHeader(1, 1, 0, [0], [0], ranges);
      sent.Ok? &&
      var inbox := [Listener.Incoming(sent.value, Listener.Payload(ranges, 1)), Listener.Incoming(Listener.FinishBuffer(1), [])];
      Listener.WellFormedInbox(1, inbox) &&
      var got := Listener.ReadInbox({0.5}, 1, inbox);
      |got.jobs| == 1 && got.jobs[0].dest == [0] && got.jobs[0].colors == [{0.5}] &&
      WellFormedContext(ctx) && ValidState(ctx, st) &&
      ReceiveFormula(ctx, st, f, got.jobs[0].dest, got.jobs[0].colors) == Err(IndexOutOfBounds)
  {
    var u, ranges := {0.5}, [[(0.25, 0.75)]];
    Listener.DispatchedJobReceived(u, 1, 1, 0, [0], [0], ranges);
    assert Sum(Listener.Lengths(ranges, 1)) == 2 by {
      assert Listener.Lengths(ranges, 1) == [2];
    }
    assert Listener.IncreasingRanges(ranges, 1);
    assert Listener.InsideSome(0.5, ranges[0]);
    assert (set x | x in u && Listener.InsideSome(x, ranges[0])) == {0.5};
    assert Listener.Interior(u, ranges, 1)[0] == {0.5};
    assert Listener.Interior(u, ranges, 1) == [{0.5}];
  }
}
