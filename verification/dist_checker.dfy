/**
 * `DistributedModelChecker.check` on one rank: propositions are labelled from
 * `getAllValidNodes`; any other formula first checks its operands, in order, and then
 * runs one primary task for itself. Jobs for other ranks stay in the outbox; their
 * execution elsewhere and the replies are not part of this run.
 */
module DistChecker {
  import opened Wrappers
  import opened Formulas
  import opened DistNode
  import opened NodeFactory
  import opened Verificator

  /** `FormulaChecker` starts its verificator with task id 0. */
  const PrimaryTask: int := 0

  function Primary(ctx: Context): (r: Context)
    ensures r.taskId == PrimaryTask && r.graph == ctx.graph && r.preds == ctx.preds && r.init == ctx.init
  {
    ctx.(taskId := PrimaryTask)
  }

  /** The formulas a check starts a checker run for, in the order it starts them. */
  function Runs(f: Formula): seq<Formula>
    decreases f, 1, 0
  {
    if !f.Apply? then [] else RunsFrom(f, 0) + [f]
  }

  function RunsFrom(f: Formula, k: nat): seq<Formula>
    requires f.Apply? && k <= |f.subs|
    decreases f, 0, |f.subs| - k
  {
    if k == |f.subs| then [] else Runs(f.subs[k]) + RunsFrom(f, k + 1)
  }

  /** The proposition loop: each returned node gains the returned colours. */
  function LabelAll(ctx: Context, st: State, f: Formula, entries: seq<Entry>): (r: State)
    requires ValidState(ctx, st) && Cached(ctx, st, entries)
    decreases |entries|
    ensures ValidState(ctx, r) && r.outbox == st.outbox
    ensures r.fac.cache.Keys == st.fac.cache.Keys && r.fac.revealed == st.fac.revealed
    ensures forall c, g | g != f :: Label(ctx, r, c, g) == Label(ctx, st, c, g)
  {
    if |entries| == 0 then st
    else
      var st1 := AddLabel(ctx, st, entries[0].0, f, entries[0].1);
      assert Cached(ctx, st1, entries[1..]);
      LabelAll(ctx, st1, f, entries[1..])
  }

  lemma {:induction false} LabelAllLabels(ctx: Context, st: State, f: Formula, entries: seq<Entry>, c: Coords, i: nat)
    requires ValidState(ctx, st) && Cached(ctx, st, entries) && i < Dims(ctx)
    decreases |entries|
    ensures Label(ctx, LabelAll(ctx, st, f, entries), c, f)[i] == Label(ctx, st, c, f)[i] + SeedColors(entries, c, i)
  {
    if |entries| > 0 {
      var st1 := AddLabel(ctx, st, entries[0].0, f, entries[0].1);
      assert Cached(ctx, st1, entries[1..]);
      LabelAllLabels(ctx, st1, f, entries[1..], c, i);
    }
  }

  /** The proposition branch of `check`. */
  function CheckProposition(ctx: Context, st: State, f: Formula): (r: State)
    requires WellFormedContext(ctx) && ValidState(ctx, st)
    ensures ValidState(ctx, r) && r.outbox == st.outbox
    ensures forall c | c in st.fac.cache :: c in r.fac.cache
    ensures forall c, g | g != f :: Label(ctx, r, c, g) == Label(ctx, st, c, g)
  {
    var pr := Seeds(ctx, st, f);
    LabelAll(ctx, pr.0, f, pr.1)
  }

  /** A proposition is labelled with exactly the colours `getAllValidNodes` returns for each node. */
  lemma PropositionLabels(ctx: Context, st: State, f: Formula, c: Coords, i: nat)
    requires WellFormedContext(ctx) && ValidState(ctx, st) && i < Dims(ctx)
    ensures Label(ctx, CheckProposition(ctx, st, f), c, f)[i] ==
      Label(ctx, st, c, f)[i] + SeedColors(Seeds(ctx, st, f).1, c, i)
  {
    var pr := Seeds(ctx, st, f);
    LabelAllLabels(ctx, pr.0, f, pr.1, c, i);
  }

  /** Served from the cache, the answer is the stored labels themselves: checking again changes nothing. */
  lemma PropositionRecheckIsNoop(ctx: Context, st: State, f: Formula, c: Coords, i: nat)
    requires WellFormedContext(ctx) && ValidState(ctx, st) && i < Dims(ctx)
    requires !(f.FloatProp? && f !in st.fac.revealed)
    ensures Label(ctx, CheckProposition(ctx, st, f), c, f)[i] == Label(ctx, st, c, f)[i]
  {
    PropositionLabels(ctx, st, f, c, i);
    SeedsAreLabels(ctx, st, f);
    SeedColorsOfLabels(ctx, st, Seeds(ctx, st, f).1, f, c, i);
  }

  /**
   * `check(formula)`: the state after the whole tree is checked and the formulas checker
   * runs were started for. A failed run (an operand missing) ends the check.
   */
  function Check(ctx: Context, st: State, f: Formula): (r: Result<(State, seq<Formula>)>)
    requires WellFormedContext(ctx) && ValidState(ctx, st)
    decreases f, 1, 0
    ensures r.Ok? ==> ValidState(ctx, r.value.0) && (forall c | c in st.fac.cache :: c in r.value.0.fac.cache)
    ensures r.Ok? ==> r.value.1 == Runs(f)
    ensures r.Ok? ==> forall c, g | !Occurs(g, f) :: Label(ctx, r.value.0, c, g) == Label(ctx, st, c, g)
    ensures r.Err? ==> r.error == IndexOutOfBounds
    ensures WellFormed(f) ==> r.Ok?
  {
    if !f.Apply? then Ok((CheckProposition(ctx, st, f), []))
    else
      var subs := CheckFrom(ctx, st, f, 0);
      if subs.Err? then Err(subs.error)
      else
        PrimaryReadsTheSame(ctx, subs.value.0);
        var run := ProcessFormula(Primary(ctx), subs.value.0, f);
        if run.Err? then Err(run.error)
        else Ok((run.value, subs.value.1 + [f]))
  }

  /** The primary context differs only in the task id, which no label or owner depends on. */
  lemma PrimaryReadsTheSame(ctx: Context, st: State)
    ensures Dims(Primary(ctx)) == Dims(ctx)
    ensures WellFormedContext(Primary(ctx)) == WellFormedContext(ctx)
    ensures ValidState(Primary(ctx), st) == ValidState(ctx, st)
    ensures forall c, g :: Label(Primary(ctx), st, c, g) == Label(ctx, st, c, g)
  {
  }

  /** The operands of `f` from the `k`-th on, checked in order. */
  function CheckFrom(ctx: Context, st: State, f: Formula, k: nat): (r: Result<(State, seq<Formula>)>)
    requires WellFormedContext(ctx) && ValidState(ctx, st) && f.Apply? && k <= |f.subs|
    decreases f, 0, |f.subs| - k
    ensures r.Ok? ==> ValidState(ctx, r.value.0) && (forall c | c in st.fac.cache :: c in r.value.0.fac.cache)
    ensures r.Ok? ==> r.value.1 == RunsFrom(f, k)
    ensures r.Ok? ==> forall c, g | !Occurs(g, f) :: Label(ctx, r.value.0, c, g) == Label(ctx, st, c, g)
    ensures r.Err? ==> r.error == IndexOutOfBounds
    ensures WellFormed(f) ==> r.Ok?
  {
    if k == |f.subs| then Ok((st, []))
    else
      var first :- Check(ctx, st, f.subs[k]);
      var rest :- CheckFrom(ctx, first.0, f, k + 1);
      assert forall g | !Occurs(g, f) :: !Occurs(g, f.subs[k]) by {
        forall g | Occurs(g, f.subs[k]) ensures Occurs(g, f) {
          OccursInOperand(g, f, k);
        }
      }
      Ok((rest.0, first.1 + rest.1))
  }

  /** There is no memoisation: an operand occurring twice is checked twice. */
  lemma SharedOperandCheckedTwice()
    ensures var p := FloatProp("x", Gt, 1.0);
      var g := Unary(ExistsNext, p);
      var f := Binary(And, g, g);
      Runs(f) == [g, g, f]
  {
    var p := FloatProp("x", Gt, 1.0);
    var g := Unary(ExistsNext, p);
    var f := Binary(And, g, g);
    assert Runs(p) == [];
    assert RunsFrom(g, 1) == [];
    assert Runs(g) == [g];
    assert RunsFrom(f, 2) == [];
    assert RunsFrom(f, 1) == [g];
  }
}
