/**
 * The first sequential checker: colours are integers, every node carries a set of
 * colours per formula, and each operator is one traversal from the initial nodes.
 * The graph is abstract: successor lists, initial nodes and the graph's colour set.
 */
module IntChecker {
  import opened Wrappers
  import opened Formulas

  /** Successor lists by node, the initial nodes, and all colours of the graph. */
  datatype Graph = Graph(succ: map<int, seq<int>>, init: seq<int>, colors: set<int>)

  /** Every successor and every initial node is a node of the graph. */
  predicate WellFormedGraph(g: Graph)
  {
    (forall n, i | n in g.succ && 0 <= i < |g.succ[n]| :: g.succ[n][i] in g.succ) &&
    (forall i | 0 <= i < |g.init| :: g.init[i] in g.succ)
  }

  /** The colours of every node and formula; a missing entry is the empty set. */
  type Labels = map<(int, Formula), set<int>>

  function Get(l: Labels, n: int, f: Formula): set<int>
  {
    if (n, f) in l then l[(n, f)] else {}
  }

  /** `addFormula`: union into the node's colours for `f`. */
  function Add(l: Labels, n: int, f: Formula, c: set<int>): (r: Labels)
    ensures Get(r, n, f) == Get(l, n, f) + c
    ensures forall m, h | m != n || h != f :: Get(r, m, h) == Get(l, m, h)
  {
    l[(n, f) := Get(l, n, f) + c]
  }

  // ---------------------------------------------------------------- reachability

  /** No edge leaves `s`. */
  predicate ClosedSet(g: Graph, s: set<int>)
  {
    forall n, i | n in s && n in g.succ && 0 <= i < |g.succ[n]| :: g.succ[n][i] in s
  }

  function InitSet(g: Graph): set<int>
  {
    set i | 0 <= i < |g.init| :: g.init[i]
  }

  /** The successors of the nodes in `r`. */
  function Post(g: Graph, r: set<int>): set<int>
  {
    set n, i | n in r && n in g.succ && 0 <= i < |g.succ[n]| :: g.succ[n][i]
  }

  function ReachFrom(g: Graph, r: set<int>): (s: set<int>)
    requires WellFormedGraph(g) && r <= g.succ.Keys
    decreases g.succ.Keys - r
    ensures r <= s <= g.succ.Keys && ClosedSet(g, s)
  {
    var next := r + Post(g, r);
    if next == r then r
    else
      ReachFrom(g, next)
  }

  /** The nodes a traversal from the initial nodes visits. */
  function Reach(g: Graph): (s: set<int>)
    requires WellFormedGraph(g)
    ensures InitSet(g) <= s <= g.succ.Keys && ClosedSet(g, s)
  {
    ReachFrom(g, InitSet(g))
  }

  /** Reachability is the least closed set holding the initial nodes. */
  lemma ReachLeast(g: Graph, s: set<int>)
    requires WellFormedGraph(g) && InitSet(g) <= s && ClosedSet(g, s)
    ensures Reach(g) <= s
  {
    ReachFromLeast(g, InitSet(g), s);
  }

  lemma {:induction false} ReachFromLeast(g: Graph, r: set<int>, s: set<int>)
    requires WellFormedGraph(g) && r <= g.succ.Keys && r <= s && ClosedSet(g, s)
    decreases g.succ.Keys - r
    ensures ReachFrom(g, r) <= s
  {
    var next := r + Post(g, r);
    if next != r {
      ReachFromLeast(g, next, s);
    }
  }

  /** Without initial nodes a pass visits nothing. */
  lemma NoInitNoReach(g: Graph)
    requires WellFormedGraph(g) && |g.init| == 0
    ensures Reach(g) == {}
  {
    ReachLeast(g, {});
  }

  // ---------------------------------------------------------------- breadth-first passes

  /**
   * One breadth-first pass: every reachable node gains `val[n]` for `f` when that is
   * non-empty. Each update reads only the operands' colours, which the pass does not
   * write, so the order of visits does not matter.
   */
  function Sweep(l: Labels, f: Formula, reach: set<int>, val: map<int, set<int>>): (r: Labels)
    requires reach <= val.Keys
    ensures forall n, h :: Get(r, n, h) == if h == f && n in reach then Get(l, n, f) + val[n] else Get(l, n, h)
  {
    var added := set n | n in reach && val[n] != {} :: (n, f);
    map k | k in l.Keys + added ::
      if k.1 == f && k.0 in reach && val[k.0] != {} then Get(l, k.0, f) + val[k.0] else l[k]
  }

  /** `checkProposition`: a reachable node where the predicate holds gets all colours. */
  function CheckProposition(g: Graph, l: Labels, f: Formula, holds: int -> bool): (r: Labels)
    requires WellFormedGraph(g)
    ensures forall n, c :: c in Get(r, n, f) <==> c in Get(l, n, f) || (n in Reach(g) && holds(n) && c in g.colors)
    ensures forall n, h | h != f :: Get(r, n, h) == Get(l, n, h)
  {
    var reach := Reach(g);
    Sweep(l, f, reach, map n | n in reach :: if holds(n) then g.colors else {})
  }

  /** The colours some successor has for `h`. */
  function SuccUnion(l: Labels, ms: seq<int>, h: Formula): (r: set<int>)
    ensures forall c :: c in r <==> exists i | 0 <= i < |ms| :: c in Get(l, ms[i], h)
  {
    if |ms| == 0 then {}
    else
      var r := SuccUnion(l, ms[..|ms| - 1], h) + Get(l, ms[|ms| - 1], h);
      assert forall i | 0 <= i < |ms| - 1 :: ms[..|ms| - 1][i] == ms[i];
      r
  }

  /** The colours of `colors` every successor has for `h`. */
  function SuccMeet(l: Labels, ms: seq<int>, h: Formula, colors: set<int>): (r: set<int>)
    ensures forall c :: c in r <==> c in colors && forall i | 0 <= i < |ms| :: c in Get(l, ms[i], h)
  {
    if |ms| == 0 then colors
    else
      var r := SuccMeet(l, ms[..|ms| - 1], h, colors) * Get(l, ms[|ms| - 1], h);
      assert forall i | 0 <= i < |ms| - 1 :: ms[..|ms| - 1][i] == ms[i];
      r
  }

  /** `checkExistsNext`: a reachable node gains the operand colours of its successors. */
  function CheckExistsNext(g: Graph, l: Labels, f: Formula): (r: Labels)
    requires WellFormedGraph(g) && f.Apply? && |f.subs| >= 1
    ensures forall n, c :: c in Get(r, n, f) <==>
      c in Get(l, n, f) || (n in Reach(g) && exists i | 0 <= i < |g.succ[n]| :: c in Get(l, g.succ[n][i], f.subs[0]))
    ensures forall n, h | h != f :: Get(r, n, h) == Get(l, n, h)
  {
    var reach := Reach(g);
    Sweep(l, f, reach, map n | n in reach :: SuccUnion(l, g.succ[n], f.subs[0]))
  }

  /** `checkAnd`: a reachable node gains the colours both operands have there. */
  function CheckAnd(g: Graph, l: Labels, f: Formula): (r: Labels)
    requires WellFormedGraph(g) && f.Apply? && |f.subs| >= 2
    ensures forall n, c :: c in Get(r, n, f) <==>
      c in Get(l, n, f) || (n in Reach(g) && c in Get(l, n, f.subs[0]) && c in Get(l, n, f.subs[1]))
    ensures forall n, h | h != f :: Get(r, n, h) == Get(l, n, h)
  {
    var reach := Reach(g);
    Sweep(l, f, reach, map n | n in reach :: Get(l, n, f.subs[0]) * Get(l, n, f.subs[1]))
  }

  /** `checkNegation`: a reachable node gains the graph colours its operand lacks there. */
  function CheckNegation(g: Graph, l: Labels, f: Formula): (r: Labels)
    requires WellFormedGraph(g) && f.Apply? && |f.subs| >= 1
    ensures forall n, c :: c in Get(r, n, f) <==>
      c in Get(l, n, f) || (n in Reach(g) && c in g.colors && c !in Get(l, n, f.subs[0]))
    ensures forall n, h | h != f :: Get(r, n, h) == Get(l, n, h)
  {
    var reach := Reach(g);
    Sweep(l, f, reach, map n | n in reach :: g.colors - Get(l, n, f.subs[0]))
  }

  /** With a fresh formula, negation is the complement within the graph colours. */
  lemma NegationComplements(g: Graph, l: Labels, f: Formula, n: int)
    requires WellFormedGraph(g) && f.Apply? && |f.subs| >= 1 && Get(l, n, f) == {} && n in Reach(g)
    ensures Get(CheckNegation(g, l, f), n, f) == g.colors - Get(l, n, f.subs[0])
  {
  }

  // ---------------------------------------------------------------- depth-first passes

  /** The two single depth-first passes and the operands they read. */
  datatype Pass = AllFuturePass(operand: Formula) | ExistsUntilPass(phi: Formula, psi: Formula)

  /** Neither operand is the formula being labelled. */
  predicate Reads(p: Pass, f: Formula)
  {
    match p
    case AllFuturePass(a) => a != f
    case ExistsUntilPass(phi, psi) => phi != f && psi != f
  }

  /** What a node gains on entry: its operand colours (for until, the colours of the target). */
  function Entry(l: Labels, p: Pass, n: int): set<int>
  {
    match p
    case AllFuturePass(a) => Get(l, n, a)
    case ExistsUntilPass(_, psi) => Get(l, n, psi)
  }

  /**
   * What a node gains after its successors, whose colours for `f` are read from `succ`:
   * for until, the colours some successor has and the node satisfies the guard for; for
   * all-future, the colours every successor has (all colours when there is none).
   */
  function Exit(g: Graph, l: Labels, succ: Labels, f: Formula, p: Pass, n: int): set<int>
    requires n in g.succ
  {
    match p
    case AllFuturePass(_) => SuccMeet(succ, g.succ[n], f, g.colors)
    case ExistsUntilPass(phi, _) => SuccUnion(succ, g.succ[n], f) * Get(l, n, phi)
  }

  /** The labels of `f` change only at the nodes newly `found`, and only by growing. */
  ghost predicate Framed(l: Labels, r: Labels, f: Formula, found: set<int>, found': set<int>)
  {
    (forall m, h | h != f || m !in found' - found :: Get(r, m, h) == Get(l, m, h)) &&
    (forall m :: Get(l, m, f) <= Get(r, m, f))
  }

  /**
   * `checkAllFutureNode` / `checkExistsUntilNode`: mark `n` found, add its entry
   * colours, visit its successors not yet found, then add its exit colours. The node
   * itself may already be found: the drivers enter every initial node, found or not,
   * and such a node gets its entry and exit colours once more.
   */
  function Dfs(g: Graph, l: Labels, f: Formula, p: Pass, found: set<int>, n: int): (r: (Labels, set<int>))
    requires WellFormedGraph(g) && found <= g.succ.Keys && n in g.succ
    decreases g.succ.Keys - found, if n in found then 2 else 0, 0
    ensures found + {n} <= r.1 <= g.succ.Keys
    ensures Framed(l, r.0, f, found - {n}, r.1)
  {
    var entry := Entry(l, p, n);
    var l1 := if entry != {} then Add(l, n, f, entry) else l;
    var (l2, found2) := Visit(g, l1, f, p, found + {n}, g.succ[n], 0);
    var exit := Exit(g, l2, l2, f, p, n);
    var l3 := if exit != {} then Add(l2, n, f, exit) else l2;
    (l3, found2)
  }

  /** The loop over `ms[k..]`: descend into every node not yet found. */
  function Visit(g: Graph, l: Labels, f: Formula, p: Pass, found: set<int>, ms: seq<int>, k: nat)
    : (r: (Labels, set<int>))
    requires WellFormedGraph(g) && found <= g.succ.Keys && k <= |ms|
    requires forall i | 0 <= i < |ms| :: ms[i] in g.succ
    decreases g.succ.Keys - found, 1, |ms| - k
    ensures found <= r.1 <= g.succ.Keys
    ensures forall i | k <= i < |ms| :: ms[i] in r.1
    ensures Framed(l, r.0, f, found, r.1)
  {
    if k == |ms| then (l, found)
    else if ms[k] in found then Visit(g, l, f, p, found, ms, k + 1)
    else
      var (l1, found1) := Dfs(g, l, f, p, found, ms[k]);
      Visit(g, l1, f, p, found1, ms, k + 1)
  }

  /**
   * The drivers' loop over the initial nodes from the `k`-th on: each is entered with
   * the shared found set, whether or not an earlier root's pass already found it.
   */
  function Roots(g: Graph, l: Labels, f: Formula, p: Pass, found: set<int>, k: nat): (r: (Labels, set<int>))
    requires WellFormedGraph(g) && found <= g.succ.Keys && k <= |g.init|
    decreases |g.init| - k
    ensures found <= r.1 <= g.succ.Keys
    ensures forall i | k <= i < |g.init| :: g.init[i] in r.1
    ensures Framed(l, r.0, f, {}, r.1)
  {
    if k == |g.init| then (l, found)
    else
      var (l1, found1) := Dfs(g, l, f, p, found, g.init[k]);
      Roots(g, l1, f, p, found1, k + 1)
  }

  /** `checkAllFuture` / `checkExistsUntil` as written: one depth-first pass per initial node. */
  function DepthFirst(g: Graph, l: Labels, f: Formula, p: Pass): (r: Labels)
    requires WellFormedGraph(g)
    ensures forall n, h | h != f :: Get(r, n, h) == Get(l, n, h)
    ensures forall n :: Get(l, n, f) <= Get(r, n, f)
  {
    Roots(g, l, f, p, {}, 0).0
  }

  /** All-future at a node without successors: its operand colours and every graph colour. */
  lemma AllFutureLeaf(g: Graph, l: Labels, f: Formula, a: Formula, found: set<int>, n: int)
    requires WellFormedGraph(g) && found <= g.succ.Keys && n in g.succ && g.succ[n] == []
    ensures Get(Dfs(g, l, f, AllFuturePass(a), found, n).0, n, f) == Get(l, n, f) + Get(l, n, a) + g.colors
  {
    DfsUnfold(g, l, f, AllFuturePass(a), found, n);
  }

  /** The step both passes approximate, with the successors' colours taken from `x`. */
  function Step(g: Graph, l: Labels, f: Formula, p: Pass, x: Labels, n: int): set<int>
    requires n in g.succ
  {
    Entry(l, p, n) + Exit(g, l, x, f, p, n)
  }

  /** `x` is a pre-fixpoint of the step on the nodes of `s`: each node already has what the step gives it. */
  predicate PreFixpoint(g: Graph, l: Labels, f: Formula, p: Pass, x: Labels, s: set<int>)
    requires s <= g.succ.Keys
  {
    forall n | n in s :: Step(g, l, f, p, x, n) <= Get(x, n, f)
  }

  /** The labels of `f` lie within `x` on every node. */
  ghost predicate Within(l: Labels, f: Formula, x: Labels)
  {
    forall n :: Get(l, n, f) <= Get(x, n, f)
  }

  lemma SuccUnionMono(l: Labels, x: Labels, ms: seq<int>, f: Formula)
    requires Within(l, f, x)
    ensures SuccUnion(l, ms, f) <= SuccUnion(x, ms, f)
  {
    forall c | c in SuccUnion(l, ms, f) ensures c in SuccUnion(x, ms, f) {
      var i :| 0 <= i < |ms| && c in Get(l, ms[i], f);
      assert c in Get(x, ms[i], f);
    }
  }

  lemma SuccMeetMono(l: Labels, x: Labels, ms: seq<int>, f: Formula, colors: set<int>)
    requires Within(l, f, x)
    ensures SuccMeet(l, ms, f, colors) <= SuccMeet(x, ms, f, colors)
  {
    forall c | c in SuccMeet(l, ms, f, colors) ensures c in SuccMeet(x, ms, f, colors) {
      forall i | 0 <= i < |ms| ensures c in Get(x, ms[i], f) {
        assert c in Get(l, ms[i], f);
      }
    }
  }

  /** Exit colours computed from labels within `x` are within those computed from `x`. */
  lemma ExitMono(g: Graph, l: Labels, x: Labels, l0: Labels, f: Formula, p: Pass, n: int)
    requires n in g.succ && Within(l, f, x) && Reads(p, f)
    requires forall h | h != f :: Get(l, n, h) == Get(l0, n, h)
    ensures Exit(g, l, l, f, p, n) <= Step(g, l0, f, p, x, n)
  {
    if p.AllFuturePass? {
      SuccMeetMono(l, x, g.succ[n], f, g.colors);
    } else {
      SuccUnionMono(l, x, g.succ[n], f);
      assert Get(l, n, p.phi) == Get(l0, n, p.phi);
    }
  }

  /**
   * Soundness of the depth-first passes: started within a pre-fixpoint `x` of the step,
   * every colour they add is within `x`. With `x` the least fixpoint, they never add a
   * colour the formula does not hold for.
   */
  lemma {:induction false} DfsSound(g: Graph, l: Labels, f: Formula, p: Pass, found: set<int>, n: int, x: Labels, s: set<int>)
    requires WellFormedGraph(g) && found <= g.succ.Keys && n in g.succ
    requires Reads(p, f) && s <= g.succ.Keys && ClosedSet(g, s) && n in s
    requires PreFixpoint(g, l, f, p, x, s) && Within(l, f, x)
    decreases g.succ.Keys - found, if n in found then 2 else 0, 0
    ensures Within(Dfs(g, l, f, p, found, n).0, f, x)
  {
    var entry := Entry(l, p, n);
    var l1 := if entry != {} then Add(l, n, f, entry) else l;
    EntrySound(g, l, f, p, n, x, s);
    assert forall i | 0 <= i < |g.succ[n]| :: g.succ[n][i] in s;
    PreFixpointFrame(g, l, l1, f, p, x, s);
    VisitSound(g, l1, f, p, found + {n}, g.succ[n], 0, x, s);
    var v := Visit(g, l1, f, p, found + {n}, g.succ[n], 0);
    assert forall h | h != f :: Get(v.0, n, h) == Get(l, n, h) by {
      assert forall h :: Get(v.0, n, h) == Get(l1, n, h);
    }
    ExitSound(g, l, v.0, f, p, n, x, s);
    DfsUnfold(g, l, f, p, found, n);
  }

  /** One call of the depth-first pass, spelled out. */
  lemma DfsUnfold(g: Graph, l: Labels, f: Formula, p: Pass, found: set<int>, n: int)
    requires WellFormedGraph(g) && found <= g.succ.Keys && n in g.succ
    ensures var entry := Entry(l, p, n);
      var l1 := if entry != {} then Add(l, n, f, entry) else l;
      var v := Visit(g, l1, f, p, found + {n}, g.succ[n], 0);
      var exit := Exit(g, v.0, v.0, f, p, n);
      Dfs(g, l, f, p, found, n) == (if exit != {} then Add(v.0, n, f, exit) else v.0, v.1)
  {
  }

  /** The exit colours of a node in `s`, read from labels within a pre-fixpoint, are within it. */
  lemma ExitSound(g: Graph, l: Labels, v: Labels, f: Formula, p: Pass, n: int, x: Labels, s: set<int>)
    requires s <= g.succ.Keys && n in s && Reads(p, f) && PreFixpoint(g, l, f, p, x, s) && Within(v, f, x)
    requires forall h | h != f :: Get(v, n, h) == Get(l, n, h)
    ensures var exit := Exit(g, v, v, f, p, n);
      Within(if exit != {} then Add(v, n, f, exit) else v, f, x)
  {
    ExitMono(g, v, x, l, f, p, n);
    assert Step(g, l, f, p, x, n) <= Get(x, n, f);
  }

  /** The entry colours of a node in `s` are within a pre-fixpoint. */
  lemma EntrySound(g: Graph, l: Labels, f: Formula, p: Pass, n: int, x: Labels, s: set<int>)
    requires s <= g.succ.Keys && n in s && PreFixpoint(g, l, f, p, x, s) && Within(l, f, x)
    ensures var entry := Entry(l, p, n);
      Within(if entry != {} then Add(l, n, f, entry) else l, f, x)
  {
    assert Step(g, l, f, p, x, n) <= Get(x, n, f);
  }

  lemma {:induction false} VisitSound(g: Graph, l: Labels, f: Formula, p: Pass, found: set<int>, ms: seq<int>, k: nat, x: Labels, s: set<int>)
    requires WellFormedGraph(g) && found <= g.succ.Keys && k <= |ms|
    requires forall i | 0 <= i < |ms| :: ms[i] in s
    requires Reads(p, f) && s <= g.succ.Keys && ClosedSet(g, s)
    requires PreFixpoint(g, l, f, p, x, s) && Within(l, f, x)
    decreases g.succ.Keys - found, 1, |ms| - k
    ensures Within(Visit(g, l, f, p, found, ms, k).0, f, x)
  {
    if k < |ms| {
      if ms[k] in found {
        VisitSound(g, l, f, p, found, ms, k + 1, x, s);
      } else {
        DfsSound(g, l, f, p, found, ms[k], x, s);
        var (l1, found1) := Dfs(g, l, f, p, found, ms[k]);
        PreFixpointFrame(g, l, l1, f, p, x, s);
        VisitSound(g, l1, f, p, found1, ms, k + 1, x, s);
      }
    }
  }

  lemma {:induction false} RootsSound(g: Graph, l: Labels, f: Formula, p: Pass, found: set<int>, k: nat, x: Labels, s: set<int>)
    requires WellFormedGraph(g) && found <= g.succ.Keys && k <= |g.init|
    requires Reads(p, f) && s <= g.succ.Keys && ClosedSet(g, s) && InitSet(g) <= s
    requires PreFixpoint(g, l, f, p, x, s) && Within(l, f, x)
    decreases |g.init| - k
    ensures Within(Roots(g, l, f, p, found, k).0, f, x)
  {
    if k < |g.init| {
      var n := g.init[k];
      assert n in InitSet(g);
      DfsSound(g, l, f, p, found, n, x, s);
      var d := Dfs(g, l, f, p, found, n);
      PreFixpointFrame(g, l, d.0, f, p, x, s);
      RootsSound(g, d.0, f, p, d.1, k + 1, x, s);
      assert Roots(g, l, f, p, found, k) == Roots(g, d.0, f, p, d.1, k + 1);
    }
  }

  /** The pre-fixpoint condition reads only the operands, which a pass leaves alone. */
  lemma PreFixpointFrame(g: Graph, l: Labels, l': Labels, f: Formula, p: Pass, x: Labels, s: set<int>)
    requires s <= g.succ.Keys && Reads(p, f) && PreFixpoint(g, l, f, p, x, s)
    requires forall m, h | h != f :: Get(l', m, h) == Get(l, m, h)
    ensures PreFixpoint(g, l', f, p, x, s)
  {
    forall n | n in s ensures Entry(l', p, n) == Entry(l, p, n) {
    }
  }

  // ---------------------------------------------------------------- the passes, corrected

  /** The colours the step can ever give a node: its operand colours, and for all-future every graph colour. */
  function Bound(g: Graph, l: Labels, p: Pass, n: int): set<int>
  {
    match p
    case AllFuturePass(a) => Get(l, n, a) + g.colors
    case ExistsUntilPass(phi, psi) => Get(l, n, psi) + Get(l, n, phi)
  }

  /** The pairs of node and colour the step could still add on `s`. */
  function Missing(g: Graph, l: Labels, f: Formula, p: Pass, s: set<int>): set<(int, int)>
  {
    set n, c | n in s && c in Bound(g, l, p, n) && c !in Get(l, n, f) :: (n, c)
  }

  /** One round of the step on every node of `s`. */
  function Round(g: Graph, l: Labels, f: Formula, p: Pass, s: set<int>): (r: Labels)
    requires s <= g.succ.Keys
    ensures forall n, h :: Get(r, n, h) ==
                           if h == f && n in s then Get(l, n, f) + Step(g, l, f, p, l, n)
                           else Get(l, n, h)
  {
    Sweep(l, f, s, map n | n in s :: Step(g, l, f, p, l, n))
  }

  /**
   * A pass as a least fixpoint: apply the step to every reachable node until nothing
   * changes. This is the labelling each single depth-first pass was meant to give.
   */
  function Fix(g: Graph, l: Labels, f: Formula, p: Pass, s: set<int>): (r: Labels)
    requires s <= g.succ.Keys && ClosedSet(g, s) && Reads(p, f)
    decreases Missing(g, l, f, p, s)
    ensures PreFixpoint(g, r, f, p, r, s)
    ensures forall n, h | h != f || n !in s :: Get(r, n, h) == Get(l, n, h)
    ensures Within(l, f, r)
  {
    var next := Round(g, l, f, p, s);
    if Stable(g, l, f, p, s) then
      StableIsPreFixpoint(g, l, f, p, s);
      l
    else
      FixShrinks(g, l, f, p, s);
      var r := Fix(g, next, f, p, s);
      RoundFrame(g, l, f, p, s);
      FrameTrans(l, next, r, f, s);
      r
  }

  /** A round changes only the labels of `f` on `s`, and only by growing them. */
  lemma RoundFrame(g: Graph, l: Labels, f: Formula, p: Pass, s: set<int>)
    requires s <= g.succ.Keys
    ensures var next := Round(g, l, f, p, s);
      (forall n, h | h != f || n !in s :: Get(next, n, h) == Get(l, n, h)) && Within(l, f, next)
  {
  }

  lemma FrameTrans(a: Labels, b: Labels, c: Labels, f: Formula, s: set<int>)
    requires forall n, h | h != f || n !in s :: Get(b, n, h) == Get(a, n, h)
    requires forall n, h | h != f || n !in s :: Get(c, n, h) == Get(b, n, h)
    requires Within(a, f, b) && Within(b, f, c)
    ensures forall n, h | h != f || n !in s :: Get(c, n, h) == Get(a, n, h)
    ensures Within(a, f, c)
  {
  }

  /** A round changes nothing. */
  predicate Stable(g: Graph, l: Labels, f: Formula, p: Pass, s: set<int>)
    requires s <= g.succ.Keys
  {
    forall n | n in s :: Get(Round(g, l, f, p, s), n, f) == Get(l, n, f)
  }

  lemma StableIsPreFixpoint(g: Graph, l: Labels, f: Formula, p: Pass, s: set<int>)
    requires s <= g.succ.Keys && Stable(g, l, f, p, s)
    ensures PreFixpoint(g, l, f, p, l, s)
  {
    var next := Round(g, l, f, p, s);
    forall n | n in s ensures Step(g, l, f, p, l, n) <= Get(l, n, f) {
      assert Get(next, n, f) == Get(l, n, f);
    }
  }

  /** A round that changes something removes a missing pair and adds none. */
  lemma FixShrinks(g: Graph, l: Labels, f: Formula, p: Pass, s: set<int>)
    requires s <= g.succ.Keys && Reads(p, f)
    requires !Stable(g, l, f, p, s)
    ensures Missing(g, Round(g, l, f, p, s), f, p, s) < Missing(g, l, f, p, s)
  {
    var next := Round(g, l, f, p, s);
    var n :| n in s && Get(next, n, f) != Get(l, n, f);
    var step := Step(g, l, f, p, l, n);
    assert Get(next, n, f) == Get(l, n, f) + step;
    StepBounded(g, l, f, p, n);
    var c := NewColor(Get(l, n, f), step);
    assert forall m, h | h != f :: Get(next, m, h) == Get(l, m, h);
    assert forall m :: Get(l, m, f) <= Get(next, m, f);
    MissingShrinks(g, l, next, f, p, s, n, c);
  }

  /** A union that grows a set adds an element of the other operand. */
  lemma NewColor(a: set<int>, b: set<int>) returns (c: int)
    requires a + b != a
    ensures c in b && c !in a
  {
    UnionAbsorbs(a, b);
    Outside(b, a);
    var e :| e in b && e !in a;
    c := e;
  }

  lemma Outside(b: set<int>, a: set<int>)
    ensures b <= a || exists e :: e in b && e !in a
  {
    if !exists e :: e in b && e !in a {
      assert forall e :: e in b ==> e in a;
      assert b - a == {};
    }
  }

  lemma UnionAbsorbs(a: set<int>, b: set<int>)
    ensures b <= a ==> a + b == a
  {
  }

  /** The step gives a node only colours of its bound. */
  lemma StepBounded(g: Graph, l: Labels, f: Formula, p: Pass, n: int)
    requires n in g.succ
    ensures Step(g, l, f, p, l, n) <= Bound(g, l, p, n)
  {
  }

  lemma MissingShrinks(g: Graph, l: Labels, next: Labels, f: Formula, p: Pass, s: set<int>, n: int, c: int)
    requires Reads(p, f) && n in s
    requires forall m, h | h != f :: Get(next, m, h) == Get(l, m, h)
    requires forall m :: Get(l, m, f) <= Get(next, m, f)
    requires c in Get(next, n, f) && c !in Get(l, n, f) && c in Bound(g, l, p, n)
    ensures Missing(g, next, f, p, s) < Missing(g, l, f, p, s)
  {
    assert (n, c) in Missing(g, l, f, p, s);
    forall q | q in Missing(g, next, f, p, s) ensures q in Missing(g, l, f, p, s) {
      var (m, d) := q;
      assert Bound(g, next, p, m) == Bound(g, l, p, m);
    }
  }

  /** The fixpoint is the least one: it stays within every pre-fixpoint holding the start labels. */
  lemma {:induction false} FixLeast(g: Graph, l: Labels, f: Formula, p: Pass, s: set<int>, x: Labels)
    requires s <= g.succ.Keys && ClosedSet(g, s) && Reads(p, f)
    requires PreFixpoint(g, l, f, p, x, s) && Within(l, f, x)
    decreases Missing(g, l, f, p, s)
    ensures Within(Fix(g, l, f, p, s), f, x)
  {
    var next := Round(g, l, f, p, s);
    if !Stable(g, l, f, p, s) {
      RoundWithin(g, l, f, p, s, x);
      RoundFrame(g, l, f, p, s);
      PreFixpointFrame(g, l, next, f, p, x, s);
      FixShrinks(g, l, f, p, s);
      FixLeast(g, next, f, p, s, x);
    }
    FixUnfold(g, l, f, p, s);
  }

  /** One round of the fixpoint, spelled out. */
  lemma FixUnfold(g: Graph, l: Labels, f: Formula, p: Pass, s: set<int>)
    requires s <= g.succ.Keys && ClosedSet(g, s) && Reads(p, f)
    ensures Fix(g, l, f, p, s) ==
      if Stable(g, l, f, p, s) then l else Fix(g, Round(g, l, f, p, s), f, p, s)
  {
  }

  /** A round from labels within a pre-fixpoint stays within it. */
  lemma RoundWithin(g: Graph, l: Labels, f: Formula, p: Pass, s: set<int>, x: Labels)
    requires s <= g.succ.Keys && Reads(p, f)
    requires PreFixpoint(g, l, f, p, x, s) && Within(l, f, x)
    ensures Within(Round(g, l, f, p, s), f, x)
  {
    var next := Round(g, l, f, p, s);
    forall n ensures Get(next, n, f) <= Get(x, n, f) {
      if n in s {
        ExitMono(g, l, x, l, f, p, n);
        assert Step(g, l, f, p, x, n) <= Get(x, n, f);
      }
    }
  }

  /** `checkExistsUntil`, corrected: the least fixpoint over the reachable nodes. */
  function CheckExistsUntil(g: Graph, l: Labels, f: Formula): (r: Labels)
    requires WellFormedGraph(g) && f.Apply? && |f.subs| >= 2
    ensures PreFixpoint(g, r, f, ExistsUntilPass(f.subs[0], f.subs[1]), r, Reach(g))
    ensures forall n, h | h != f || n !in Reach(g) :: Get(r, n, h) == Get(l, n, h)
    ensures Within(l, f, r)
  {
    assert f.subs[0] in f.subs && f.subs[1] in f.subs;
    Fix(g, l, f, ExistsUntilPass(f.subs[0], f.subs[1]), Reach(g))
  }

  /** `checkAllFuture`, corrected: the least fixpoint over the reachable nodes. */
  function CheckAllFuture(g: Graph, l: Labels, f: Formula): (r: Labels)
    requires WellFormedGraph(g) && f.Apply? && |f.subs| >= 1
    ensures PreFixpoint(g, r, f, AllFuturePass(f.subs[0]), r, Reach(g))
    ensures forall n, h | h != f || n !in Reach(g) :: Get(r, n, h) == Get(l, n, h)
    ensures Within(l, f, r)
  {
    assert f.subs[0] in f.subs;
    Fix(g, l, f, AllFuturePass(f.subs[0]), Reach(g))
  }

  /** The corrected all-future is the least labelling closed under its step. */
  lemma CheckAllFutureLeast(g: Graph, l: Labels, f: Formula, x: Labels)
    requires WellFormedGraph(g) && f.Apply? && |f.subs| >= 1
    requires PreFixpoint(g, l, f, AllFuturePass(f.subs[0]), x, Reach(g)) && Within(l, f, x)
    ensures Within(CheckAllFuture(g, l, f), f, x)
  {
    assert f.subs[0] in f.subs;
    FixLeast(g, l, f, AllFuturePass(f.subs[0]), Reach(g), x);
  }

  /** The corrected exists-until is the least labelling closed under its step. */
  lemma CheckExistsUntilLeast(g: Graph, l: Labels, f: Formula, x: Labels)
    requires WellFormedGraph(g) && f.Apply? && |f.subs| >= 2
    requires PreFixpoint(g, l, f, ExistsUntilPass(f.subs[0], f.subs[1]), x, Reach(g)) && Within(l, f, x)
    ensures Within(CheckExistsUntil(g, l, f), f, x)
  {
    assert f.subs[0] in f.subs && f.subs[1] in f.subs;
    FixLeast(g, l, f, ExistsUntilPass(f.subs[0], f.subs[1]), Reach(g), x);
  }

  /** The depth-first passes from the initial nodes never add a colour the corrected pass does not. */
  lemma DepthFirstUntilSound(g: Graph, l: Labels, f: Formula)
    requires WellFormedGraph(g) && f.Apply? && |f.subs| >= 2
    requires forall n | n !in Reach(g) :: Get(l, n, f) == {}
    ensures Within(DepthFirst(g, l, f, ExistsUntilPass(f.subs[0], f.subs[1])), f, CheckExistsUntil(g, l, f))
  {
    var p := ExistsUntilPass(f.subs[0], f.subs[1]);
    var x := CheckExistsUntil(g, l, f);
    var s := Reach(g);
    assert f.subs[0] in f.subs && f.subs[1] in f.subs;
    PreFixpointFrame(g, x, l, f, p, x, s);
    RootsSound(g, l, f, p, {}, 0, x, s);
  }

  /** The depth-first all-future passes never add a colour the corrected pass does not. */
  lemma DepthFirstAllFutureSound(g: Graph, l: Labels, f: Formula)
    requires WellFormedGraph(g) && f.Apply? && |f.subs| >= 1
    requires forall n | n !in Reach(g) :: Get(l, n, f) == {}
    ensures Within(DepthFirst(g, l, f, AllFuturePass(f.subs[0])), f, CheckAllFuture(g, l, f))
  {
    var p := AllFuturePass(f.subs[0]);
    var x := CheckAllFuture(g, l, f);
    var s := Reach(g);
    assert f.subs[0] in f.subs;
    PreFixpointFrame(g, x, l, f, p, x, s);
    RootsSound(g, l, f, p, {}, 0, x, s);
  }

  // ---------------------------------------------------------------- the cycle counterexample

  function CyclePhi(): Formula { FloatProp("x", Gt, 0.0) }
  function CyclePsi(): Formula { FloatProp("y", Gt, 0.0) }
  function CycleUntil(): Formula { Binary(ExistsUntil, CyclePhi(), CyclePsi()) }

  /** `0 -> 1, 2` and `1 -> 0`; the guard holds at 0 and 1, the target at 2, for colour 1. */
  function CycleSucc(): map<int, seq<int>> { map[0 := [1, 2], 1 := [0], 2 := []] }

  /** The cycle entered from node 0 only. */
  function CycleGraph(): Graph { Graph(CycleSucc(), [0], {1}) }

  /** The cycle entered from node 0 and then from node 1. */
  function TwoRootGraph(): Graph { Graph(CycleSucc(), [0, 1], {1}) }

  /** The graphs on the cycle with colour 1 and initial nodes among its nodes. */
  predicate OnCycle(g: Graph)
  {
    g.succ == CycleSucc() && g.colors == {1} && forall i | 0 <= i < |g.init| :: g.init[i] in {0, 1, 2}
  }

  function CycleLabels(): Labels
  {
    map[(0, CyclePhi()) := {1}, (1, CyclePhi()) := {1}, (2, CyclePsi()) := {1}]
  }

  /** The graph and operand facts both halves of the example rest on. */
  lemma CycleFacts(g: Graph)
    requires OnCycle(g)
    ensures WellFormedGraph(g)
    ensures g.succ[0] == [1, 2] && g.succ[1] == [0] && g.succ[2] == []
    ensures CyclePhi() != CycleUntil() && CyclePsi() != CycleUntil() && CyclePhi() != CyclePsi()
    ensures Get(CycleLabels(), 0, CyclePhi()) == {1} && Get(CycleLabels(), 1, CyclePhi()) == {1}
    ensures Get(CycleLabels(), 0, CyclePsi()) == {} && Get(CycleLabels(), 1, CyclePsi()) == {}
    ensures Get(CycleLabels(), 2, CyclePsi()) == {1}
    ensures forall n :: Get(CycleLabels(), n, CycleUntil()) == {}
  {
    assert CyclePhi().variable != CyclePsi().variable by {
      assert CyclePhi().variable[0] == 'x' && CyclePsi().variable[0] == 'y';
    }
    assert CycleUntil().Apply?;
  }

  lemma CycleReach()
    ensures WellFormedGraph(CycleGraph()) && {0, 1, 2} <= Reach(CycleGraph())
  {
    var g := CycleGraph();
    CycleFacts(g);
    var s := Reach(g);
    assert g.init[0] == 0 && 0 in InitSet(g);
    assert g.succ[0][0] == 1 && g.succ[0][1] == 2;
  }

  /** Node 1, entered from 0: nothing on entry, and its only successor, 0, is open and unlabelled. */
  lemma CycleNodeOne(g: Graph)
    requires OnCycle(g)
    ensures WellFormedGraph(g)
    ensures Dfs(g, CycleLabels(), CycleUntil(), ExistsUntilPass(CyclePhi(), CyclePsi()), {0}, 1)
      == (CycleLabels(), {0, 1})
  {
    var l, f := CycleLabels(), CycleUntil();
    var p := ExistsUntilPass(CyclePhi(), CyclePsi());
    CycleFacts(g);
    DfsUnfold(g, l, f, p, {0}, 1);
    assert {0} + {1} == {0, 1};
    assert Entry(l, p, 1) == {};
    assert Visit(g, l, f, p, {0, 1}, [0], 0) == (l, {0, 1});
    assert SuccUnion(l, [0], f) == {};
    assert Exit(g, l, l, f, p, 1) == {};
  }

  /**
   * The pass from root 0 alone misses node 1: it is finished while node 0 is still open
   * and has no colours yet, and is never revisited, although `1 -> 0 -> 2` satisfies
   * the formula.
   */
  lemma DepthFirstUntilMissesCycle()
    ensures WellFormedGraph(CycleGraph())
    ensures Get(DepthFirst(CycleGraph(), CycleLabels(), CycleUntil(), ExistsUntilPass(CyclePhi(), CyclePsi())), 1, CycleUntil()) == {}
  {
    var g, l, f := CycleGraph(), CycleLabels(), CycleUntil();
    var p := ExistsUntilPass(CyclePhi(), CyclePsi());
    CycleFacts(g);
    CycleRootMisses(g);
    var d0 := Dfs(g, l, f, p, {}, 0);
    assert Roots(g, l, f, p, {}, 0) == Roots(g, d0.0, f, p, d0.1, 1);
  }

  /**
   * With node 1 initial as well, the driver enters node 1 again once the pass from 0 is
   * over: node 0 has colour 1 by then, so node 1's exit colours now include it.
   */
  lemma DepthFirstUntilReentersRoot()
    ensures WellFormedGraph(TwoRootGraph())
    ensures 1 in Get(DepthFirst(TwoRootGraph(), CycleLabels(), CycleUntil(), ExistsUntilPass(CyclePhi(), CyclePsi())), 1, CycleUntil())
  {
    var g, l, f := TwoRootGraph(), CycleLabels(), CycleUntil();
    var p := ExistsUntilPass(CyclePhi(), CyclePsi());
    CycleFacts(g);
    CycleRootMisses(g);
    var d0 := Dfs(g, l, f, p, {}, 0);
    assert Roots(g, l, f, p, {}, 0) == Roots(g, d0.0, f, p, d0.1, 1);
    var d1 := Dfs(g, d0.0, f, p, d0.1, 1);
    assert Roots(g, d0.0, f, p, d0.1, 1) == Roots(g, d1.0, f, p, d1.1, 2);
    assert Get(d0.0, 1, CyclePhi()) == {1};
    CycleNodeOneAgain(g, d0.0, d0.1);
  }

  /** Node 1 entered once node 0 is found and has colour 1: no descent, and the colour flows back. */
  lemma CycleNodeOneAgain(g: Graph, l: Labels, found: set<int>)
    requires OnCycle(g) && found <= g.succ.Keys && 0 in found
    requires 1 in Get(l, 0, CycleUntil()) && Get(l, 1, CyclePhi()) == {1}
    ensures WellFormedGraph(g)
    ensures 1 in Get(Dfs(g, l, CycleUntil(), ExistsUntilPass(CyclePhi(), CyclePsi()), found, 1).0, 1, CycleUntil())
  {
    var f := CycleUntil();
    var p := ExistsUntilPass(CyclePhi(), CyclePsi());
    CycleFacts(g);
    DfsUnfold(g, l, f, p, found, 1);
    var e := Entry(l, p, 1);
    var l1 := if e != {} then Add(l, 1, f, e) else l;
    assert 1 in Get(l1, 0, f) && Get(l1, 1, CyclePhi()) == {1};
    var v := Visit(g, l1, f, p, found + {1}, [0], 0);
    assert v == Visit(g, l1, f, p, found + {1}, [0], 1);
    assert 1 in SuccUnion(v.0, [0], f);
  }

  /** Visiting node 0 first finishes node 1 with no colours, and gives node 0 colour 1 through node 2. */
  lemma CycleRootMisses(g: Graph)
    requires OnCycle(g)
    ensures WellFormedGraph(g)
    ensures var d := Dfs(g, CycleLabels(), CycleUntil(), ExistsUntilPass(CyclePhi(), CyclePsi()), {}, 0);
      Get(d.0, 1, CycleUntil()) == {} && 1 in Get(d.0, 0, CycleUntil())
  {
    var l, f := CycleLabels(), CycleUntil();
    var p := ExistsUntilPass(CyclePhi(), CyclePsi());
    CycleFacts(g);
    // node 0: nothing on entry, and its exit colours go to node 0 only
    DfsUnfold(g, l, f, p, {}, 0);
    assert {} + {0} == {0};
    assert Entry(l, p, 0) == {};
    CycleRootSuccessors(g);
    var v := Visit(g, l, f, p, {0}, [1, 2], 0);
    assert 1 in SuccUnion(v.0, [1, 2], f);
  }

  /** Node 0's successors: node 1 finishes empty, then node 2 gets colour 1 from ψ. */
  lemma CycleRootSuccessors(g: Graph)
    requires OnCycle(g)
    ensures WellFormedGraph(g)
    ensures var v := Visit(g, CycleLabels(), CycleUntil(), ExistsUntilPass(CyclePhi(), CyclePsi()), {0}, [1, 2], 0);
      Get(v.0, 1, CycleUntil()) == {} && 1 in Get(v.0, 2, CycleUntil()) && Get(v.0, 0, CyclePhi()) == {1}
  {
    var l, f := CycleLabels(), CycleUntil();
    var p := ExistsUntilPass(CyclePhi(), CyclePsi());
    CycleFacts(g);
    CycleNodeOne(g);
    var v := Visit(g, l, f, p, {0}, [1, 2], 0);
    assert v == Visit(g, l, f, p, {0, 1}, [1, 2], 1);
    DfsUnfold(g, l, f, p, {0, 1}, 2);
    assert Entry(l, p, 2) == {1};
  }
  /** The least fixpoint labels node 1 with colour 1. */
  lemma UntilFixCoversCycle()
    ensures WellFormedGraph(CycleGraph())
    ensures 1 in Get(CheckExistsUntil(CycleGraph(), CycleLabels(), CycleUntil()), 1, CycleUntil())
  {
    var g, l, f := CycleGraph(), CycleLabels(), CycleUntil();
    var p := ExistsUntilPass(CyclePhi(), CyclePsi());
    CycleFacts(g);
    CycleReach();
    var r := CheckExistsUntil(g, l, f);
    assert f.subs[0] == CyclePhi() && f.subs[1] == CyclePsi();
    assert Get(r, 2, CyclePsi()) == {1} && Get(r, 0, CyclePhi()) == {1} && Get(r, 1, CyclePhi()) == {1};
    assert Step(g, r, f, p, r, 2) <= Get(r, 2, f);
    assert 1 in Get(r, 2, f);
    assert 1 in SuccUnion(r, [1, 2], f);
    assert Step(g, r, f, p, r, 0) <= Get(r, 0, f);
    assert 1 in Get(r, 0, f);
    assert 1 in SuccUnion(r, [0], f);
    assert Step(g, r, f, p, r, 1) <= Get(r, 1, f);
  }

  // ---------------------------------------------------------------- all-future on a cycle

  function RingOperand(): Formula { FloatProp("x", Gt, 0.0) }
  function RingFuture(): Formula { Unary(AllFuture, RingOperand()) }

  /** `0 -> 1 -> 2 -> 0`; the operand holds at node 1 only, for colour 1. */
  function RingGraph(): Graph { Graph(map[0 := [1], 1 := [2], 2 := [0]], [0], {1}) }

  function RingLabels(): Labels { map[(1, RingOperand()) := {1}] }

  lemma RingFacts()
    ensures WellFormedGraph(RingGraph())
    ensures RingGraph().succ[0] == [1] && RingGraph().succ[1] == [2] && RingGraph().succ[2] == [0]
    ensures RingOperand() != RingFuture() && RingFuture().subs[0] == RingOperand()
    ensures Get(RingLabels(), 1, RingOperand()) == {1}
    ensures Get(RingLabels(), 0, RingOperand()) == {} && Get(RingLabels(), 2, RingOperand()) == {}
    ensures forall n :: Get(RingLabels(), n, RingFuture()) == {}
  {
    assert RingFuture().Apply?;
  }

  /** Node 2, entered last: nothing on entry, and its only successor, 0, is still open and unlabelled. */
  lemma RingNodeTwo()
    ensures WellFormedGraph(RingGraph())
    ensures var l1 := Add(RingLabels(), 1, RingFuture(), {1});
      Dfs(RingGraph(), l1, RingFuture(), AllFuturePass(RingOperand()), {0, 1}, 2) == (l1, {0, 1, 2})
  {
    var g, f := RingGraph(), RingFuture();
    var l1 := Add(RingLabels(), 1, f, {1});
    var p := AllFuturePass(RingOperand());
    RingFacts();
    DfsUnfold(g, l1, f, p, {0, 1}, 2);
    assert {0, 1} + {2} == {0, 1, 2};
    assert Entry(l1, p, 2) == {};
    assert Visit(g, l1, f, p, {0, 1, 2}, [0], 0) == (l1, {0, 1, 2});
    assert SuccMeet(l1, [0], f, {1}) == {};
  }

  /** Node 1: its operand colour on entry, then node 2 finishes without colours. */
  lemma RingNodeOne()
    ensures WellFormedGraph(RingGraph())
    ensures Get(Dfs(RingGraph(), RingLabels(), RingFuture(), AllFuturePass(RingOperand()), {0}, 1).0, 2, RingFuture()) == {}
  {
    var g, l, f := RingGraph(), RingLabels(), RingFuture();
    var p := AllFuturePass(RingOperand());
    RingFacts();
    DfsUnfold(g, l, f, p, {0}, 1);
    assert {0} + {1} == {0, 1};
    assert Entry(l, p, 1) == {1};
    RingNodeTwo();
    var l1 := Add(l, 1, f, {1});
    assert Visit(g, l1, f, p, {0, 1}, [2], 0) == Visit(g, l1, f, p, {0, 1, 2}, [2], 1);
  }

  /**
   * The pass from root 0 misses node 2: it is finished while node 0 is still open and has
   * no colours yet, and is never revisited, although every path from 2 goes through 1.
   */
  lemma DepthFirstAllFutureMissesCycle()
    ensures WellFormedGraph(RingGraph())
    ensures Get(DepthFirst(RingGraph(), RingLabels(), RingFuture(), AllFuturePass(RingOperand())), 2, RingFuture()) == {}
  {
    var g, l, f := RingGraph(), RingLabels(), RingFuture();
    var p := AllFuturePass(RingOperand());
    RingFacts();
    DfsUnfold(g, l, f, p, {}, 0);
    assert {} + {0} == {0};
    assert Entry(l, p, 0) == {};
    RingNodeOne();
    var d1 := Dfs(g, l, f, p, {0}, 1);
    assert Visit(g, l, f, p, {0}, [1], 0) == Visit(g, d1.0, f, p, d1.1, [1], 1);
    var d0 := Dfs(g, l, f, p, {}, 0);
    assert Roots(g, l, f, p, {}, 0) == Roots(g, d0.0, f, p, d0.1, 1);
  }

  /** The least fixpoint gives node 2 colour 1. */
  lemma AllFutureFixCoversCycle()
    ensures WellFormedGraph(RingGraph())
    ensures 1 in Get(CheckAllFuture(RingGraph(), RingLabels(), RingFuture()), 2, RingFuture())
  {
    var g, l, f := RingGraph(), RingLabels(), RingFuture();
    var p := AllFuturePass(RingOperand());
    RingFacts();
    assert g.init[0] == 0 && 0 in InitSet(g);
    assert g.succ[0][0] == 1 && g.succ[1][0] == 2;
    assert {0, 1, 2} <= Reach(g);
    var r := CheckAllFuture(g, l, f);
    assert Get(r, 1, RingOperand()) == {1};
    assert Step(g, r, f, p, r, 1) <= Get(r, 1, f);
    assert 1 in Get(r, 1, f);
    assert 1 in SuccMeet(r, [1], f, {1});
    assert Step(g, r, f, p, r, 0) <= Get(r, 0, f);
    assert 1 in SuccMeet(r, [0], f, {1});
    assert Step(g, r, f, p, r, 2) <= Get(r, 2, f);
  }

  // ---------------------------------------------------------------- and, as written

  /**
   * `checkAnd` as written: the colour set it intersects in place is the one stored for
   * the first operand, so besides labelling `f` every reachable node loses, from its
   * first operand, the colours the second operand lacks.
   */
  function CheckAndAsWritten(g: Graph, l: Labels, f: Formula): (r: Labels)
    requires WellFormedGraph(g) && f.Apply? && |f.subs| >= 2
    ensures forall n :: Get(r, n, f) == Get(CheckAnd(g, l, f), n, f)
    ensures forall n, c :: c in Get(r, n, f.subs[0]) <==>
      c in Get(l, n, f.subs[0]) && (n !in Reach(g) || c in Get(l, n, f.subs[1]))
    ensures forall n, h | h != f && h != f.subs[0] :: Get(r, n, h) == Get(l, n, h)
  {
    assert f.subs[0] in f.subs;
    var reach := Reach(g);
    var a := CheckAnd(g, l, f);
    map k | k in a.Keys :: if k.1 == f.subs[0] && k.0 in reach then a[k] * Get(l, k.0, f.subs[1]) else a[k]
  }

  function AndLeft(): Formula { FloatProp("x", Gt, 0.0) }
  function AndRight(): Formula { FloatProp("y", Gt, 0.0) }
  function AndBoth(): Formula { Binary(And, AndLeft(), AndRight()) }

  /**
   * With colours `{1, 2}` for the first operand and `{1}` for the second at the only node,
   * the pass as written leaves the first operand with `{1}`; the corrected pass leaves it alone.
   */
  lemma AndAliasShrinksOperand()
    ensures var g := Graph(map[0 := []], [0], {1, 2});
      var l := map[(0, AndLeft()) := {1, 2}, (0, AndRight()) := {1}];
      WellFormedGraph(g) &&
      Get(CheckAndAsWritten(g, l, AndBoth()), 0, AndLeft()) == {1} &&
      Get(CheckAnd(g, l, AndBoth()), 0, AndLeft()) == {1, 2}
  {
    var g := Graph(map[0 := []], [0], {1, 2});
    var l := map[(0, AndLeft()) := {1, 2}, (0, AndRight()) := {1}];
    assert AndLeft().variable[0] == 'x' && AndRight().variable[0] == 'y';
    assert AndLeft() != AndRight();
    assert AndBoth().subs[0] == AndLeft() && AndBoth().subs[1] == AndRight();
    assert AndLeft() != AndBoth();
    assert g.init[0] == 0 && 0 in InitSet(g);
    assert 0 in Reach(g);
    assert Get(l, 0, AndRight()) == {1};
    var r := CheckAndAsWritten(g, l, AndBoth());
    assert 2 !in Get(r, 0, AndLeft());
    assert 1 in Get(r, 0, AndLeft());
  }

  // ---------------------------------------------------------------- check

  /** An operator of the old checker that reads more operands than `f` has. */
  predicate ShortOperands(f: Formula)
    requires f.Apply?
  {
    (f.op in {And, ExistsUntil} && |f.subs| < 2) || (f.op in {Negation, ExistsNext, AllFuture} && |f.subs| < 1)
  }

  /**
   * Whether the pass of an operator with a missing operand reaches the read of it:
   * exists-next reads its operand once per edge of a visited node, the other passes at
   * every node they visit.
   */
  predicate ReadsMissing(g: Graph, f: Formula)
    requires WellFormedGraph(g) && f.Apply?
  {
    if f.op == ExistsNext then exists n | n in Reach(g) :: |g.succ[n]| > 0
    else |g.init| > 0
  }

  /**
   * `check`: operands first, in order; propositions other than a float comparison are
   * skipped; the five operators above act, every other leaves the labels as they are.
   * Reading a missing operand throws, and a pass that never reaches the read finishes.
   */
  function Check(g: Graph, l: Labels, f: Formula, holds: Formula -> int -> bool): (r: Result<Labels>)
    requires WellFormedGraph(g)
    decreases f, 1, 0
    ensures r.Ok? ==> forall n, h | !Occurs(h, f) :: Get(r.value, n, h) == Get(l, n, h)
    ensures r.Err? ==> r.error == IndexOutOfBounds && |g.init| > 0
    ensures WellFormed(f) || |g.init| == 0 ==> r.Ok?
  {
    if f.FloatProp? then Ok(CheckProposition(g, l, f, holds(f)))
    else if !f.Apply? then Ok(l)
    else
      var subs := CheckFrom(g, l, f, 0, holds);
      if subs.Err? then subs
      else if ShortOperands(f) then
        if ReadsMissing(g, f) then
          assert |g.init| == 0 ==> Reach(g) == {} by {
            if |g.init| == 0 { NoInitNoReach(g); }
          }
          Err(IndexOutOfBounds)
        else Ok(subs.value)
      else Ok(Operator(g, subs.value, f))
  }

  /** Exists-next without an operand finishes on a graph without edges and throws on one with an edge. */
  lemma ExistsNextReadsPerEdge(holds: Formula -> int -> bool)
    ensures WellFormedGraph(Graph(map[0 := []], [0], {1}))
    ensures Check(Graph(map[0 := []], [0], {1}), map[], Apply(ExistsNext, []), holds) == Ok(map[])
    ensures WellFormedGraph(Graph(map[0 := [0]], [0], {1}))
    ensures Check(Graph(map[0 := [0]], [0], {1}), map[], Apply(ExistsNext, []), holds) == Err(IndexOutOfBounds)
  {
    var g := Graph(map[0 := []], [0], {1});
    assert g.init[0] == 0 && 0 in InitSet(g);
    ReachLeast(g, {0});
    assert Reach(g) == {0};
    var h := Graph(map[0 := [0]], [0], {1});
    assert h.init[0] == 0 && 0 in InitSet(h);
    assert 0 in Reach(h) && |h.succ[0]| > 0;
  }

  /** The operator's own pass, once its operands are checked. */
  function Operator(g: Graph, l: Labels, f: Formula): (r: Labels)
    requires WellFormedGraph(g) && f.Apply? && !ShortOperands(f)
    ensures forall n, h | h != f :: Get(r, n, h) == Get(l, n, h)
  {
    match f.op
    case And => CheckAnd(g, l, f)
    case Negation => CheckNegation(g, l, f)
    case ExistsNext => CheckExistsNext(g, l, f)
    case AllFuture => CheckAllFuture(g, l, f)
    case ExistsUntil => CheckExistsUntil(g, l, f)
    case _ => l
  }

  function CheckFrom(g: Graph, l: Labels, f: Formula, k: nat, holds: Formula -> int -> bool): (r: Result<Labels>)
    requires WellFormedGraph(g) && f.Apply? && k <= |f.subs|
    decreases f, 0, |f.subs| - k
    ensures r.Ok? ==> forall n, h | !Occurs(h, f) :: Get(r.value, n, h) == Get(l, n, h)
    ensures r.Err? ==> r.error == IndexOutOfBounds && |g.init| > 0
    ensures WellFormed(f) || |g.init| == 0 ==> r.Ok?
  {
    if k == |f.subs| then Ok(l)
    else
      var first :- Check(g, l, f.subs[k], holds);
      var rest :- CheckFrom(g, first, f, k + 1, holds);
      assert forall h | !Occurs(h, f) :: !Occurs(h, f.subs[k]) by {
        forall h | Occurs(h, f.subs[k]) ensures Occurs(h, f) {
          OccursInOperand(h, f, k);
        }
      }
      Ok(rest)
  }
}
