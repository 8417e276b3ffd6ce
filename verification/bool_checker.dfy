/**
 * The Boolean-label checker: a node either carries a formula or not. It shares the
 * abstract graph of the integer checker; its single initial node is `init[0]`.
 */
module BoolChecker {
  import opened Wrappers
  import opened Formulas
  import opened IntChecker

  /** The formulas each node is marked with (the key set of `correct`). */
  type Marks = set<(int, Formula)>

  // ---------------------------------------------------------------- breadth-first search

  function Elems(q: seq<int>): set<int>
  {
    set i | 0 <= i < |q| :: q[i]
  }

  lemma ElemsConcat(a: seq<int>, b: seq<int>)
    ensures Elems(a + b) == Elems(a) + Elems(b)
  {
    forall x | x in Elems(a + b) ensures x in Elems(a) + Elems(b) {
      var i :| 0 <= i < |a + b| && (a + b)[i] == x;
      if i >= |a| { assert b[i - |a|] == x; }
    }
    forall x | x in Elems(a) + Elems(b) ensures x in Elems(a + b) {
      if x in Elems(a) {
        var i :| 0 <= i < |a| && a[i] == x;
        assert (a + b)[i] == x;
      } else {
        var i :| 0 <= i < |b| && b[i] == x;
        assert (a + b)[|a| + i] == x;
      }
    }
  }

  /** Either `r` lies within `m` or it holds a mark `m` lacks. */
  lemma Fresh(r: Marks, m: Marks)
    ensures r <= m || exists p :: p in r && p !in m
  {
    if !exists p :: p in r && p !in m {
      assert forall p :: p in r ==> p in m;
    }
  }

  /** Every found node has its successors found or queued. */
  predicate Pending(g: Graph, queue: seq<int>, found: set<int>)
    requires found <= g.succ.Keys
  {
    forall n, i | n in found && 0 <= i < |g.succ[n]| :: g.succ[n][i] in found || g.succ[n][i] in Elems(queue)
  }

  /** The nodes a search dequeues: a found node is skipped, a new one queues all its successors. */
  function Bfs(g: Graph, queue: seq<int>, found: set<int>): (r: set<int>)
    requires WellFormedGraph(g) && found <= g.succ.Keys && Elems(queue) <= g.succ.Keys
    decreases g.succ.Keys - found, |queue|
    ensures found + Elems(queue) <= r <= g.succ.Keys
    ensures Pending(g, queue, found) ==> ClosedSet(g, r)
  {
    if |queue| == 0 then found
    else
      var n := queue[0];
      assert Elems(queue) == {n} + Elems(queue[1..]);
      if n in found then Bfs(g, queue[1..], found)
      else
        var q := queue[1..] + g.succ[n];
        ElemsConcat(queue[1..], g.succ[n]);
        assert Pending(g, queue, found) ==> Pending(g, q, found + {n});
        Bfs(g, q, found + {n})
  }

  /** A search never leaves a closed set holding what it has found and queued. */
  lemma {:induction false} BfsWithin(g: Graph, queue: seq<int>, found: set<int>, s: set<int>)
    requires WellFormedGraph(g) && found <= g.succ.Keys && Elems(queue) <= g.succ.Keys
    requires ClosedSet(g, s) && found + Elems(queue) <= s
    decreases g.succ.Keys - found, |queue|
    ensures Bfs(g, queue, found) <= s
  {
    if |queue| > 0 {
      var n := queue[0];
      assert Elems(queue) == {n} + Elems(queue[1..]);
      if n in found {
        BfsWithin(g, queue[1..], found, s);
      } else {
        var q := queue[1..] + g.succ[n];
        ElemsConcat(queue[1..], g.succ[n]);
        BfsWithin(g, q, found + {n}, s);
      }
    }
  }

  /** A search from the initial nodes visits exactly the reachable nodes. */
  lemma BfsIsReach(g: Graph)
    requires WellFormedGraph(g)
    ensures Bfs(g, g.init, {}) == Reach(g)
  {
    assert Elems(g.init) == InitSet(g);
    ReachLeast(g, Bfs(g, g.init, {}));
    BfsWithin(g, g.init, {}, Reach(g));
  }

  // ---------------------------------------------------------------- and, negation

  /** `checkAnd`: a reached node where both operands hold gains the formula. */
  function CheckAnd(g: Graph, m: Marks, f: Formula): (r: Marks)
    requires WellFormedGraph(g) && f.Apply? && |f.subs| >= 2
    ensures forall n, h :: (n, h) in r <==>
      (n, h) in m || (h == f && n in Reach(g) && (n, f.subs[0]) in m && (n, f.subs[1]) in m)
  {
    BfsIsReach(g);
    m + set n | n in Bfs(g, g.init, {}) && (n, f.subs[0]) in m && (n, f.subs[1]) in m :: (n, f)
  }

  /**
   * `checkNegation`: a reached node without the operand gains the formula; one with it
   * has the operand put again, which leaves the marks as they are.
   */
  function CheckNegation(g: Graph, m: Marks, f: Formula): (r: Marks)
    requires WellFormedGraph(g) && f.Apply? && |f.subs| >= 1
    ensures forall n, h :: (n, h) in r <==>
      (n, h) in m || (h == f && n in Reach(g) && (n, f.subs[0]) !in m)
  {
    BfsIsReach(g);
    var visited := Bfs(g, g.init, {});
    m + (set n | n in visited && (n, f.subs[0]) !in m :: (n, f)) + (set n | n in visited && (n, f.subs[0]) in m :: (n, f.subs[0]))
  }

  // ---------------------------------------------------------------- all-future

  /** Every successor of `n` carries `f`; true when there is none. */
  predicate AllSucc(g: Graph, m: Marks, f: Formula, n: int)
    requires n in g.succ
  {
    forall i | 0 <= i < |g.succ[n]| :: (g.succ[n][i], f) in m
  }

  /** The all-future rule at one node. */
  predicate Due(g: Graph, m: Marks, f: Formula, a: Formula, n: int)
    requires n in g.succ
  {
    AllSucc(g, m, f, n) || (n, a) in m
  }

  /** Marks added since `m` are `f` on nodes of `s`. */
  ghost predicate OnlyAdds(m: Marks, r: Marks, f: Formula, s: set<int>)
  {
    m <= r && forall n, h | (n, h) in r && (n, h) !in m :: h == f && n in s
  }

  /**
   * One sweep of `checkAllFuture`: a search from `queue` that marks every due node not
   * yet marked, and reports whether it marked any.
   */
  function Sweep(g: Graph, m: Marks, f: Formula, a: Formula, queue: seq<int>, found: set<int>)
    : (r: (Marks, set<int>, bool))
    requires WellFormedGraph(g) && found <= g.succ.Keys && Elems(queue) <= g.succ.Keys
    decreases g.succ.Keys - found, |queue|
    ensures r.1 == Bfs(g, queue, found)
    ensures OnlyAdds(m, r.0, f, r.1 - found)
    ensures r.2 <==> r.0 != m
    ensures !r.2 ==> forall n | n in r.1 - found :: Due(g, m, f, a, n) ==> (n, f) in m
  {
    if |queue| == 0 then (m, found, false)
    else
      var n := queue[0];
      assert Elems(queue) == {n} + Elems(queue[1..]);
      if n in found then Sweep(g, m, f, a, queue[1..], found)
      else
        var mark := Due(g, m, f, a, n) && (n, f) !in m;
        var m1 := if mark then m + {(n, f)} else m;
        var q := queue[1..] + g.succ[n];
        ElemsConcat(queue[1..], g.succ[n]);
        var rest := Sweep(g, m1, f, a, q, found + {n});
        assert mark ==> (n, f) in rest.0 && (n, f) !in m;
        (rest.0, rest.1, mark || rest.2)
  }

  lemma AddedMark(m: Marks, r: Marks, f: Formula, s: set<int>, p: (int, Formula))
    requires OnlyAdds(m, r, f, s) && p in r && p !in m
    ensures p.1 == f && p.0 in s
  {
    var n, h := p.0, p.1;
    assert p == (n, h);
    assert (n, h) in r && (n, h) !in m;
  }

  /** Nodes that could still gain `f`: the measure of the sweep loop. */
  function Unmarked(g: Graph, m: Marks, f: Formula): set<int>
  {
    set n | n in g.succ.Keys && (n, f) !in m
  }

  /**
   * `checkAllFuture`: sweep from the initial node until a sweep marks nothing. The result
   * is closed under the rule on every reachable node.
   */
  function CheckAllFuture(g: Graph, m: Marks, f: Formula, a: Formula): (r: Marks)
    requires WellFormedGraph(g)
    decreases Unmarked(g, m, f)
    ensures OnlyAdds(m, r, f, Reach(g))
    ensures forall n | n in Reach(g) :: Due(g, r, f, a, n) ==> (n, f) in r
  {
    BfsIsReach(g);
    var sweep := Sweep(g, m, f, a, g.init, {});
    if !sweep.2 then m
    else
      assert Unmarked(g, sweep.0, f) < Unmarked(g, m, f) by {
        Fresh(sweep.0, m);
        var p :| p in sweep.0 && p !in m;
        AddedMark(m, sweep.0, f, sweep.1 - {}, p);
        assert p.0 in Unmarked(g, m, f) - Unmarked(g, sweep.0, f);
      }
      CheckAllFuture(g, sweep.0, f, a)
  }

  /**
   * A sweep of `checkAllFuture` without an operand: a node whose successors all carry `f`
   * is marked without reading the operand; any other throws at the read.
   */
  function ShortSweep(g: Graph, m: Marks, f: Formula, queue: seq<int>, found: set<int>)
    : (r: Result<(Marks, set<int>, bool)>)
    requires WellFormedGraph(g) && found <= g.succ.Keys && Elems(queue) <= g.succ.Keys
    decreases g.succ.Keys - found, |queue|
    ensures r.Err? ==> r.error == IndexOutOfBounds
    ensures r.Ok? ==> forall a :: r.value == Sweep(g, m, f, a, queue, found)
  {
    if |queue| == 0 then Ok((m, found, false))
    else
      var n := queue[0];
      assert Elems(queue) == {n} + Elems(queue[1..]);
      if n in found then ShortSweep(g, m, f, queue[1..], found)
      else if !AllSucc(g, m, f, n) then Err(IndexOutOfBounds)
      else
        var mark := (n, f) !in m;
        var m1 := if mark then m + {(n, f)} else m;
        var q := queue[1..] + g.succ[n];
        ElemsConcat(queue[1..], g.succ[n]);
        var rest :- ShortSweep(g, m1, f, q, found + {n});
        Ok((rest.0, rest.1, mark || rest.2))
  }

  /**
   * `checkAllFuture` without an operand: when no sweep reaches the read of the missing
   * operand, the marks are those of the pass with any operand at all.
   */
  function CheckAllFutureShort(g: Graph, m: Marks, f: Formula): (r: Result<Marks>)
    requires WellFormedGraph(g)
    decreases Unmarked(g, m, f)
    ensures r.Err? ==> r.error == IndexOutOfBounds
    ensures r.Ok? ==> forall a :: r.value == CheckAllFuture(g, m, f, a)
  {
    var sweep :- ShortSweep(g, m, f, g.init, {});
    if !sweep.2 then Ok(m)
    else
      assert sweep == Sweep(g, m, f, f, g.init, {});
      assert Unmarked(g, sweep.0, f) < Unmarked(g, m, f) by {
        Fresh(sweep.0, m);
        var p :| p in sweep.0 && p !in m;
        AddedMark(m, sweep.0, f, sweep.1 - {}, p);
        assert p.0 in Unmarked(g, m, f) - Unmarked(g, sweep.0, f);
      }
      CheckAllFutureShort(g, sweep.0, f)
  }

  /** The nodes of `x` are closed under the rule: a reachable due node is in `x`. */
  predicate RuleClosed(g: Graph, m: Marks, f: Formula, a: Formula, x: set<int>)
    requires WellFormedGraph(g)
  {
    forall n | n in Reach(g) && (AllSucc(g, set k | k in x :: (k, f), f, n) || (n, a) in m) :: n in x
  }

  /**
   * The fixpoint is the least one: every node it marks is in every rule-closed set
   * that already holds the marked nodes.
   */
  lemma {:induction false} AllFutureLeast(g: Graph, m: Marks, f: Formula, a: Formula, x: set<int>)
    requires WellFormedGraph(g) && f != a && RuleClosed(g, m, f, a, x)
    requires forall n | (n, f) in m :: n in x
    decreases Unmarked(g, m, f)
    ensures forall n | (n, f) in CheckAllFuture(g, m, f, a) :: n in x
  {
    BfsIsReach(g);
    var sweep := Sweep(g, m, f, a, g.init, {});
    if sweep.2 {
      SweepLeast(g, m, f, a, g.init, {}, x);
      Fresh(sweep.0, m);
      var p :| p in sweep.0 && p !in m;
      AddedMark(m, sweep.0, f, sweep.1 - {}, p);
      assert p.0 in Unmarked(g, m, f) - Unmarked(g, sweep.0, f);
      assert RuleClosed(g, sweep.0, f, a, x) by {
        forall n | n in Reach(g) ensures (n, a) in sweep.0 ==> (n, a) in m {
        }
      }
      AllFutureLeast(g, sweep.0, f, a, x);
    }
  }

  /** A sweep only marks nodes of a rule-closed set holding the marked nodes. */
  lemma {:induction false} SweepLeast(g: Graph, m: Marks, f: Formula, a: Formula, queue: seq<int>, found: set<int>, x: set<int>)
    requires WellFormedGraph(g) && found <= g.succ.Keys && Elems(queue) <= g.succ.Keys
    requires f != a && RuleClosed(g, m, f, a, x) && found + Elems(queue) <= Reach(g)
    requires forall n | (n, f) in m :: n in x
    decreases g.succ.Keys - found, |queue|
    ensures forall n | (n, f) in Sweep(g, m, f, a, queue, found).0 :: n in x
  {
    if |queue| > 0 {
      var n := queue[0];
      assert Elems(queue) == {n} + Elems(queue[1..]);
      if n in found {
        SweepLeast(g, m, f, a, queue[1..], found, x);
      } else {
        var mark := Due(g, m, f, a, n) && (n, f) !in m;
        var m1 := if mark then m + {(n, f)} else m;
        var q := queue[1..] + g.succ[n];
        ElemsConcat(queue[1..], g.succ[n]);
        assert forall i | 0 <= i < |g.succ[n]| :: g.succ[n][i] in Reach(g);
        if mark {
          assert AllSucc(g, set k | k in x :: (k, f), f, n) || (n, a) in m by {
            if AllSucc(g, m, f, n) {
              forall i | 0 <= i < |g.succ[n]| ensures (g.succ[n][i], f) in set k | k in x :: (k, f) {
                var s := g.succ[n][i];
                assert (s, f) in m;
                assert s in x;
              }
            }
          }
        }
        assert RuleClosed(g, m1, f, a, x);
        SweepLeast(g, m1, f, a, q, found + {n}, x);
      }
    }
  }

  // ---------------------------------------------------------------- exists-next

  /** Some successor of `n` carries `h`. */
  predicate SomeSucc(g: Graph, m: Marks, h: Formula, n: int)
    requires n in g.succ
  {
    exists i | 0 <= i < |g.succ[n]| :: (g.succ[n][i], h) in m
  }

  /** The predecessor lists read as a graph of its own, searched from `n`. */
  function Backward(g: Graph, before: map<int, seq<int>>, n: int): Graph
  {
    Graph(before, [n], g.colors)
  }

  /** Predecessor lists over the same nodes as the successor lists. */
  predicate WellFormedBefore(g: Graph, before: map<int, seq<int>>)
  {
    before.Keys == g.succ.Keys && WellFormedGraph(Graph(before, [], g.colors))
  }

  /**
   * `checkExistsNext` as written: mark `n` when a successor carries the operand, then
   * recurse into every predecessor, with no record of visited nodes. `fuel` bounds the
   * depth of the recursion; running out stands for a call that never returns.
   */
  function ExistsNextAsWritten(g: Graph, before: map<int, seq<int>>, m: Marks, f: Formula, a: Formula, n: int, fuel: nat)
    : (r: Option<Marks>)
    requires WellFormedGraph(g) && WellFormedBefore(g, before) && n in g.succ
    decreases fuel, 0, 0
    ensures fuel == 0 ==> r == None
    ensures r.Some? ==> OnlyAdds(m, r.value, f, g.succ.Keys)
  {
    if fuel == 0 then None
    else
      var m1 := if SomeSucc(g, m, a, n) then m + {(n, f)} else m;
      Predecessors(g, before, m1, f, a, before[n], 0, fuel - 1)
  }

  function Predecessors(g: Graph, before: map<int, seq<int>>, m: Marks, f: Formula, a: Formula, ps: seq<int>, k: nat, fuel: nat)
    : (r: Option<Marks>)
    requires WellFormedGraph(g) && WellFormedBefore(g, before) && k <= |ps|
    requires forall i | 0 <= i < |ps| :: ps[i] in g.succ
    decreases fuel, 1, |ps| - k
    ensures r.Some? ==> OnlyAdds(m, r.value, f, g.succ.Keys)
  {
    if k == |ps| then Some(m)
    else
      var first := ExistsNextAsWritten(g, before, m, f, a, ps[k], fuel);
      if first.None? then None
      else Predecessors(g, before, first.value, f, a, ps, k + 1, fuel)
  }

  /** A self-loop in the predecessor lists: node 0 precedes itself. */
  function LoopGraph(): Graph { Graph(map[0 := [0]], [0], {}) }

  /** On a node that precedes itself the recursion never returns, however deep it may go. */
  lemma {:induction false} SelfLoopNeverReturns(m: Marks, f: Formula, a: Formula, fuel: nat)
    decreases fuel
    ensures WellFormedGraph(LoopGraph()) && WellFormedBefore(LoopGraph(), map[0 := [0]])
    ensures ExistsNextAsWritten(LoopGraph(), map[0 := [0]], m, f, a, 0, fuel) == None
  {
    var g, before := LoopGraph(), map[0 := [0]];
    assert WellFormedBefore(g, before);
    if fuel > 0 {
      var m1 := if SomeSucc(g, m, a, 0) then m + {(0, f)} else m;
      SelfLoopNeverReturns(m1, f, a, fuel - 1);
      assert before[0] == [0];
      assert Predecessors(g, before, m1, f, a, [0], 0, fuel - 1).None?;
    }
  }

  /** The nodes `n` reaches through the predecessor lists, `n` included. */
  function BackReach(g: Graph, before: map<int, seq<int>>, n: int): (r: set<int>)
    requires WellFormedBefore(g, before) && n in g.succ
    ensures n in r && r <= g.succ.Keys
  {
    var b := Backward(g, before, n);
    assert WellFormedGraph(b);
    InitSingleton(b);
    Reach(b)
  }

  /** The union of `BackReach` over `ps[k..]`. */
  function BackReachAll(g: Graph, before: map<int, seq<int>>, ps: seq<int>, k: nat): (r: set<int>)
    requires WellFormedBefore(g, before) && k <= |ps|
    requires forall i | 0 <= i < |ps| :: ps[i] in g.succ
    decreases |ps| - k
    ensures r <= g.succ.Keys
  {
    if k == |ps| then {} else BackReach(g, before, ps[k]) + BackReachAll(g, before, ps, k + 1)
  }

  /** The marks exists-next adds on the nodes of `s`. */
  function Marked(g: Graph, m: Marks, f: Formula, a: Formula, s: set<int>): Marks
    requires s <= g.succ.Keys
  {
    set x | x in s && SomeSucc(g, m, a, x) :: (x, f)
  }

  lemma MarkedUnion(g: Graph, m: Marks, f: Formula, a: Formula, s1: set<int>, s2: set<int>)
    requires s1 <= g.succ.Keys && s2 <= g.succ.Keys
    ensures Marked(g, m, f, a, s1 + s2) == Marked(g, m, f, a, s1) + Marked(g, m, f, a, s2)
  {
  }

  /** Marking one node is adding its own marks. */
  lemma OwnMark(g: Graph, m: Marks, f: Formula, a: Formula, n: int)
    requires n in g.succ
    ensures var m1 := if SomeSucc(g, m, a, n) then m + {(n, f)} else m;
      m1 == m + Marked(g, m, f, a, {n}) && OnlyAdds(m, m1, f, g.succ.Keys)
  {
  }

  lemma InitSingleton(g: Graph)
    requires |g.init| == 1
    ensures InitSet(g) == {g.init[0]}
  {
    assert g.init[0] in InitSet(g);
  }

  /** Adding marks of `f` leaves what exists-next reads of the operand `a` as it was. */
  lemma MarkedStable(g: Graph, m: Marks, m1: Marks, f: Formula, a: Formula, s: set<int>)
    requires s <= g.succ.Keys && f != a && OnlyAdds(m, m1, f, g.succ.Keys)
    ensures Marked(g, m1, f, a, s) == Marked(g, m, f, a, s)
  {
    forall x | x in s ensures SomeSucc(g, m1, a, x) == SomeSucc(g, m, a, x) {
      forall i | 0 <= i < |g.succ[x]| ensures (g.succ[x][i], a) in m1 <==> (g.succ[x][i], a) in m {
        var y := g.succ[x][i];
        if (y, a) in m1 && (y, a) !in m {
          AddedMark(m, m1, f, g.succ.Keys, (y, a));
        }
      }
    }
  }

  /** The union over `ps[k..]` is closed and holds every node of `ps[k..]`. */
  lemma {:induction false} BackReachAllClosed(g: Graph, before: map<int, seq<int>>, ps: seq<int>, k: nat)
    requires WellFormedBefore(g, before) && k <= |ps|
    requires forall i | 0 <= i < |ps| :: ps[i] in g.succ
    decreases |ps| - k
    ensures ClosedSet(Graph(before, [], g.colors), BackReachAll(g, before, ps, k))
    ensures forall i | k <= i < |ps| :: ps[i] in BackReachAll(g, before, ps, k)
  {
    if k < |ps| {
      BackReachAllClosed(g, before, ps, k + 1);
      assert ClosedSet(Backward(g, before, ps[k]), BackReach(g, before, ps[k]));
    }
  }

  /** The union over `ps[k..]` lies within any closed set holding `ps[k..]`. */
  lemma {:induction false} BackReachAllWithin(g: Graph, before: map<int, seq<int>>, ps: seq<int>, k: nat, s: set<int>)
    requires WellFormedBefore(g, before) && k <= |ps|
    requires forall i | 0 <= i < |ps| :: ps[i] in g.succ
    requires ClosedSet(Graph(before, [], g.colors), s) && forall i | k <= i < |ps| :: ps[i] in s
    decreases |ps| - k
    ensures BackReachAll(g, before, ps, k) <= s
  {
    if k < |ps| {
      BackReachAllWithin(g, before, ps, k + 1, s);
      var b := Backward(g, before, ps[k]);
      assert WellFormedGraph(b);
      InitSingleton(b);
      ReachLeast(b, s);
    }
  }

  /** What `n` reaches backwards is `n` and what its predecessors reach. */
  lemma BackReachUnfold(g: Graph, before: map<int, seq<int>>, n: int)
    requires WellFormedBefore(g, before) && n in g.succ
    ensures BackReach(g, before, n) == {n} + BackReachAll(g, before, before[n], 0)
  {
    var b := Backward(g, before, n);
    var r := BackReach(g, before, n);
    assert WellFormedGraph(b);
    InitSingleton(b);
    assert ClosedSet(Graph(before, [], g.colors), r);
    BackReachAllWithin(g, before, before[n], 0, r);
    BackReachAllClosed(g, before, before[n], 0);
    ReachLeast(b, {n} + BackReachAll(g, before, before[n], 0));
  }

  /** Whenever the recursion as written returns, it has marked exactly what `n` reaches backwards. */
  lemma {:induction false} AsWrittenMarks(g: Graph, before: map<int, seq<int>>, m: Marks, f: Formula, a: Formula, n: int, fuel: nat)
    requires WellFormedGraph(g) && WellFormedBefore(g, before) && n in g.succ && f != a
    decreases fuel, 0, 0
    ensures var r := ExistsNextAsWritten(g, before, m, f, a, n, fuel);
      r.Some? ==> r.value == m + Marked(g, m, f, a, BackReach(g, before, n))
  {
    if fuel > 0 {
      var m1 := if SomeSucc(g, m, a, n) then m + {(n, f)} else m;
      var own := Marked(g, m, f, a, {n});
      OwnMark(g, m, f, a, n);
      var u := BackReachAll(g, before, before[n], 0);
      var r := Predecessors(g, before, m1, f, a, before[n], 0, fuel - 1);
      PredecessorsMarks(g, before, m1, f, a, before[n], 0, fuel - 1);
      if r.Some? {
        MarkedStable(g, m, m1, f, a, u);
        MarkedUnion(g, m, f, a, {n}, u);
        BackReachUnfold(g, before, n);
        calc {
          r.value;
          m1 + Marked(g, m1, f, a, u);
          m + own + Marked(g, m, f, a, u);
          m + Marked(g, m, f, a, {n} + u);
        }
      }
    }
  }

  lemma {:induction false} PredecessorsMarks(g: Graph, before: map<int, seq<int>>, m: Marks, f: Formula, a: Formula, ps: seq<int>, k: nat, fuel: nat)
    requires WellFormedGraph(g) && WellFormedBefore(g, before) && k <= |ps| && f != a
    requires forall i | 0 <= i < |ps| :: ps[i] in g.succ
    decreases fuel, 1, |ps| - k
    ensures var r := Predecessors(g, before, m, f, a, ps, k, fuel);
      r.Some? ==> r.value == m + Marked(g, m, f, a, BackReachAll(g, before, ps, k))
  {
    if k < |ps| {
      var first := ExistsNextAsWritten(g, before, m, f, a, ps[k], fuel);
      AsWrittenMarks(g, before, m, f, a, ps[k], fuel);
      if first.Some? {
        var here, u := BackReach(g, before, ps[k]), BackReachAll(g, before, ps, k + 1);
        var r := Predecessors(g, before, first.value, f, a, ps, k + 1, fuel);
        assert Predecessors(g, before, m, f, a, ps, k, fuel) == r;
        PredecessorsMarks(g, before, first.value, f, a, ps, k + 1, fuel);
        MarkedStable(g, m, first.value, f, a, u);
        MarkedUnion(g, m, f, a, here, u);
        if r.Some? {
          calc {
            r.value;
            first.value + Marked(g, first.value, f, a, u);
            m + Marked(g, m, f, a, here) + Marked(g, m, f, a, u);
            m + Marked(g, m, f, a, here + u);
          }
        }
      }
    }
  }

  /**
   * `checkExistsNext`, corrected: search the predecessor lists from the initial node,
   * visiting each node once, and mark every visited node a successor of which carries
   * the operand.
   */
  function CheckExistsNext(g: Graph, before: map<int, seq<int>>, m: Marks, f: Formula): (r: Marks)
    requires WellFormedGraph(g) && WellFormedBefore(g, before) && |g.init| == 1 && f.Apply? && |f.subs| >= 1
    ensures forall n, h :: (n, h) in r <==>
      (n, h) in m || (h == f && n in Reach(Backward(g, before, g.init[0])) && SomeSucc(g, m, f.subs[0], n))
  {
    var b := Backward(g, before, g.init[0]);
    assert WellFormedGraph(b);
    BfsIsReach(b);
    m + set n | n in Bfs(b, b.init, {}) && SomeSucc(g, m, f.subs[0], n) :: (n, f)
  }

  /** Whenever the recursion as written returns, the corrected search gives the same marks. */
  lemma AsWrittenAgrees(g: Graph, before: map<int, seq<int>>, m: Marks, f: Formula, fuel: nat)
    requires WellFormedGraph(g) && WellFormedBefore(g, before) && |g.init| == 1 && f.Apply? && |f.subs| >= 1
    ensures var r := ExistsNextAsWritten(g, before, m, f, f.subs[0], g.init[0], fuel);
      r.Some? ==> r.value == CheckExistsNext(g, before, m, f)
  {
    assert f.subs[0] in f.subs;
    AsWrittenMarks(g, before, m, f, f.subs[0], g.init[0], fuel);
  }

  // ---------------------------------------------------------------- check

  /**
   * `check`: propositions are skipped, operands are checked first, then and, negation,
   * exists-next and all-future act; any other operator changes nothing. Exists-next
   * uses the corrected search.
   */
  function Check(g: Graph, before: map<int, seq<int>>, m: Marks, f: Formula): (r: Result<Marks>)
    requires WellFormedGraph(g) && WellFormedBefore(g, before) && |g.init| == 1
    decreases f, 1, 0
    ensures r.Ok? ==> forall n, h | !Occurs(h, f) :: ((n, h) in r.value <==> (n, h) in m)
    ensures r.Err? ==> r.error == IndexOutOfBounds
    ensures WellFormed(f) ==> r.Ok?
  {
    if !f.Apply? then Ok(m)
    else
      var subs := CheckFrom(g, before, m, f, 0);
      if subs.Err? then subs
      else if (f.op == And && |f.subs| < 2) || (f.op in {Op.Negation, Op.ExistsNext, Op.AllFuture} && |f.subs| < 1) then
        ShortOperator(g, before, subs.value, f)
      else
        var m := subs.value;
        assert f.op in {Op.Negation, Op.ExistsNext, Op.AllFuture, Op.And} ==> f.subs[0] in f.subs;
        Ok(match f.op
           case And => CheckAnd(g, m, f)
           case Negation => CheckNegation(g, m, f)
           case ExistsNext => CheckExistsNext(g, before, m, f)
           case AllFuture => CheckAllFuture(g, m, f, f.subs[0])
           case _ => m)
  }

  /**
   * An operator with fewer operands than it reads. Each pass reads its operands lazily and
   * throws only when a read reaches a missing one: and reads its second operand only at a
   * node with the first, exists-next reads its operand per edge of the initial node and
   * of its predecessors, all-future only at a node with a successor not yet marked.
   */
  function ShortOperator(g: Graph, before: map<int, seq<int>>, m: Marks, f: Formula): (r: Result<Marks>)
    requires WellFormedGraph(g) && WellFormedBefore(g, before) && |g.init| == 1 && f.Apply?
    requires (f.op == And && |f.subs| < 2) || (f.op in {Op.Negation, Op.ExistsNext, Op.AllFuture} && |f.subs| < 1)
    ensures r.Err? ==> r.error == IndexOutOfBounds
    ensures r.Ok? ==> forall n, h | h != f :: ((n, h) in r.value <==> (n, h) in m)
  {
    match f.op
    case And =>
      if |f.subs| == 0 || exists n | n in Reach(g) :: (n, f.subs[0]) in m then Err(IndexOutOfBounds) else Ok(m)
    case Negation => Err(IndexOutOfBounds)
    case ExistsNext =>
      if |g.succ[g.init[0]]| > 0 || |before[g.init[0]]| > 0 then Err(IndexOutOfBounds) else Ok(m)
    case AllFuture =>
      var r := CheckAllFutureShort(g, m, f);
      assert r.Ok? ==> r.value == CheckAllFuture(g, m, f, f);
      r
  }

  /**
   * And with one operand, which no node carries, finishes without reading the second;
   * all-future without an operand marks a node with no successor without reading it.
   */
  lemma ShortOperandsReadLazily()
    ensures var g := Graph(map[0 := []], [0], {});
      var p := FloatProp("x", Gt, 0.0);
      WellFormedGraph(g) && WellFormedBefore(g, map[0 := []]) &&
      Check(g, map[0 := []], {}, Apply(And, [p])) == Ok({}) &&
      Check(g, map[0 := []], {}, Apply(AllFuture, [])) == Ok({(0, Apply(AllFuture, []))})
  {
    var g := Graph(map[0 := []], [0], {});
    var before := map[0 := []];
    var p := FloatProp("x", Gt, 0.0);
    var f := Apply(AllFuture, []);
    assert g.init[0] == 0 && 0 in InitSet(g);
    ReachLeast(g, {0});
    assert Reach(g) == {0};
    assert Apply(And, [p]).subs[0] == p;
    assert CheckFrom(g, before, {}, Apply(And, [p]), 1) == Ok({});
    assert Check(g, before, {}, p) == Ok({});
    var s1 := ShortSweep(g, {}, f, [0], {});
    assert [0][1..] + g.succ[0] == [] && {} + {0} == {0} && {} + {(0, f)} == {(0, f)};
    assert AllSucc(g, {}, f, 0);
    assert ShortSweep(g, {(0, f)}, f, [], {0}) == Ok(({(0, f)}, {0}, false));
    assert s1 == Ok(({(0, f)}, {0}, true));
    assert ShortSweep(g, {(0, f)}, f, [0], {}) == Ok(({(0, f)}, {0}, false));
    assert CheckAllFutureShort(g, {(0, f)}, f) == Ok({(0, f)});
  }

  function CheckFrom(g: Graph, before: map<int, seq<int>>, m: Marks, f: Formula, k: nat): (r: Result<Marks>)
    requires WellFormedGraph(g) && WellFormedBefore(g, before) && |g.init| == 1 && f.Apply? && k <= |f.subs|
    decreases f, 0, |f.subs| - k
    ensures r.Ok? ==> forall n, h | !Occurs(h, f) :: ((n, h) in r.value <==> (n, h) in m)
    ensures r.Err? ==> r.error == IndexOutOfBounds
    ensures WellFormed(f) ==> r.Ok?
  {
    if k == |f.subs| then Ok(m)
    else
      var first :- Check(g, before, m, f.subs[k]);
      var rest :- CheckFrom(g, before, first, f, k + 1);
      assert forall h | !Occurs(h, f) :: !Occurs(h, f.subs[k]) by {
        forall h | Occurs(h, f.subs[k]) ensures Occurs(h, f) {
          OccursInOperand(h, f, k);
        }
      }
      Ok(rest)
  }
}
