/**
 * The model adapter of the Boolean-network playground: nodes are vectors of species
 * levels cached by their `Arrays.hashCode`, colour sets are kept per node and formula.
 * Colours are an abstract type; the full set `one` stands for the universe of parameters.
 */
module BoolNetwork {
  import opened Wrappers
  import opened JavaInt
  import opened Formulas

  /** A `LevelNode`: the level of every species. */
  type Levels = seq<int>

  /** The adapter's state: the node cache, the border nodes, and the stored colours. */
  datatype Adapter<C> = Adapter(
    one: set<C>,
    nodeCache: map<int, Levels>,
    borderNodes: map<int, Levels>,
    valid: map<Levels, map<Formula, set<C>>>,
    revealed: set<Formula>)

  /** Both caches are keyed by the hash of their nodes, and every cached node has a formula map. */
  predicate Consistent<C>(a: Adapter<C>)
  {
    (forall h | h in a.nodeCache :: ArraysHashCode(a.nodeCache[h]) == h && a.nodeCache[h] in a.valid) &&
    (forall h | h in a.borderNodes :: ArraysHashCode(a.borderNodes[h]) == h)
  }

  /** The nodes of the cache, in no particular order. */
  function Cached<C>(a: Adapter<C>): set<Levels>
  {
    set h | h in a.nodeCache :: a.nodeCache[h]
  }

  // ---------------------------------------------------------------- nodes

  /**
   * `getNode`: the cached node with the same hash, a border node with it, or else a new
   * node registered with an empty formula map.
   */
  function GetNode<C>(a: Adapter<C>, levels: Levels): (r: (Adapter<C>, Levels))
    requires Consistent(a)
    ensures Consistent(r.0) && r.0.one == a.one && r.0.revealed == a.revealed && r.0.borderNodes == a.borderNodes
    ensures ArraysHashCode(r.1) == ArraysHashCode(levels)
    ensures ArraysHashCode(levels) in r.0.nodeCache || ArraysHashCode(levels) in r.0.borderNodes
    ensures ArraysHashCode(levels) in a.nodeCache ==> r == (a, a.nodeCache[ArraysHashCode(levels)])
    ensures ArraysHashCode(levels) !in a.nodeCache && ArraysHashCode(levels) in a.borderNodes ==>
      r == (a, a.borderNodes[ArraysHashCode(levels)])
    ensures ArraysHashCode(levels) !in a.nodeCache && ArraysHashCode(levels) !in a.borderNodes ==>
      r.1 == levels && levels in r.0.valid && r.0.valid[levels] == map[] && Cached(r.0) == Cached(a) + {levels} &&
      forall n | n in a.valid && n != levels :: n in r.0.valid && r.0.valid[n] == a.valid[n]
  {
    var h := ArraysHashCode(levels);
    if h in a.nodeCache then (a, a.nodeCache[h])
    else if h in a.borderNodes then (a, a.borderNodes[h])
    else
      var b := a.(nodeCache := a.nodeCache[h := levels], valid := a.valid[levels := map[]]);
      assert Cached(b) == Cached(a) + {levels} by {
        assert levels == b.nodeCache[h];
        forall n | n in Cached(b) ensures n in Cached(a) + {levels} {
          var k :| k in b.nodeCache && b.nodeCache[k] == n;
          if k != h { assert n == a.nodeCache[k]; }
        }
        forall n | n in Cached(a) ensures n in Cached(b) {
          var k :| k in a.nodeCache && a.nodeCache[k] == n;
          assert b.nodeCache[k] == n;
        }
      }
      (b, levels)
  }

  /** Asking for the same levels twice returns the same node and changes nothing more. */
  lemma GetNodeIdempotent<C>(a: Adapter<C>, levels: Levels)
    requires Consistent(a)
    ensures var (b, n) := GetNode(a, levels); GetNode(b, levels) == (b, n)
  {
  }

  /** The levels of the neighbour across species `i`: a level 0 becomes 1, any other level 0. */
  function Flip(center: Levels, i: nat): Levels
    requires i < |center|
  {
    center[i := if center[i] == 0 then 1 else 0]
  }

  /** The level vectors `distanceOne` asks for, one per species. */
  function NeighbourLevels(center: Levels): (r: seq<Levels>)
    ensures |r| == |center|
    ensures forall i | 0 <= i < |r| ::
              && |r[i]| == |center|
              && (forall j | 0 <= j < |center| && j != i :: r[i][j] == center[j])
              && r[i][i] == (if center[i] == 0 then 1 else 0)
  {
    seq(|center|, i requires 0 <= i < |center| => Flip(center, i))
  }

  /** `getNode` over `requests` in order, collecting the nodes it returns. */
  function GetNodes<C>(a: Adapter<C>, requests: seq<Levels>): (r: (Adapter<C>, seq<Levels>))
    requires Consistent(a)
    ensures Consistent(r.0) && r.0.one == a.one && r.0.revealed == a.revealed && r.0.borderNodes == a.borderNodes
    ensures forall h | h in a.nodeCache :: h in r.0.nodeCache && r.0.nodeCache[h] == a.nodeCache[h]
    ensures |r.1| == |requests|
    ensures forall i | 0 <= i < |requests| :: ArraysHashCode(r.1[i]) == ArraysHashCode(requests[i])
    ensures forall i | 0 <= i < |requests| ::
      ArraysHashCode(requests[i]) in r.0.nodeCache || ArraysHashCode(requests[i]) in r.0.borderNodes
    decreases |requests|
  {
    if |requests| == 0 then (a, [])
    else
      var (b, n) := GetNode(a, requests[0]);
      var (c, ns) := GetNodes(b, requests[1..]);
      (c, [n] + ns)
  }

  /** `distanceOne`: the nodes across each species from `center`. */
  function DistanceOne<C>(a: Adapter<C>, center: Levels): (r: (Adapter<C>, seq<Levels>))
    requires Consistent(a)
    ensures Consistent(r.0) && |r.1| == |center|
    ensures forall i | 0 <= i < |center| :: ArraysHashCode(r.1[i]) == ArraysHashCode(Flip(center, i))
  {
    GetNodes(a, NeighbourLevels(center))
  }

  /**
   * A neighbour is exactly the flipped vector whenever no other cached or border node
   * shares its hash.
   */
  lemma NeighbourExact<C>(a: Adapter<C>, center: Levels, i: nat)
    requires Consistent(a) && i < |center|
    requires forall n | n in Cached(a) + BorderSet(a) :: ArraysHashCode(n) == ArraysHashCode(Flip(center, i)) ==> n == Flip(center, i)
    ensures GetNode(a, Flip(center, i)).1 == Flip(center, i)
  {
    var h := ArraysHashCode(Flip(center, i));
    if h in a.nodeCache {
      assert a.nodeCache[h] in Cached(a);
    } else if h in a.borderNodes {
      assert a.borderNodes[h] in BorderSet(a);
    }
  }

  function BorderSet<C>(a: Adapter<C>): set<Levels>
  {
    set h | h in a.borderNodes :: a.borderNodes[h]
  }

  // ---------------------------------------------------------------- enumeration

  /** `w` agrees with `levels` above position `i` and holds 0 or 1 at and below it. */
  predicate Completes(w: Levels, levels: Levels, i: int)
  {
    |w| == |levels| &&
    (forall j | 0 <= j <= i && j < |w| :: w[j] == 0 || w[j] == 1) &&
    (forall j | i < j < |w| && 0 <= j :: w[j] == levels[j])
  }

  predicate Distinct(s: seq<Levels>)
  {
    forall x, y | 0 <= x < y < |s| :: s[x] != s[y]
  }

  function Pow2(n: nat): nat { if n == 0 then 1 else 2 * Pow2(n - 1) }

  /**
   * `enumSpecies(i, levels)`: the level vectors handed to `getNode`, in order, and the
   * array as the recursion leaves it (every position up to `i` ends at 1).
   */
  function EnumSpecies(i: int, levels: Levels): (r: (seq<Levels>, Levels))
    requires -1 <= i < |levels|
    decreases i + 1
    ensures |r.1| == |levels| && |r.0| == Pow2(i + 1)
    ensures forall j | 0 <= j < |levels| :: r.1[j] == if j <= i then 1 else levels[j]
    ensures forall w :: w in r.0 <==> Completes(w, levels, i)
    ensures Distinct(r.0)
  {
    if i < 0 then
      assert forall w | Completes(w, levels, i) :: w == levels;
      ([levels], levels)
    else
      var (low, mid) := EnumSpecies(i - 1, levels[i := 0]);
      var (high, last) := EnumSpecies(i - 1, mid[i := 1]);
      assert forall w | w in low :: |w| > i && w[i] == 0;
      assert forall w | w in high :: |w| > i && w[i] == 1;
      forall w | Completes(w, levels, i) ensures w in low + high {
        CompletesSplit(w, levels, mid, i);
      }
      DistinctConcat(low, high, i);
      (low + high, last)
  }

  /** A vector completing `levels` up to `i` completes, up to `i - 1`, the half its level at `i` picks. */
  lemma {:induction false} CompletesSplit(w: Levels, levels: Levels, mid: Levels, i: int)
    requires 0 <= i < |levels| && |mid| == |levels| && Completes(w, levels, i)
    requires forall j | 0 <= j < |levels| :: mid[j] == if j <= i - 1 then 1 else levels[i := 0][j]
    ensures w[i] == 0 ==> Completes(w, levels[i := 0], i - 1)
    ensures w[i] != 0 ==> Completes(w, mid[i := 1], i - 1)
  {
  }

  /** Two distinct lists told apart at position `i` concatenate to a distinct list. */
  lemma {:induction false} DistinctConcat(low: seq<Levels>, high: seq<Levels>, i: nat)
    requires Distinct(low) && Distinct(high)
    requires forall w | w in low :: |w| > i && w[i] == 0
    requires forall w | w in high :: |w| > i && w[i] == 1
    ensures Distinct(low + high)
  {
    forall x, y | 0 <= x < y < |low + high| ensures (low + high)[x] != (low + high)[y] {
      if x < |low| && y >= |low| {
        assert (low + high)[x] in low && (low + high)[y] in high;
      }
    }
  }

  /** The playground enumerates every 0/1 vector of its species count exactly once. */
  lemma EnumeratesAllStates(n: nat)
    ensures var calls := EnumSpecies(n - 1, seq(n, _ => 0)).0;
      |calls| == Pow2(n) && Distinct(calls) &&
      forall w :: w in calls <==> |w| == n && forall j | 0 <= j < n :: w[j] == 0 || w[j] == 1
  {
    var calls := EnumSpecies(n - 1, seq(n, _ => 0)).0;
    forall w ensures w in calls <==> |w| == n && forall j | 0 <= j < n :: w[j] == 0 || w[j] == 1 {
      assert Completes(w, seq(n, _ => 0), n - 1) <==> |w| == n && forall j | 0 <= j < n :: w[j] == 0 || w[j] == 1;
    }
  }

  // ---------------------------------------------------------------- stored colours

  /**
   * `addFormula`: store the previous colours of `f` at `node` united with `parameters`,
   * reporting whether the union changed the set. `BDDColorSet.union` reports a change
   * whenever the receiver is empty, before looking at its argument. A node without a
   * formula map fails.
   */
  function AddFormula<C>(a: Adapter<C>, node: Levels, f: Formula, parameters: set<C>): (r: Result<(Adapter<C>, bool)>)
    ensures r.Err? <==> node !in a.valid
    ensures r.Err? ==> r.error == NullPointer
    ensures r.Ok? ==>
      var (b, changed) := r.value;
      var previous := if f in a.valid[node] then a.valid[node][f] else {};
      b.valid.Keys == a.valid.Keys && f in b.valid[node] && b.valid[node][f] == previous + parameters &&
      (forall g | g in a.valid[node] && g != f :: g in b.valid[node] && b.valid[node][g] == a.valid[node][g]) &&
      (forall g | g in b.valid[node] :: g in a.valid[node] || g == f) &&
      (forall n | n in a.valid && n != node :: b.valid[n] == a.valid[n]) &&
      b.nodeCache == a.nodeCache && b.revealed == a.revealed &&
      (changed <==> previous == {} || !(parameters <= previous))
  {
    if node !in a.valid then Err(NullPointer)
    else
      var previous := if f in a.valid[node] then a.valid[node][f] else {};
      var union := previous + parameters;
      Ok((a.(valid := a.valid[node := a.valid[node][f := union]]), UnionChanged(previous, parameters)))
  }

  /** The flag `BDDColorSet.union` returns. */
  function UnionChanged<C>(receiver: set<C>, argument: set<C>): (r: bool)
    ensures r <==> receiver == {} || !(argument <= receiver)
  {
    if receiver == {} then true
    else if argument == {} then false
    else receiver + argument != receiver
  }

  /**
   * Adding the same colours again leaves the colours as they are, and reports a change
   * exactly when they are still empty.
   */
  lemma AddFormulaTwice<C>(a: Adapter<C>, node: Levels, f: Formula, parameters: set<C>)
    requires node in a.valid
    ensures var b := AddFormula(a, node, f, parameters).value.0;
      AddFormula(b, node, f, parameters) == Ok((b, b.valid[node][f] == {}))
  {
    var b := AddFormula(a, node, f, parameters).value.0;
    assert b.valid[node][f := b.valid[node][f]] == b.valid[node];
    assert b.valid[node := b.valid[node]] == b.valid;
  }

  /** Adding no colours to an empty label still reports a change. */
  lemma EmptyAddReportsChange<C>(a: Adapter<C>, node: Levels, f: Formula)
    requires node in a.valid && f !in a.valid[node]
    ensures AddFormula(a, node, f, {}).Ok? && AddFormula(a, node, f, {}).value.1
    ensures AddFormula(a, node, f, {}).value.0.valid[node][f] == {}
  {
  }

  /** `getLevel`: the level of one species; an index outside the vector fails. */
  function GetLevel(n: Levels, i: int): (r: Result<int>)
    ensures r.Ok? <==> 0 <= i < |n|
    ensures r.Ok? ==> r.value == n[i]
    ensures r.Err? ==> r.error == IndexOutOfBounds
  {
    if 0 <= i < |n| then Ok(n[i]) else Err(IndexOutOfBounds)
  }

  /** `species.indexOf(name)`: the first position holding `name`, or -1. */
  function IndexOf(species: seq<string>, name: string): (r: int)
    ensures -1 <= r < |species|
    ensures r == -1 <==> name !in species
    ensures r >= 0 ==> species[r] == name && forall j | 0 <= j < r :: species[j] != name
  {
    if |species| == 0 then -1
    else if species[0] == name then 0
    else
      var k := IndexOf(species[1..], name);
      assert forall j | 1 <= j < |species| :: species[j] == species[1..][j - 1];
      if k == -1 then -1 else k + 1
  }

  /**
   * `revealProposition`: every cached node whose level of the proposition's species
   * satisfies it gets the full colour set for it; the proposition is then revealed.
   * `evaluate` is the proposition's comparison of a level against its threshold. A
   * cached node without that species fails.
   */
  function Reveal<C>(a: Adapter<C>, p: Formula, species: seq<string>, evaluate: real -> bool): (r: Result<Adapter<C>>)
    requires Consistent(a) && p.FloatProp?
    ensures r.Err? <==> exists n | n in Cached(a) :: GetLevel(n, IndexOf(species, p.variable)).Err?
    ensures r.Ok? ==> Consistent(r.value) && r.value.revealed == a.revealed + {p}
    ensures r.Ok? ==> r.value.nodeCache == a.nodeCache && r.value.valid.Keys == a.valid.Keys
    ensures r.Ok? ==> forall n, g | n in a.valid ::
      var gains := g == p && n in Cached(a) && evaluate(n[IndexOf(species, p.variable)] as real);
      && (g in r.value.valid[n] <==> g in a.valid[n] || gains)
      && (g in r.value.valid[n] ==> r.value.valid[n][g] == if gains then a.one else a.valid[n][g])
  {
    var index := IndexOf(species, p.variable);
    if exists n | n in Cached(a) :: GetLevel(n, index).Err? then Err(IndexOutOfBounds)
    else
      var valid := map n | n in a.valid ::
        if n in Cached(a) && evaluate(n[index] as real) then a.valid[n][p := a.one] else a.valid[n];
      Ok(a.(valid := valid, revealed := a.revealed + {p}))
  }

  /** Reveal a float proposition the adapter has not seen yet; anything else passes through. */
  function RevealIfNew<C>(a: Adapter<C>, f: Formula, species: seq<string>, evaluate: real -> bool): (r: Result<Adapter<C>>)
    requires Consistent(a)
    ensures r.Ok? ==> Consistent(r.value) && r.value.nodeCache == a.nodeCache && r.value.one == a.one
    ensures !f.FloatProp? || f in a.revealed ==> r == Ok(a)
  {
    if f.FloatProp? && f !in a.revealed then Reveal(a, f, species, evaluate) else Ok(a)
  }

  /**
   * `validColorsFor`: the full set for a tautology, none for a contradiction, otherwise
   * the colours stored for the formula at the node, none when nothing is stored. A node
   * without a formula map fails.
   */
  function ValidColorsFor<C>(a: Adapter<C>, node: Levels, f: Formula, species: seq<string>, evaluate: real -> bool)
    : (r: Result<(Adapter<C>, set<C>)>)
    requires Consistent(a)
    ensures f == Tautology ==> r == Ok((a, a.one))
    ensures f == Contradiction ==> r == Ok((a, {}))
    ensures !f.FloatProp? && f != Tautology && f != Contradiction ==>
      (r.Err? <==> node !in a.valid) &&
      (r.Ok? ==> r.value.0 == a && r.value.1 == if f in a.valid[node] then a.valid[node][f] else {})
    ensures r.Ok? ==> Consistent(r.value.0) && r.value.0.nodeCache == a.nodeCache
  {
    if f == Tautology then Ok((a, a.one))
    else if f == Contradiction then Ok((a, {}))
    else
      var b :- RevealIfNew(a, f, species, evaluate);
      if node !in b.valid then Err(NullPointer)
      else Ok((b, if f in b.valid[node] then b.valid[node][f] else {}))
  }

  /**
   * `initialNodes`: every cached node with the full set for a tautology, nothing for a
   * contradiction, otherwise the cached nodes with a non-empty stored set.
   */
  function InitialNodes<C>(a: Adapter<C>, f: Formula, species: seq<string>, evaluate: real -> bool)
    : (r: Result<(Adapter<C>, map<Levels, set<C>>)>)
    requires Consistent(a)
    ensures f == Tautology ==>
      r.Ok? && r.value.0 == a && r.value.1.Keys == Cached(a) && forall n | n in r.value.1 :: r.value.1[n] == a.one
    ensures f == Contradiction ==> r == Ok((a, map[]))
    ensures r.Ok? && f != Tautology && f != Contradiction ==>
      var (b, m) := r.value;
      forall n :: n in m <==> n in Cached(a) && n in b.valid && f in b.valid[n] && b.valid[n][f] != {}
    ensures r.Ok? && f != Tautology && f != Contradiction ==>
      var (b, m) := r.value;
      forall n | n in m :: n in b.valid && f in b.valid[n] && m[n] == b.valid[n][f]
  {
    if f == Tautology then Ok((a, map n | n in Cached(a) :: a.one))
    else if f == Contradiction then Ok((a, map[]))
    else
      var b :- RevealIfNew(a, f, species, evaluate);
      assert Cached(b) == Cached(a);
      assert forall n | n in Cached(b) :: n in b.valid by {
        forall n | n in Cached(b) ensures n in b.valid {
          var h :| h in b.nodeCache && b.nodeCache[h] == n;
        }
      }
      Ok((b, map n | n in Cached(b) && f in b.valid[n] && b.valid[n][f] != {} :: b.valid[n][f]))
  }

  /**
   * `invertNodeSet`: for every cached node, the full set minus the colours `nodes` gives
   * it, keeping only the nodes where something is left. Other keys of `nodes` are ignored.
   */
  function InvertNodeSet<C>(a: Adapter<C>, nodes: map<Levels, set<C>>): (r: map<Levels, set<C>>)
    ensures forall n :: n in r <==> n in Cached(a) && a.one - (if n in nodes then nodes[n] else {}) != {}
    ensures forall n | n in r :: r[n] == a.one - (if n in nodes then nodes[n] else {})
  {
    map n | n in Cached(a) && a.one - (if n in nodes then nodes[n] else {}) != {} ::
      a.one - (if n in nodes then nodes[n] else {})
  }

  /** Inverting twice gives back the colours within the full set, on cached nodes. */
  lemma InvertTwice<C>(a: Adapter<C>, nodes: map<Levels, set<C>>)
    ensures var back := InvertNodeSet(a, InvertNodeSet(a, nodes));
      forall n :: (n in back <==> n in Cached(a) && n in nodes && nodes[n] * a.one != {}) &&
                  (n in back ==> back[n] == nodes[n] * a.one)
  {
    var once := InvertNodeSet(a, nodes);
    forall n | n in Cached(a)
      ensures a.one - (if n in once then once[n] else {}) == (if n in nodes then nodes[n] * a.one else {})
    {
      if n in nodes {
        assert a.one - (a.one - nodes[n]) == nodes[n] * a.one;
      }
    }
  }

  // ---------------------------------------------------------------- context strings

  function Digit(d: nat): char
    requires d < 10
  {
    "0123456789"[d]
  }

  function NatString(n: nat): (r: string)
    ensures |r| > 0 && forall i | 0 <= i < |r| :: '0' <= r[i] <= '9'
  {
    if n < 10 then [Digit(n)] else NatString(n / 10) + [Digit(n % 10)]
  }

  /** Kotlin's decimal rendering of an `Int`. */
  function IntString(n: int): (r: string)
    ensures |r| > 0 && forall i | 0 <= i < |r| :: r[i] == '-' || '0' <= r[i] <= '9'
  {
    if n < 0 then "-" + NatString(-n) else NatString(n)
  }

  /** `joinToString(separator)`. */
  function Join(parts: seq<string>, sep: char): string
  {
    if |parts| == 0 then ""
    else if |parts| == 1 then parts[0]
    else parts[0] + [sep] + Join(parts[1..], sep)
  }

  /** `toContext`: "species:level" for each species in order, joined by commas. */
  function ToContext(levels: Levels, species: seq<string>): (r: string)
  {
    Join(ContextParts(levels, species), ',')
  }

  function ContextParts(levels: Levels, species: seq<string>): (r: seq<string>)
    ensures |r| == if |levels| < |species| then |levels| else |species|
    ensures forall i | 0 <= i < |r| :: r[i] == species[i] + ":" + IntString(levels[i])
  {
    var n := if |levels| < |species| then |levels| else |species|;
    seq(n, i requires 0 <= i < n => species[i] + ":" + IntString(levels[i]))
  }

  /** The position of the first `c` in `s`. */
  function FirstIndex(s: string, c: char): (r: nat)
    requires c in s
    ensures r < |s| && s[r] == c && c !in s[..r]
  {
    if s[0] == c then 0
    else
      assert c in s[1..];
      var k := FirstIndex(s[1..], c);
      assert s[..k + 1] == [s[0]] + s[1..][..k];
      k + 1
  }

  /** Cut `s` at every `sep`. */
  function Split(s: string, sep: char): (r: seq<string>)
    decreases |s|
    ensures |r| > 0
  {
    if sep !in s then [s]
    else
      var i := FirstIndex(s, sep);
      [s[..i]] + Split(s[i + 1..], sep)
  }

  /** The first separator of `p + [sep] + t` is the one after `p` when `p` has none. */
  lemma {:induction false} FirstSepAt(p: string, sep: char, t: string)
    requires sep !in p
    ensures sep in p + [sep] + t && FirstIndex(p + [sep] + t, sep) == |p|
  {
    var s := p + [sep] + t;
    assert s[|p|] == sep;
  }

  /** Splitting cuts off a separator-free prefix and its separator. */
  lemma {:induction false} SplitCons(p: string, sep: char, t: string)
    requires sep !in p
    ensures Split(p + [sep] + t, sep) == [p] + Split(t, sep)
  {
    var s := p + [sep] + t;
    FirstSepAt(p, sep, t);
    assert s[..|p|] == p;
    assert s[|p| + 1..] == t;
  }

  /** Splitting a join gives back the parts when none of them holds the separator. */
  lemma {:induction false} SplitJoin(parts: seq<string>, sep: char)
    requires |parts| > 0 && forall i | 0 <= i < |parts| :: sep !in parts[i]
    decreases |parts|
    ensures Split(Join(parts, sep), sep) == parts
  {
    if |parts| > 1 {
      var t := Join(parts[1..], sep);
      assert Join(parts, sep) == parts[0] + [sep] + t;
      SplitCons(parts[0], sep, t);
      SplitJoin(parts[1..], sep);
      assert parts == [parts[0]] + parts[1..];
    }
  }

  /**
   * A context string can be read back: when no species name holds a comma, cutting it at
   * the commas gives the "species:level" parts in species order.
   */
  lemma ContextReadBack(levels: Levels, species: seq<string>)
    requires |levels| > 0 && |species| > 0
    requires forall i | 0 <= i < |species| :: ',' !in species[i]
    ensures Split(ToContext(levels, species), ',') == ContextParts(levels, species)
  {
    var parts := ContextParts(levels, species);
    forall i | 0 <= i < |parts| ensures ',' !in parts[i] {
      var level := IntString(levels[i]);
      assert parts[i] == species[i] + ":" + level;
    }
    SplitJoin(parts, ',');
  }
}
