/**
 * `NodeFactory`: the per-rank cache of nodes and the source of each proposition's
 * initial nodes. A Java `HashMap` is iterated in an order the program does not choose;
 * the cache records it as `order`, the sequence its keys are enumerated in.
 */
module NodeFactory {
  import opened JavaInt
  import opened TreeColorSet
  import opened Formulas
  import opened DistNode

  // ---------------------------------------------------------------- the cache as written

  /** The source's cache: nodes keyed by `Arrays.hashCode` of their coordinates. */
  datatype HashFactory = HashFactory(graphId: int, hashCache: map<int, Node>)

  /** `getNode` as written: whatever node already sits under the hash is returned. */
  function GetNodeByHash(fac: HashFactory, coords: Coords): (r: (HashFactory, Node))
    ensures r.0.hashCache.Keys == fac.hashCache.Keys + {ArraysHashCode(coords)}
    ensures r.0.hashCache[ArraysHashCode(coords)] == r.1
    ensures ArraysHashCode(coords) !in fac.hashCache ==> r.1.coordinates == coords
    ensures ArraysHashCode(coords) in fac.hashCache ==> r.0 == fac
  {
    var hash := ArraysHashCode(coords);
    if hash !in fac.hashCache then
      var n := NewNode(coords, fac.graphId);
      (fac.(hashCache := fac.hashCache[hash := n]), n)
    else (fac, fac.hashCache[hash])
  }

  /** Counterexample: asking for `[1, 0]` after `[0, 31]` yields the node of `[0, 31]`. */
  lemma HashCacheReturnsWrongNode(graphId: int)
    ensures var first := GetNodeByHash(HashFactory(graphId, map[]), [0, 31]);
            GetNodeByHash(first.0, [1, 0]).1.coordinates == [0, 31]
  {
    ArraysHashCodeCollides();
  }

  // ---------------------------------------------------------------- the cache keyed by coordinates

  /**
   * The cache keyed by coordinates, as `Node.equals` intends. `revealed` holds the float
   * propositions already handed to the native initial-node search.
   */
  datatype Factory = Factory(graphId: int, cache: map<Coords, Node>, order: seq<Coords>, revealed: set<Formula>)

  /** `order` lists each cached key once, and each cached node carries its own key. */
  predicate ValidFactory(fac: Factory)
  {
    (forall i, j | 0 <= i < j < |fac.order| :: fac.order[i] != fac.order[j]) &&
    (forall c | c in fac.cache :: c in fac.order) &&
    (forall k | 0 <= k < |fac.order| :: fac.order[k] in fac.cache) &&
    (forall c | c in fac.cache :: fac.cache[c].coordinates == c && fac.cache[c].graphId == fac.graphId)
  }

  function EmptyFactory(graphId: int): (r: Factory)
    ensures ValidFactory(r) && r.cache == map[]
  {
    Factory(graphId, map[], [], {})
  }

  /** `getNode`: the cached node of these coordinates, created and cached on first request. */
  function GetNode(fac: Factory, coords: Coords): (r: (Factory, Node))
    requires ValidFactory(fac)
    ensures ValidFactory(r.0)
    ensures r.1.coordinates == coords && r.1.graphId == fac.graphId
    ensures coords in r.0.cache && r.0.cache[coords] == r.1
    ensures coords in fac.cache ==> r.0 == fac
    ensures coords !in fac.cache ==>
      r.1 == NewNode(coords, fac.graphId) && r.0.cache == fac.cache[coords := r.1] && r.0.order == fac.order + [coords]
    ensures r.0.revealed == fac.revealed && r.0.graphId == fac.graphId
  {
    if coords in fac.cache then (fac, fac.cache[coords])
    else
      var n := NewNode(coords, fac.graphId);
      (fac.(cache := fac.cache[coords := n], order := fac.order + [coords]), n)
  }

  /** Asking twice for one node returns the same node and leaves the cache as the first call did. */
  lemma GetNodeIdempotent(fac: Factory, coords: Coords)
    requires ValidFactory(fac)
    ensures GetNode(GetNode(fac, coords).0, coords) == GetNode(fac, coords)
  {
  }

  /** `getNode` applied to each coordinate list in turn, as the native edge and init searches do. */
  function RegisterAll(fac: Factory, coords: seq<Coords>): (r: Factory)
    requires ValidFactory(fac)
    decreases |coords|
    ensures ValidFactory(r)
    ensures forall c :: c in r.cache <==> c in fac.cache || c in coords
    ensures forall c | c in fac.cache :: r.cache[c] == fac.cache[c]
    ensures r.revealed == fac.revealed && r.graphId == fac.graphId
  {
    if |coords| == 0 then fac
    else RegisterAll(GetNode(fac, coords[0]).0, coords[1..])
  }

  function Keys(entries: seq<(Coords, ColorSet)>): (r: seq<Coords>)
    ensures |r| == |entries| && forall k | 0 <= k < |r| :: r[k] == entries[k].0
  {
    seq(|entries|, k requires 0 <= k < |entries| => entries[k].0)
  }

  /** No coordinate list appears twice: a map keyed by node. */
  predicate DistinctKeys(entries: seq<(Coords, ColorSet)>)
  {
    forall i, j | 0 <= i < j < |entries| :: entries[i].0 != entries[j].0
  }

  /** The cached nodes of `keys`, in order, whose colours for `f` are not empty. */
  function CachedValid(fac: Factory, keys: seq<Coords>, f: Formula, dims: nat): (r: seq<(Coords, ColorSet)>)
    requires forall k | 0 <= k < |keys| :: keys[k] in fac.cache
    ensures forall k | 0 <= k < |r| ::
      r[k].0 in keys && r[k].0 in fac.cache &&
      r[k].1 == GetValidColors(fac.cache[r[k].0], f, dims) && !IsEmpty(r[k].1)
  {
    if |keys| == 0 then []
    else
      var rest := CachedValid(fac, keys[1..], f, dims);
      var colors := GetValidColors(fac.cache[keys[0]], f, dims);
      if IsEmpty(colors) then rest else [(keys[0], colors)] + rest
  }

  /** The node cached under `c` has non-empty colours for `f`. */
  predicate ValidAt(fac: Factory, c: Coords, f: Formula, dims: nat)
  {
    c in fac.cache && !IsEmpty(GetValidColors(fac.cache[c], f, dims))
  }

  /** Every key of `keys` whose cached node has non-empty colours is answered. */
  lemma {:induction false} CachedValidComplete(fac: Factory, keys: seq<Coords>, f: Formula, dims: nat)
    requires forall k | 0 <= k < |keys| :: keys[k] in fac.cache
    ensures forall c | c in keys && ValidAt(fac, c, f, dims) :: c in Keys(CachedValid(fac, keys, f, dims))
  {
    if |keys| > 0 {
      CachedValidComplete(fac, keys[1..], f, dims);
      var rest := CachedValid(fac, keys[1..], f, dims);
      var r := CachedValid(fac, keys, f, dims);
      forall c | c in keys && ValidAt(fac, c, f, dims) ensures c in Keys(r) {
        if c == keys[0] {
          assert r[0].0 == c;
        } else {
          assert c in keys[1..];
          var k :| 0 <= k < |rest| && rest[k].0 == c;
          assert r[|r| - |rest| + k] == rest[k];
        }
      }
    }
  }

  /** Keys listed once are answered at most once. */
  lemma {:induction false} CachedValidDistinct(fac: Factory, keys: seq<Coords>, f: Formula, dims: nat)
    requires forall k | 0 <= k < |keys| :: keys[k] in fac.cache
    requires forall i, j | 0 <= i < j < |keys| :: keys[i] != keys[j]
    ensures DistinctKeys(CachedValid(fac, keys, f, dims))
  {
    if |keys| > 0 {
      CachedValidDistinct(fac, keys[1..], f, dims);
      var rest := CachedValid(fac, keys[1..], f, dims);
      assert keys[0] !in keys[1..];
      assert forall k | 0 <= k < |rest| :: rest[k].0 != keys[0];
    }
  }

  /** What the native initial-node search answers for a proposition; nothing when it knows none. */
  function NativeInit(init: map<Formula, seq<(Coords, ColorSet)>>, f: Formula): seq<(Coords, ColorSet)>
  {
    if f in init then init[f] else []
  }

  /**
   * `getAllValidNodes`. A float proposition not yet revealed is recorded as revealed and
   * answered by the native search, whose nodes are registered in the cache; anything else
   * is answered from the cache.
   */
  function GetAllValidNodes(fac: Factory, f: Formula, init: map<Formula, seq<(Coords, ColorSet)>>, dims: nat)
    : (r: (Factory, seq<(Coords, ColorSet)>))
    requires ValidFactory(fac)
    ensures ValidFactory(r.0) && r.0.graphId == fac.graphId
    ensures f.FloatProp? ==> r.0.revealed == fac.revealed + {f}
    ensures !f.FloatProp? ==> r.0.revealed == fac.revealed
    ensures f.FloatProp? && f !in fac.revealed ==>
      r.1 == NativeInit(init, f) && r.0 == RegisterAll(fac.(revealed := fac.revealed + {f}), Keys(NativeInit(init, f)))
    ensures !(f.FloatProp? && f !in fac.revealed) ==> r.0 == fac
    ensures !(f.FloatProp? && f !in fac.revealed) ==>
      (forall k | 0 <= k < |r.1| ::
        r.1[k].0 in fac.cache && r.1[k].1 == GetValidColors(fac.cache[r.1[k].0], f, dims) && !IsEmpty(r.1[k].1)) &&
      (forall c | ValidAt(fac, c, f, dims) :: c in Keys(r.1)) &&
      DistinctKeys(r.1)
    ensures forall k | 0 <= k < |r.1| :: r.1[k].0 in r.0.cache
  {
    if f.FloatProp? && f !in fac.revealed then
      var entries := NativeInit(init, f);
      var fac' := RegisterAll(fac.(revealed := fac.revealed + {f}), Keys(entries));
      assert forall k | 0 <= k < |entries| :: entries[k].0 in Keys(entries);
      (fac', entries)
    else
      CachedValidComplete(fac, fac.order, f, dims);
      CachedValidDistinct(fac, fac.order, f, dims);
      (fac, CachedValid(fac, fac.order, f, dims))
  }

  /** A float proposition reaches the native search at most once: the second request is served from the cache. */
  lemma RevealedOnce(fac: Factory, f: Formula, init: map<Formula, seq<(Coords, ColorSet)>>, dims: nat)
    requires ValidFactory(fac) && f.FloatProp?
    ensures var first := GetAllValidNodes(fac, f, init, dims).0;
            GetAllValidNodes(first, f, init, dims).0 == first &&
            GetAllValidNodes(first, f, init, dims).1 == CachedValid(first, first.order, f, dims)
  {
  }
}
