/**
 * `TreeColorSet`: a colour set is one set of parameter values per parameter dimension.
 * A Guava `RangeSet<Double>` is modelled by the finite set of parameter values it holds;
 * an interval handed over on the wire denotes the values of a finite universe `u` inside it.
 */
module TreeColorSet {
  import opened Wrappers

  type ColorSet = seq<set<real>>

  /** `createEmpty(dimensions)`. */
  function CreateEmpty(dims: nat): (r: ColorSet)
    ensures |r| == dims
    ensures forall i | 0 <= i < dims :: r[i] == {}
  {
    seq(dims, _ => {})
  }

  /** `union`: each of the receiver's dimensions absorbs the argument's dimension. */
  function Union(a: ColorSet, b: ColorSet): (r: ColorSet)
    requires |b| >= |a|
    ensures |r| == |a|
    ensures forall i | 0 <= i < |a| :: a[i] <= r[i] && b[i] <= r[i]
    ensures forall i, x | 0 <= i < |a| && x in r[i] :: x in a[i] || x in b[i]
  {
    seq(|a|, i requires 0 <= i < |a| => a[i] + b[i])
  }

  /** `intersect`, computed as in the source by removing `a - b` from `a`. */
  function Intersect(a: ColorSet, b: ColorSet): (r: ColorSet)
    requires |b| >= |a|
    ensures |r| == |a|
    ensures forall i | 0 <= i < |a| :: r[i] == a[i] * b[i]
  {
    seq(|a|, i requires 0 <= i < |a| => a[i] - (a[i] - b[i]))
  }

  /** `subtract`. */
  function Subtract(a: ColorSet, b: ColorSet): (r: ColorSet)
    requires |b| >= |a|
    ensures |r| == |a|
    ensures forall i | 0 <= i < |a| :: r[i] <= a[i] && r[i] !! b[i]
    ensures forall i, x | 0 <= i < |a| && x in a[i] && x !in b[i] :: x in r[i]
  {
    seq(|a|, i requires 0 <= i < |a| => a[i] - b[i])
  }

  /**
   * The in-place operations walk the receiver's dimensions and read the argument's
   * dimension of the same index: a narrower argument throws `IndexOutOfBoundsException`,
   * and dimensions the argument has beyond the receiver's are never read.
   */
  function TryUnion(a: ColorSet, b: ColorSet): (r: Result<ColorSet>)
    ensures r.Err? <==> |b| < |a|
    ensures r.Err? ==> r.error == IndexOutOfBounds
    ensures r.Ok? ==> |r.value| == |a| && forall i | 0 <= i < |a| :: r.value[i] == a[i] + b[i]
  {
    if |b| < |a| then Err(IndexOutOfBounds) else Ok(Union(a, b))
  }

  function TryIntersect(a: ColorSet, b: ColorSet): (r: Result<ColorSet>)
    ensures r.Err? <==> |b| < |a|
    ensures r.Err? ==> r.error == IndexOutOfBounds
    ensures r.Ok? ==> |r.value| == |a| && forall i | 0 <= i < |a| :: r.value[i] == a[i] * b[i]
  {
    if |b| < |a| then Err(IndexOutOfBounds) else Ok(Intersect(a, b))
  }

  function TrySubtract(a: ColorSet, b: ColorSet): (r: Result<ColorSet>)
    ensures r.Err? <==> |b| < |a|
    ensures r.Err? ==> r.error == IndexOutOfBounds
    ensures r.Ok? ==> |r.value| == |a| && forall i | 0 <= i < |a| :: r.value[i] == a[i] - b[i]
  {
    if |b| < |a| then Err(IndexOutOfBounds) else Ok(Subtract(a, b))
  }

  /** The argument's surplus dimensions do not matter: only its first `|a|` are read. */
  lemma SurplusIgnored(a: ColorSet, b: ColorSet)
    requires |b| >= |a|
    ensures Union(a, b) == Union(a, b[..|a|])
    ensures Intersect(a, b) == Intersect(a, b[..|a|])
    ensures Subtract(a, b) == Subtract(a, b[..|a|])
    ensures Encloses(a, b) <==> Encloses(a, b[..|a|])
  {
  }

  /** `isEmpty`: true as soon as one dimension is empty. */
  predicate IsEmpty(a: ColorSet)
  {
    exists i | 0 <= i < |a| :: a[i] == {}
  }

  /** `encloses`: every receiver dimension contains the argument's dimension. */
  predicate Encloses(a: ColorSet, b: ColorSet)
    requires |b| >= |a|
  {
    forall i | 0 <= i < |a| :: b[i] <= a[i]
  }

  /**
   * `encloses` on any argument: it returns `false` at the first dimension that is not
   * enclosed, so a narrower argument throws only when all of its dimensions are enclosed.
   */
  function TryEncloses(a: ColorSet, b: ColorSet): (r: Result<bool>)
    ensures r.Err? <==> |b| < |a| && forall i | 0 <= i < |b| :: b[i] <= a[i]
    ensures r.Err? ==> r.error == IndexOutOfBounds
    ensures r.Ok? ==> (r.value <==> |b| >= |a| && forall i | 0 <= i < |a| :: b[i] <= a[i])
  {
    EnclosesFrom(a, b, 0)
  }

  function EnclosesFrom(a: ColorSet, b: ColorSet, i: nat): (r: Result<bool>)
    requires i <= |a| && i <= |b|
    decreases |a| - i
    ensures r.Err? <==> |b| < |a| && forall j | i <= j < |b| :: b[j] <= a[j]
    ensures r.Err? ==> r.error == IndexOutOfBounds
    ensures r.Ok? ==> (r.value <==> |b| >= |a| && forall j | i <= j < |a| :: b[j] <= a[j])
  {
    if i == |a| then Ok(true)
    else if i >= |b| then Err(IndexOutOfBounds)
    else if !(b[i] <= a[i]) then Ok(false)
    else EnclosesFrom(a, b, i + 1)
  }

  /** A parameter valuation lies in a colour set when each coordinate lies in its dimension. */
  ghost predicate InColors(x: seq<real>, a: ColorSet)
  {
    |x| == |a| && forall i | 0 <= i < |a| :: x[i] in a[i]
  }

  ghost function Pick(s: set<real>): real
    requires s != {}
  {
    EmptyOrInhabited(s);
    var x :| x in s; x
  }

  lemma EmptyOrInhabited(s: set<real>)
    ensures s == {} || exists x :: x in s
  {
    if !(exists x :: x in s) {
      assert s == {};
    }
  }

  /** `isEmpty` holds exactly when no valuation lies in the set, so a 0-dimensional set is never empty. */
  lemma IsEmptyMeansNoValuation(a: ColorSet)
    ensures IsEmpty(a) <==> !exists x :: InColors(x, a)
  {
    if !IsEmpty(a) {
      var x := seq(|a|, i requires 0 <= i < |a| => Pick(a[i]));
      assert InColors(x, a);
    } else {
      var i :| 0 <= i < |a| && a[i] == {};
      assert forall x: seq<real> :: |x| == |a| ==> x[i] !in a[i];
    }
  }

  lemma CreateEmptyIsEmpty(dims: nat)
    ensures IsEmpty(CreateEmpty(dims)) <==> dims > 0
  {
    if dims > 0 {
      assert CreateEmpty(dims)[0] == {};
    }
  }

  /** Per-dimension intersection is exactly intersection of the valuations. */
  lemma IntersectValuations(a: ColorSet, b: ColorSet, x: seq<real>)
    requires |a| == |b|
    ensures InColors(x, Intersect(a, b)) <==> InColors(x, a) && InColors(x, b)
  {
  }

  /** Per-dimension union over-approximates the union of the valuations. */
  lemma UnionValuations(a: ColorSet, b: ColorSet, x: seq<real>)
    requires |a| == |b|
    ensures InColors(x, a) || InColors(x, b) ==> InColors(x, Union(a, b))
  {
  }

  /** Per-dimension subtraction under-approximates the difference of the valuations. */
  lemma SubtractValuations(a: ColorSet, b: ColorSet, x: seq<real>)
    requires |a| == |b| > 0
    ensures InColors(x, Subtract(a, b)) ==> InColors(x, a) && !InColors(x, b)
  {
    if InColors(x, Subtract(a, b)) {
      assert x[0] in a[0] - b[0];
    }
  }

  /** `encloses` implies inclusion of the valuations, and is exactly "union adds nothing". */
  lemma EnclosesMeansUnionUnchanged(a: ColorSet, b: ColorSet)
    requires |a| == |b|
    ensures Encloses(a, b) <==> Union(a, b) == a
    ensures Encloses(a, b) ==> forall x :: InColors(x, b) ==> InColors(x, a)
  {
    if Union(a, b) == a {
      forall i | 0 <= i < |a| ensures b[i] <= a[i] {
        assert Union(a, b)[i] == a[i] + b[i];
      }
    }
    if Encloses(a, b) {
      assert forall i | 0 <= i < |a| :: Union(a, b)[i] == a[i];
    }
  }

  lemma UnionEncloses(a: ColorSet, b: ColorSet)
    requires |a| == |b|
    ensures Encloses(Union(a, b), a) && Encloses(Union(a, b), b)
  {
  }

  // ---------------------------------------------------------------- intervals

  datatype Bound = Unbounded | Open(v: real) | Closed(v: real)

  /** A Guava `Range<Double>`. */
  datatype Range = Range(lower: Bound, upper: Bound)
  {
    predicate HasLowerBound() { !lower.Unbounded? }
    predicate HasUpperBound() { !upper.Unbounded? }

    predicate Contains(x: real)
    {
      (match lower
       case Unbounded => true
       case Open(v) => v < x
       case Closed(v) => v <= x) &&
      (match upper
       case Unbounded => true
       case Open(v) => x < v
       case Closed(v) => x <= v)
    }
  }

  function ClosedRange(lo: real, hi: real): Range { Range(Closed(lo), Closed(hi)) }
  function ClosedOpenRange(lo: real, hi: real): Range { Range(Closed(lo), Open(hi)) }
  function OpenRange(lo: real, hi: real): Range { Range(Open(lo), Open(hi)) }

  /** The values of the universe `u` that a range holds. */
  function Denote(u: set<real>, r: Range): set<real>
  {
    set x | x in u && r.Contains(x)
  }

  // ---------------------------------------------------------------- wire buffer

  /** Arithmetic sum, accumulated from the front as the source's loops do. */
  function Sum(s: seq<int>): int
  {
    if |s| == 0 then 0 else Sum(s[..|s| - 1]) + s[|s| - 1]
  }

  lemma SumSnoc(s: seq<int>, k: nat)
    requires k < |s|
    ensures Sum(s[..k + 1]) == Sum(s[..k]) + s[k]
  {
    assert s[..k + 1][..k] == s[..k];
  }

  predicate NonNegative(s: seq<int>)
  {
    forall j | 0 <= j < |s| :: s[j] >= 0
  }

  lemma {:induction false} SumPrefixBound(s: seq<int>, k: nat)
    requires NonNegative(s) && k <= |s|
    ensures 0 <= Sum(s[..k]) <= Sum(s)
    decreases |s| - k
  {
    if k == |s| {
      assert s[..k] == s;
      SumNonNegative(s);
    } else {
      SumSnoc(s, k);
      SumPrefixBound(s, k + 1);
      assert NonNegative(s[..k]);
      SumNonNegative(s[..k]);
    }
  }

  lemma {:induction false} SumNonNegative(s: seq<int>)
    requires NonNegative(s)
    ensures Sum(s) >= 0
    decreases |s|
  {
    if |s| > 0 {
      SumNonNegative(s[..|s| - 1]);
    }
  }

  /** Offset of segment `j` in the data buffer: the lengths before it. */
  function Offset(lengths: seq<int>, j: nat): int
    requires j <= |lengths|
  {
    Sum(lengths[..j])
  }

  /** Every length field is a non-negative even number: two endpoints per range. */
  predicate WellFormedLengths(lengths: seq<int>)
  {
    forall j | 0 <= j < |lengths| :: lengths[j] >= 0 && lengths[j] % 2 == 0
  }

  /** `x` lies in one of the open intervals `(data[k], data[k+1])`, `k = start, start+2, ...`. */
  predicate InSomePair(x: real, data: seq<real>, start: int, len: int)
    decreases len
  {
    len >= 2 && 0 <= start && start + 1 < |data| &&
    ((data[start] < x < data[start + 1]) || InSomePair(x, data, start + 2, len - 2))
  }

  /** Each pair is a valid open interval: `Range.open(a, b)` rejects `a >= b`. */
  predicate IncreasingPairs(data: seq<real>, start: int, len: int)
    decreases len
  {
    len < 2 || (0 <= start && start + 1 < |data| && data[start] < data[start + 1] &&
                IncreasingPairs(data, start + 2, len - 2))
  }

  lemma {:induction false} InSomePairSnoc(x: real, data: seq<real>, start: nat, len: nat)
    requires start + len + 2 <= |data| && len % 2 == 0
    ensures InSomePair(x, data, start, len + 2) <==>
            InSomePair(x, data, start, len) || data[start + len] < x < data[start + len + 1]
    decreases len
  {
    if len > 0 {
      InSomePairSnoc(x, data, start + 2, len - 2);
    }
  }

  /** The values inside the first `len + 2` pairs: those inside the first `len`, and those of the next range. */
  lemma PairsStep(u: set<real>, data: seq<real>, start: nat, len: nat)
    requires start + len + 2 <= |data| && len % 2 == 0
    ensures (set x | x in u && InSomePair(x, data, start, len)) + Denote(u, OpenRange(data[start + len], data[start + len + 1]))
            == set x | x in u && InSomePair(x, data, start, len + 2)
  {
    forall x | x in u
      ensures InSomePair(x, data, start, len + 2) <==>
              InSomePair(x, data, start, len) || OpenRange(data[start + len], data[start + len + 1]).Contains(x)
    {
      InSomePairSnoc(x, data, start, len);
    }
  }

  lemma {:induction false} IncreasingPairsSnoc(data: seq<real>, start: nat, len: nat)
    requires start + len + 2 <= |data| && len % 2 == 0
    ensures IncreasingPairs(data, start, len + 2) <==>
            IncreasingPairs(data, start, len) && data[start + len] < data[start + len + 1]
    decreases len
  {
    if len > 0 {
      IncreasingPairsSnoc(data, start + 2, len - 2);
    }
  }

  /** Dimension `j` of the set a buffer describes. */
  function BufferDimension(u: set<real>, lengths: seq<int>, data: seq<real>, j: nat): set<real>
    requires WellFormedLengths(lengths) && Sum(lengths) <= |data| && j < |lengths|
  {
    set x | x in u && InSomePair(x, data, Offset(lengths, j), lengths[j])
  }

  /** Every segment of the buffer is a list of valid open intervals. */
  predicate BufferIncreasing(lengths: seq<int>, data: seq<real>)
    requires WellFormedLengths(lengths) && Sum(lengths) <= |data|
  {
    forall j | 0 <= j < |lengths| :: IncreasingPairs(data, Offset(lengths, j), lengths[j])
  }

  lemma SegmentFits(lengths: seq<int>, data: seq<real>, j: nat)
    requires WellFormedLengths(lengths) && Sum(lengths) <= |data| && j < |lengths|
    ensures 0 <= Offset(lengths, j) && Offset(lengths, j) + lengths[j] <= |data|
  {
    SumSnoc(lengths, j);
    SumPrefixBound(lengths, j + 1);
    SumPrefixBound(lengths, j);
  }

  /**
   * `createFromBuffer(lengths, data)`: dimension `j` is the union of the open intervals
   * `(data[k], data[k+1])` of its segment; segments follow each other as `lengths` says.
   * `Range.open` throws `IllegalArgumentException` on a pair that is not increasing.
   */
  method CreateFromBuffer(u: set<real>, lengths: seq<int>, data: seq<real>) returns (r: Result<ColorSet>)
    requires WellFormedLengths(lengths) && Sum(lengths) <= |data|
    ensures r.Ok? <==> BufferIncreasing(lengths, data)
    ensures r.Err? ==> r.error == IllegalArgument
    ensures r.Ok? ==> |r.value| == |lengths|
    ensures r.Ok? ==> forall j | 0 <= j < |lengths| :: r.value[j] == BufferDimension(u, lengths, data, j)
  {
    var dims: seq<set<real>> := [];
    var total := 0;
    for j := 0 to |lengths|
      invariant total == Offset(lengths, j)
      invariant |dims| == j
      invariant forall jj | 0 <= jj < j :: dims[jj] == BufferDimension(u, lengths, data, jj)
      invariant forall jj | 0 <= jj < j :: IncreasingPairs(data, Offset(lengths, jj), lengths[jj])
    {
      SegmentFits(lengths, data, j);
      var ranges := DecodeSegment(u, data, total, lengths[j]);
      if ranges.Err? {
        return Err(IllegalArgument);
      }
      dims := dims + [ranges.value];
      SumSnoc(lengths, j);
      total := total + lengths[j];
    }
    r := Ok(dims);
  }

  /** One segment of the buffer: the union of its open intervals, failing on a pair that is not increasing. */
  method DecodeSegment(u: set<real>, data: seq<real>, start: nat, len: int) returns (r: Result<set<real>>)
    requires 0 <= len && len % 2 == 0 && start + len <= |data|
    ensures r.Ok? <==> IncreasingPairs(data, start, len)
    ensures r.Err? ==> r.error == IllegalArgument
    ensures r.Ok? ==> r.value == set x | x in u && InSomePair(x, data, start, len)
  {
    var ranges: set<real> := {};
    var i := 0;
    while i < len
      invariant 0 <= i <= len && i % 2 == 0
      invariant ranges == set x | x in u && InSomePair(x, data, start, i)
      invariant IncreasingPairs(data, start, i)
    {
      IncreasingPairsSnoc(data, start, i);
      if data[start + i] >= data[start + i + 1] {
        if IncreasingPairs(data, start, len) {
          PairWithin(data, start, len, i);
        }
        return Err(IllegalArgument);
      }
      PairsStep(u, data, start, i);
      ranges := ranges + Denote(u, OpenRange(data[start + i], data[start + i + 1]));
      i := i + 2;
    }
    r := Ok(ranges);
  }

  /**
   * The pairs of one segment read in order from an array of any length: the first pair
   * that lies past the end throws `IndexOutOfBoundsException`, the first that is not
   * increasing throws `IllegalArgumentException`.
   */
  function ReadPairs(u: set<real>, data: seq<real>, start: nat, len: nat): (r: Result<set<real>>)
    requires len % 2 == 0
    decreases len
    ensures r.Err? ==> r.error == IndexOutOfBounds || r.error == IllegalArgument
    ensures start + len <= |data| ==> (r.Ok? <==> IncreasingPairs(data, start, len))
    ensures start + len <= |data| && r.Ok? ==> r.value == set x | x in u && InSomePair(x, data, start, len)
    ensures start + len <= |data| && r.Err? ==> r.error == IllegalArgument
  {
    if len == 0 then Ok({})
    else if start + 1 >= |data| then Err(IndexOutOfBounds)
    else if data[start] >= data[start + 1] then Err(IllegalArgument)
    else
      var rest :- ReadPairs(u, data, start + 2, len - 2);
      Ok(Denote(u, OpenRange(data[start], data[start + 1])) + rest)
  }

  /** The segments from dimension `j` on, the first starting at `total`. */
  function ReadBuffer(u: set<real>, lengths: seq<int>, data: seq<real>, j: nat, total: nat): (r: Result<ColorSet>)
    requires WellFormedLengths(lengths) && j <= |lengths|
    decreases |lengths| - j
    ensures r.Err? ==> r.error == IndexOutOfBounds || r.error == IllegalArgument
    ensures r.Ok? ==> |r.value| == |lengths| - j
  {
    if j == |lengths| then Ok([])
    else
      var seg :- ReadPairs(u, data, total, lengths[j]);
      var rest :- ReadBuffer(u, lengths, data, j + 1, total + lengths[j]);
      Ok([seg] + rest)
  }

  /**
   * `createFromBuffer(lengths, data)` on an array of any length. On an array that holds
   * every segment it agrees with `CreateFromBuffer` (see `FromBufferAgrees`).
   */
  function FromBuffer(u: set<real>, lengths: seq<int>, data: seq<real>): (r: Result<ColorSet>)
    requires WellFormedLengths(lengths)
    ensures r.Err? ==> r.error == IndexOutOfBounds || r.error == IllegalArgument
    ensures r.Ok? ==> |r.value| == |lengths|
  {
    ReadBuffer(u, lengths, data, 0, 0)
  }

  /** An array that holds every segment decodes as the buffer describes, failing only on a pair that is not increasing. */
  lemma FromBufferAgrees(u: set<real>, lengths: seq<int>, data: seq<real>)
    requires WellFormedLengths(lengths) && Sum(lengths) <= |data|
    ensures FromBuffer(u, lengths, data).Ok? <==> BufferIncreasing(lengths, data)
    ensures FromBuffer(u, lengths, data).Ok? ==>
      forall j | 0 <= j < |lengths| :: FromBuffer(u, lengths, data).value[j] == BufferDimension(u, lengths, data, j)
    ensures FromBuffer(u, lengths, data).Err? ==> FromBuffer(u, lengths, data).error == IllegalArgument
  {
    assert lengths[..0] == [];
    ReadBufferAgrees(u, lengths, data, 0);
    ReadBufferFailure(u, lengths, data, 0);
  }

  lemma {:induction false} ReadBufferFailure(u: set<real>, lengths: seq<int>, data: seq<real>, j: nat)
    requires WellFormedLengths(lengths) && Sum(lengths) <= |data| && j <= |lengths|
    decreases |lengths| - j
    ensures 0 <= Offset(lengths, j)
    ensures ReadBuffer(u, lengths, data, j, Offset(lengths, j)).Err? ==>
      ReadBuffer(u, lengths, data, j, Offset(lengths, j)).error == IllegalArgument
  {
    SumPrefixBound(lengths, j);
    if j < |lengths| {
      SegmentFits(lengths, data, j);
      SumSnoc(lengths, j);
      ReadBufferFailure(u, lengths, data, j + 1);
    }
  }

  lemma {:induction false} ReadBufferAgrees(u: set<real>, lengths: seq<int>, data: seq<real>, j: nat)
    requires WellFormedLengths(lengths) && Sum(lengths) <= |data| && j <= |lengths|
    decreases |lengths| - j
    ensures 0 <= Offset(lengths, j)
    ensures var r := ReadBuffer(u, lengths, data, j, Offset(lengths, j));
      (r.Ok? <==> forall k | j <= k < |lengths| :: IncreasingPairs(data, Offset(lengths, k), lengths[k])) &&
      (r.Ok? ==> forall k | j <= k < |lengths| :: r.value[k - j] == BufferDimension(u, lengths, data, k))
  {
    SumPrefixBound(lengths, j);
    if j < |lengths| {
      var total := Offset(lengths, j);
      SegmentFits(lengths, data, j);
      SumSnoc(lengths, j);
      assert Offset(lengths, j + 1) == total + lengths[j];
      ReadBufferAgrees(u, lengths, data, j + 1);
    }
  }

  lemma {:induction false} PairWithin(data: seq<real>, start: nat, len: nat, i: nat)
    requires start + len <= |data| && len % 2 == 0 && i % 2 == 0 && i + 2 <= len
    requires IncreasingPairs(data, start, len)
    ensures data[start + i] < data[start + i + 1]
    decreases len
  {
    if i > 0 {
      PairWithin(data, start + 2, len - 2, i - 2);
    }
  }
}
