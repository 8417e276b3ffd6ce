/**
 * `StateSpacePartitioner`: the first variable's range is cut into `size` consecutive
 * slices, one per process rank; a node belongs to the rank whose slice holds its first
 * coordinate.
 */
module Partitioner {
  import opened Wrappers
  import opened JavaInt
  import opened TreeColorSet
  import opened Models

  datatype Partitioner = Partitioner(size: nat, ranges: seq<Range>)

  function LowerEndpoint(r: Range): real
    requires r.HasLowerBound()
  {
    r.lower.v
  }

  function UpperEndpoint(r: Range): real
    requires r.HasUpperBound()
  {
    r.upper.v
  }

  /** A bounded Guava range: its lower endpoint does not exceed its upper one. */
  predicate ValidBounded(r: Range)
  {
    r.HasLowerBound() && r.HasUpperBound() && LowerEndpoint(r) <= UpperEndpoint(r)
  }

  /** The slice width: the range's length cast to `int`, then divided by `size`. */
  function Width(lo: real, hi: real, size: nat): int
    requires size >= 1
  {
    Div(Trunc(hi - lo), size)
  }

  /** Slice `i`: closed-open for every rank but the last, whose slice is closed up to the upper endpoint. */
  function Slice(lo: real, hi: real, w: int, size: nat, i: nat): Range
  {
    if i == size - 1 then ClosedRange(lo + (w * i) as real, hi)
    else ClosedOpenRange(lo + (w * i) as real, lo + (w * (i + 1)) as real)
  }

  /**
   * The constructor. With no variable the source's `get(0)` fails; an unbounded first
   * range is rejected.
   */
  function Create(m: Model, size: nat): (r: Result<Partitioner>)
    requires size >= 1
    ensures |m.variableRange| == 0 ==> r == Err(IndexOutOfBounds)
    ensures |m.variableRange| > 0 ==>
      (r.Ok? <==> m.variableRange[0].HasLowerBound() && m.variableRange[0].HasUpperBound())
    ensures r.Err? ==> r.error != IllegalState
    ensures r.Ok? ==> r.value.size == size && |r.value.ranges| == size
  {
    if |m.variableRange| == 0 then Err(IndexOutOfBounds)
    else
      var first := m.variableRange[0];
      if !first.HasLowerBound() || !first.HasUpperBound() then Err(IllegalArgument)
      else
        var lo, hi := LowerEndpoint(first), UpperEndpoint(first);
        var w := Width(lo, hi, size);
        Ok(Partitioner(size, seq(size, i requires 0 <= i < size => Slice(lo, hi, w, size, i))))
  }

  /** First slice, from index `i` on, that holds `x`. */
  function FindSlice(ranges: seq<Range>, x: real, i: nat): (r: Result<nat>)
    requires i <= |ranges|
    decreases |ranges| - i
    ensures r.Ok? ==> i <= r.value < |ranges| && ranges[r.value].Contains(x)
    ensures r.Ok? ==> forall j | i <= j < r.value :: !ranges[j].Contains(x)
    ensures r.Err? <==> forall j | i <= j < |ranges| :: !ranges[j].Contains(x)
    ensures r.Err? ==> r.error == IllegalState
  {
    if i == |ranges| then Err(IllegalState)
    else if ranges[i].Contains(x) then Ok(i)
    else FindSlice(ranges, x, i + 1)
  }

  /** `getGraphId`: the rank owning a node, decided by its first coordinate alone. */
  function GetGraphId(p: Partitioner, coords: seq<int>): (r: Result<nat>)
    ensures |coords| == 0 ==> r == Err(IndexOutOfBounds)
    ensures |coords| > 0 && r.Ok? ==> r.value < |p.ranges| && p.ranges[r.value].Contains(coords[0] as real)
    ensures |coords| > 0 ==>
      (r.Err? <==> forall j | 0 <= j < |p.ranges| :: !p.ranges[j].Contains(coords[0] as real))
    ensures |coords| > 0 && r.Err? ==> r.error == IllegalState
  {
    if |coords| == 0 then Err(IndexOutOfBounds)
    else FindSlice(p.ranges, coords[0] as real, 0)
  }

  /** `getMyLimit`: the own slice, then the remaining variable ranges in order. */
  function GetMyLimit(p: Partitioner, rank: nat, variableRange: seq<Range>): (r: seq<Range>)
    requires rank < |p.ranges|
    ensures |r| == if |variableRange| == 0 then 1 else |variableRange|
    ensures r[0] == p.ranges[rank]
    ensures forall i | 1 <= i < |variableRange| :: r[i] == variableRange[i]
  {
    [p.ranges[rank]] + if |variableRange| == 0 then [] else variableRange[1..]
  }

  // ---------------------------------------------------------------- slicing properties

  /** A partitioner built from a valid bounded first range. */
  predicate Built(p: Partitioner, m: Model)
  {
    p.size >= 1 && |m.variableRange| > 0 && ValidBounded(m.variableRange[0]) &&
    Create(m, p.size) == Ok(p)
  }

  function Lo(m: Model): real
    requires |m.variableRange| > 0 && ValidBounded(m.variableRange[0])
  {
    LowerEndpoint(m.variableRange[0])
  }

  function Hi(m: Model): real
    requires |m.variableRange| > 0 && ValidBounded(m.variableRange[0])
  {
    UpperEndpoint(m.variableRange[0])
  }

  lemma WidthBounds(lo: real, hi: real, size: nat)
    requires size >= 1 && lo <= hi
    ensures Width(lo, hi, size) >= 0
    ensures (Width(lo, hi, size) * size) as real <= hi - lo
  {
    var t := Trunc(hi - lo);
    assert t >= 0;
    var w := t / size;
    assert w * size <= t;
  }

  /**
   * The source multiplies the width by a rank index in `int` arithmetic; for every index up
   * to `size` the product stays inside the `int` range, so no wrap-around occurs.
   */
  lemma SliceOffsetsFit(lo: real, hi: real, size: nat, k: nat)
    requires size >= 1 && lo <= hi && k <= size
    ensures IsInt32(Width(lo, hi, size) * k)
  {
    WidthBounds(lo, hi, size);
    var w := Width(lo, hi, size);
    MulMono(w, k, size);
    assert w * size <= Trunc(hi - lo) by {
      assert w == Trunc(hi - lo) / size;
    }
  }

  lemma MulMono(w: int, a: int, b: int)
    requires w >= 0 && a <= b
    ensures w * a <= w * b
  {
    assert w * b - w * a == w * (b - a);
  }

  /** Slices of different ranks never share a value. */
  lemma SlicesDisjoint(p: Partitioner, m: Model, i: nat, j: nat, x: real)
    requires Built(p, m)
    requires i < j < p.size
    ensures !(p.ranges[i].Contains(x) && p.ranges[j].Contains(x))
  {
    var lo, hi, n := Lo(m), Hi(m), p.size;
    var w := Width(lo, hi, n);
    WidthBounds(lo, hi, n);
    MulMono(w, i + 1, j);
    assert p.ranges[i] == Slice(lo, hi, w, n, i);
    assert p.ranges[j] == Slice(lo, hi, w, n, j);
  }

  /** Every value of the first range lies in some slice at or after `k`, given it is past slice `k`'s start. */
  lemma {:induction false} CoveredFrom(p: Partitioner, m: Model, x: real, k: nat)
    requires Built(p, m)
    requires k < p.size
    requires Lo(m) + (Width(Lo(m), Hi(m), p.size) * k) as real <= x <= Hi(m)
    ensures exists j | k <= j < p.size :: p.ranges[j].Contains(x)
    decreases p.size - k
  {
    var lo, hi, n := Lo(m), Hi(m), p.size;
    var w := Width(lo, hi, n);
    assert p.ranges[k] == Slice(lo, hi, w, n, k);
    if k == n - 1 {
      assert p.ranges[k].Contains(x);
    } else if x < lo + (w * (k + 1)) as real {
      assert p.ranges[k].Contains(x);
    } else {
      CoveredFrom(p, m, x, k + 1);
    }
  }

  /** The slices cover the first variable's whole range, and each value has exactly one owner. */
  lemma SlicesCover(p: Partitioner, m: Model, x: real)
    requires Built(p, m)
    requires Lo(m) <= x <= Hi(m)
    ensures exists i | 0 <= i < p.size :: p.ranges[i].Contains(x)
  {
    assert Width(Lo(m), Hi(m), p.size) * 0 == 0;
    CoveredFrom(p, m, x, 0);
  }

  /** No slice reaches outside the first variable's range. */
  lemma SlicesInside(p: Partitioner, m: Model, i: nat, x: real)
    requires Built(p, m)
    requires i < p.size
    requires p.ranges[i].Contains(x)
    ensures Lo(m) <= x <= Hi(m)
  {
    var lo, hi, n := Lo(m), Hi(m), p.size;
    var w := Width(lo, hi, n);
    WidthBounds(lo, hi, n);
    assert p.ranges[i] == Slice(lo, hi, w, n, i);
    MulMono(w, 0, i);
    MulMono(w, i + 1, n);
  }

  /**
   * `getGraphId` returns a rank exactly for coordinates inside the first variable's range,
   * and the rank is the unique one whose slice holds the coordinate.
   */
  lemma GetGraphIdOwner(p: Partitioner, m: Model, coords: seq<int>)
    requires Built(p, m)
    requires |coords| > 0
    ensures GetGraphId(p, coords).Ok? <==> Lo(m) <= coords[0] as real <= Hi(m)
    ensures forall i | 0 <= i < p.size ::
      GetGraphId(p, coords) == Ok(i) <==> p.ranges[i].Contains(coords[0] as real)
  {
    var x := coords[0] as real;
    if Lo(m) <= x <= Hi(m) {
      SlicesCover(p, m, x);
    }
    if GetGraphId(p, coords).Ok? {
      SlicesInside(p, m, GetGraphId(p, coords).value, x);
    }
    forall i | 0 <= i < p.size && p.ranges[i].Contains(x)
      ensures GetGraphId(p, coords) == Ok(i)
    {
      var r := GetGraphId(p, coords).value;
      if r < i {
        SlicesDisjoint(p, m, r, i, x);
      }
    }
  }

  /** When there are more ranks than units of range, every slice but the last is empty. */
  lemma ZeroWidthLastOwner(p: Partitioner, m: Model, coords: seq<int>)
    requires Built(p, m)
    requires |coords| > 0 && Lo(m) <= coords[0] as real <= Hi(m)
    requires Width(Lo(m), Hi(m), p.size) == 0
    ensures GetGraphId(p, coords) == Ok(p.size - 1)
  {
    var lo, hi, n := Lo(m), Hi(m), p.size;
    assert p.ranges[n - 1] == Slice(lo, hi, 0, n, n - 1);
    GetGraphIdOwner(p, m, coords);
  }

  /** The first range of `getMyLimit` holds exactly the coordinates the rank owns. */
  lemma GetMyLimitOwned(p: Partitioner, m: Model, rank: nat, coords: seq<int>)
    requires Built(p, m)
    requires rank < p.size && |coords| > 0
    ensures GetMyLimit(p, rank, m.variableRange)[0].Contains(coords[0] as real) <==>
      GetGraphId(p, coords) == Ok(rank)
  {
    GetGraphIdOwner(p, m, coords);
  }
}
