/** Java's 32-bit `int` arithmetic and `java.util.Arrays.hashCode(int[])`. */
module JavaInt {

  const TWO_32: int := 0x1_0000_0000
  const MIN_INT: int := -0x8000_0000
  const MAX_INT: int := 0x7FFF_FFFF

  predicate IsInt32(x: int) { MIN_INT <= x <= MAX_INT }

  /** Two's-complement wrap-around of an unbounded integer into the `int` range. */
  function Wrap(x: int): (r: int)
    ensures IsInt32(r)
    ensures (r - x) % TWO_32 == 0
    ensures IsInt32(x) ==> r == x
  {
    (x - MIN_INT) % TWO_32 + MIN_INT
  }

  /** Java's integer `/`: the quotient is truncated toward zero. */
  function Div(a: int, b: int): (q: int)
    requires b != 0
    ensures a >= 0 && b > 0 ==> q == a / b
    ensures a < 0 && b > 0 ==> q == -((-a) / b)
  {
    if (a >= 0) == (b > 0) then (if a >= 0 then a / b else (-a) / (-b))
    else -((if a >= 0 then a else -a) / (if b > 0 then b else -b))
  }

  /** Rounding toward zero. */
  function TowardZero(x: real): (r: int)
    ensures x >= 0.0 ==> r as real <= x < r as real + 1.0
    ensures x < 0.0 ==> r as real - 1.0 < x <= r as real
  {
    if x >= 0.0 then x.Floor else -((-x).Floor)
  }

  /**
   * Java's `(int)` cast of a `double`: round toward zero, then saturate at the `int`
   * bounds (section 5.1.3 of the Java Language Specification).
   */
  function Trunc(x: real): (r: int)
    ensures IsInt32(r)
    ensures 0.0 <= x < MAX_INT as real + 1.0 ==> r as real <= x < r as real + 1.0
    ensures MIN_INT as real - 1.0 < x < 0.0 ==> r as real - 1.0 < x <= r as real
    ensures x >= MAX_INT as real + 1.0 ==> r == MAX_INT
    ensures x <= MIN_INT as real - 1.0 ==> r == MIN_INT
  {
    var t := TowardZero(x);
    if t > MAX_INT then MAX_INT else if t < MIN_INT then MIN_INT else t
  }

  /** `result = 31 * result + element`, starting from 1, every step wrapped to 32 bits. */
  function HashFrom(acc: int, a: seq<int>): int
    decreases |a|
  {
    if |a| == 0 then acc else HashFrom(Wrap(31 * acc + a[0]), a[1..])
  }

  /** `Arrays.hashCode(int[])`. */
  function ArraysHashCode(a: seq<int>): (r: int)
    ensures IsInt32(r)
    ensures |a| == 0 ==> r == 1
  {
    HashFromIsInt32(1, a);
    HashFrom(1, a)
  }

  /** The hash is an `int` whatever the array holds. */
  lemma {:induction false} HashFromIsInt32(acc: int, a: seq<int>)
    requires IsInt32(acc) || |a| > 0
    ensures IsInt32(HashFrom(acc, a))
    decreases |a|
  {
    if |a| > 0 {
      var next := Wrap(31 * acc + a[0]);
      if |a| > 1 {
        HashFromIsInt32(next, a[1..]);
      }
    }
  }

  /** Two distinct small arrays share a hash. */
  lemma ArraysHashCodeCollides()
    ensures ArraysHashCode([0, 31]) == ArraysHashCode([1, 0]) == 992
  {
  }
}
