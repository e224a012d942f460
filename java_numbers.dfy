/** The Java primitive arithmetic the service relies on, written out over
    Dafny's unbounded integers. */
module JavaNumbers {

  const MinInt: int := -0x8000_0000
  const MaxInt: int := 0x7fff_ffff

  /** `x` fits in a Java `int`. */
  predicate IsInt(x: int) {
    MinInt <= x <= MaxInt
  }

  /** `x + 1` on a Java `int`: the `int` congruent to `x + 1` modulo 2^32,
      so `MaxInt` wraps to `MinInt`. */
  function IntIncrement(x: int): (r: int)
    requires IsInt(x)
    ensures IsInt(r) && (r - (x + 1)) % 0x1_0000_0000 == 0
  {
    if x == MaxInt then MinInt else x + 1
  }

  /** `a / b` on a Java `long` with a positive divisor: the quotient is
      truncated toward zero, so the remainder `a - q * b` has the sign of
      the dividend (Dafny's `/` would round a negative quotient down instead). */
  function LongDivide(a: int, b: int): (q: int)
    requires b > 0
    ensures a >= 0 ==> 0 <= a - q * b < b
    ensures a < 0 ==> -b < a - q * b <= 0
  {
    if a >= 0 then a / b
    else
      var m := (-a) / b;
      assert -a == m * b + (-a) % b;
      -m
  }

  /** The quotient of a negative dividend is rounded toward zero, not down. */
  lemma LongDivideTruncates()
    ensures LongDivide(-1, 1000) == 0 && -1 / 1000 == -1
    ensures LongDivide(-1500, 1000) == -1 && -1500 / 1000 == -2
  {
  }
}
