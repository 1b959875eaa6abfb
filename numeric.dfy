/** Python numeric conventions the texture code relies on, made explicit. */
module Numeric {

  datatype Option<T> = None | Some(value: T)

  /** Python's `random.uniform(a, b)`, which CPython computes as `a + (b - a) * random()`
      with `random()` in [0, 1). The unit draw `u` is the caller-supplied random value. */
  function Uniform(a: real, b: real, u: real): (x: real)
    requires 0.0 <= u < 1.0
    ensures a <= b ==> a <= x <= b
    ensures b <= a ==> b <= x <= a
    ensures a < b ==> x < b
  {
    var d := b - a;
    UnitScale(d, u);
    a + d * u
  }

  /** Scaling `d` by a unit draw keeps it between 0 and `d`, and short of `d` when `d > 0`. */
  lemma UnitScale(d: real, u: real)
    requires 0.0 <= u < 1.0
    ensures d >= 0.0 ==> 0.0 <= d * u <= d
    ensures d > 0.0 ==> d * u < d
    ensures d <= 0.0 ==> d <= d * u <= 0.0
  {
    assert d * u - d == d * (u - 1.0);
  }

  /** Python's `int(x)` and numpy's `astype("int")` on a float: truncation toward zero. */
  function Trunc(x: real): (n: int)
    ensures 0.0 <= x ==> n as real <= x < n as real + 1.0
    ensures x < 0.0 ==> n as real - 1.0 < x <= n as real
    ensures (n < 0) == (x <= -1.0)
  {
    if x >= 0.0 then x.Floor else -((-x).Floor)
  }

  function Min(a: int, b: int): int { if a <= b then a else b }

  function Max(a: int, b: int): int { if a >= b then a else b }
}
