/**
 * Java's numeric conversions stated over Dafny's unbounded `int` and exact
 * `real`. Dafny's own `/` on `int` is Euclidean and `.Floor` rounds down;
 * Java's integer `/` and its `(int)` cast both round toward zero.
 */
module JavaNum {
  import opened Results

  /** The values of a Java `int`. */
  type int32 = x: int | -0x8000_0000 <= x < 0x8000_0000

  /** The values of one byte on a `DataOutput` stream. */
  type byte = x: int | 0 <= x < 0x100

  /** `(int) Math.floor(r)`: the greatest integer not above `r`. */
  function Floor(r: real): (f: int)
    ensures f as real <= r < f as real + 1.0
  {
    r.Floor
  }

  /** `(int) Math.ceil(r)`: the least integer not below `r`. */
  function Ceil(r: real): (c: int)
    ensures r <= c as real < r + 1.0
  {
    -((-r).Floor)
  }

  /** The `(int)` cast of a double, which truncates toward zero. */
  function Trunc(r: real): (t: int)
    ensures 0.0 <= r ==> t == Floor(r)
    ensures r <= 0.0 ==> t == Ceil(r)
    ensures 0.0 <= r ==> 0 <= t && t as real <= r
    ensures r <= 0.0 ==> t <= 0 && r <= t as real
  {
    if r >= 0.0 then r.Floor else -((-r).Floor)
  }

  /**
   * Java's integer quotient `a / b` for `b != 0`: it rounds toward zero, so
   * the remainder `a - q*b` takes the sign of `a` and is smaller than `b` in
   * magnitude.
   */
  function Quot(a: int, b: int): (q: int)
    requires b != 0
    ensures 0 <= a ==> 0 <= a - q * b < if b > 0 then b else -b
    ensures a <= 0 ==> -(if b > 0 then b else -b) < a - q * b <= 0
    ensures 0 <= a && 0 < b ==> q == a / b
  {
    if a >= 0 && b > 0 then a / b
    else if a >= 0 then -(a / -b)
    else if b > 0 then -((-a) / b)
    else (-a) / (-b)
  }

  /** Java's `a / b` on `int` or `long`, which throws when `b` is zero. */
  function Div(a: int, b: int): (r: Result<int>)
    ensures r.Failure? <==> b == 0
    ensures r.Failure? ==> r.error == DivideByZero
    ensures r.Success? ==> r.value == Quot(a, b)
  {
    if b == 0 then Failure(DivideByZero) else Success(Quot(a, b))
  }

  /** A multiple of `d` strictly between `-d` and `d` is zero. */
  lemma SmallMultipleIsZero(k: int, d: int)
    requires d > 0 && -d < k * d < d
    ensures k == 0
  {
  }

  /** Dafny's quotient and remainder by a positive `d` are the unique ones. */
  lemma DivModUnique(a: int, d: int, q: int, r: int)
    requires 0 < d && 0 <= r < d && a == q * d + r
    ensures a / d == q && a % d == r
  {
    assert (a / d - q) * d == r - a % d;
    SmallMultipleIsZero(a / d - q, d);
  }
}
