/** The pieces of Python's built-in semantics the cropper relies on: `None`,
    `min`/`max`, `abs`, `//` by a positive divisor, `math.floor`, `math.ceil`,
    `int()` of a float (truncation toward zero) and `round()` (round half to
    even). Python floats are modelled as reals. */
module Python {

  /** `None` or a value. */
  datatype Option<T> = None | Some(value: T)

  function Min(a: int, b: int): (r: int)
    ensures r <= a && r <= b && (r == a || r == b)
  {
    if a <= b then a else b
  }

  function Max(a: int, b: int): (r: int)
    ensures r >= a && r >= b && (r == a || r == b)
  {
    if a >= b then a else b
  }

  function MinReal(a: real, b: real): (r: real)
    ensures r <= a && r <= b && (r == a || r == b)
  {
    if a <= b then a else b
  }

  function Abs(x: int): (r: int)
    ensures r >= 0 && (r == x || r == -x)
  {
    if x < 0 then -x else x
  }

  function AbsReal(x: real): (r: real)
    ensures r >= 0.0 && (r == x || r == -x)
  {
    if x < 0.0 then -x else x
  }

  /** `a // b` for a positive divisor: the floor of the quotient. */
  function FloorDiv(a: int, b: int): (r: int)
    requires b > 0
    ensures b * r <= a < b * r + b
  {
    a / b
  }

  /** `math.floor(x)`. */
  function Floor(x: real): (r: int)
    ensures r as real <= x < r as real + 1.0
  {
    x.Floor
  }

  /** `math.ceil(x)`: the least integer not below `x`. */
  function Ceil(x: real): (r: int)
    ensures x <= r as real < x + 1.0
  {
    -((-x).Floor)
  }

  /** `int(x)` of a float: drops the fractional part, toward zero. */
  function Trunc(x: real): (r: int)
    ensures x >= 0.0 ==> r as real <= x < r as real + 1.0
    ensures x < 0.0 ==> r as real - 1.0 < x <= r as real
  {
    if x >= 0.0 then x.Floor else -((-x).Floor)
  }

  /** `round(x)`: the nearest integer, and on a tie the even one. */
  function Round(x: real): (r: int)
    ensures x - 0.5 <= r as real <= x + 0.5
    ensures (r as real == x - 0.5 || r as real == x + 0.5) ==> r % 2 == 0
    ensures x == x.Floor as real ==> r == x.Floor
  {
    var f := x.Floor;
    var d := x - f as real;
    if d < 0.5 then f
    else if d > 0.5 then f + 1
    else if f % 2 == 0 then f
    else f + 1
  }

  /** `round(n * k)`: the integer nearest to `n` scaled by the factor `k`. */
  function RoundTimes(n: int, k: real): (r: int)
    ensures n as real * k - 0.5 <= r as real <= n as real * k + 0.5
    ensures (r as real == n as real * k - 0.5 || r as real == n as real * k + 0.5) ==> r % 2 == 0
  {
    Round(Scale(n, k))
  }

  /** `round(n / k)`: the integer nearest to `n` divided by `k`. */
  function RoundOver(n: int, k: real): (r: int)
    requires k != 0.0
    ensures n as real / k - 0.5 <= r as real <= n as real / k + 0.5
  {
    Round(n as real / k)
  }

  /** `round` never reverses the order of its arguments. */
  lemma RoundMonotone(x: real, y: real)
    requires x <= y
    ensures Round(x) <= Round(y)
  {
  }

  lemma MulLe(a: real, b: real, c: real)
    requires a <= b && c >= 0.0
    ensures a * c <= b * c
  {
    assert b * c - a * c == (b - a) * c;
  }

  lemma MulLt(a: real, b: real, c: real)
    requires a < b && c > 0.0
    ensures a * c < b * c
  {
    assert b * c - a * c == (b - a) * c;
  }

  /** Scaling by a whole factor needs no rounding. */
  lemma RoundTimesBy(n: int, k: real, m: int)
    requires k == m as real
    ensures RoundTimes(n, k) == n * m
  {
    assert n as real * k == (n * m) as real;
  }

  /** `round(n * k)` never reverses the order of `n` under a factor `k >= 0`. */
  lemma RoundTimesMonotone(m: int, n: int, k: real)
    requires m <= n && k >= 0.0
    ensures RoundTimes(m, k) <= RoundTimes(n, k)
  {
    var x, y := Scale(m, k), Scale(n, k);
    ScaleLe(m, n, k);
    RoundMonotone(x, y);
  }

  /** `n * k` for a whole `n` and a factor `k`. */
  function Scale(n: int, k: real): (x: real)
  {
    n as real * k
  }

  lemma ScaleLe(m: int, n: int, k: real)
    requires m <= n && k >= 0.0
    ensures Scale(m, k) <= Scale(n, k)
  {
    MulLe(m as real, n as real, k);
  }

  lemma ScaleLt(m: int, n: int, k: real)
    requires m < n && k > 0.0
    ensures Scale(m, k) < Scale(n, k)
  {
    MulLt(m as real, n as real, k);
  }

  lemma MulWithin(e: real, c: real)
    requires AbsReal(e) <= 0.5 && c > 0.0
    ensures AbsReal(e * c) <= 0.5 * c
  {
    if e >= 0.0 {
      MulLe(e, 0.5, c);
      MulLe(0.0, e, c);
    } else {
      MulLe(-0.5, e, c);
      MulLe(e, 0.0, c);
    }
  }

  lemma DivMul(a: real, c: real)
    requires c != 0.0
    ensures (a / c) * c == a
  {
  }

  /** `round(n / 2)` on whole numbers: the half, and on a tie the even neighbour. */
  function HalfRound(n: int): (r: int)
  {
    var f := n / 2;
    if n % 2 == 0 || f % 2 == 0 then f else f + 1
  }

  lemma HalfRoundIsRound(n: int)
    ensures HalfRound(n) == Round(n as real / 2.0)
  {
    var f := n / 2;
    assert n == 2 * f + n % 2;
    assert (n as real / 2.0).Floor == f;
  }
}
