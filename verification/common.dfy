/** Small shared vocabulary: an optional value, and the JavaScript number
    operations the application uses (Math.round, Math.ceil, the `%` operator
    and Number.prototype.toFixed(1)), stated over exact reals. Binary floating
    point is not modelled: every operation here is exact. */
module Common {

  /** A value that may be missing (a JavaScript `null` / `undefined`). */
  datatype Option<+T> = None | Some(value: T) {
    function GetOr(default: T): T {
      match this
      case Some(v) => v
      case None => default
    }
  }

  /** Math.floor */
  function Floor(x: real): (r: int)
    ensures r as real <= x < r as real + 1.0
  {
    x.Floor
  }

  /** Math.ceil */
  function Ceil(x: real): (r: int)
    ensures r as real - 1.0 < x <= r as real
  {
    -Floor(-x)
  }

  /** Math.round: the nearest integer, a tie going towards +infinity. */
  function JsRound(x: real): (r: int)
    ensures r as real - 0.5 <= x < r as real + 0.5
  {
    Floor(x + 0.5)
  }

  /** Truncation towards zero, the quotient behind JavaScript's `%`. */
  function Trunc(x: real): (r: int)
    ensures 0.0 <= x ==> 0 <= r && r as real <= x < r as real + 1.0
    ensures x < 0.0 ==> r <= 0 && r as real - 1.0 < x <= r as real
  {
    if x >= 0.0 then Floor(x) else Ceil(x)
  }

  /** JavaScript's `a % b` on numbers: the remainder takes the sign of the
      dividend (unlike Dafny's Euclidean `%`). */
  function JsRem(a: real, b: real): (r: real)
    requires b > 0.0
    ensures 0.0 <= a ==> 0.0 <= r < b
    ensures a < 0.0 ==> -b < r <= 0.0
    // a whole number of divisors away from the dividend: rounded down for a
    // non-negative dividend, rounded up for a negative one
    ensures 0.0 <= a ==> r == a - Floor(a / b) as real * b
    ensures a < 0.0 ==> r == a - Ceil(a / b) as real * b
  {
    TruncTimes(a, b);
    a - Trunc(a / b) as real * b
  }

  /** Scaling the truncated quotient back by the divisor brackets the dividend. */
  lemma TruncTimes(a: real, b: real)
    requires b > 0.0
    ensures 0.0 <= a ==> Trunc(a / b) as real * b <= a < Trunc(a / b) as real * b + b
    ensures a < 0.0 ==> Trunc(a / b) as real * b - b < a <= Trunc(a / b) as real * b
  {
    var q := Trunc(a / b) as real;
    if 0.0 <= a {
      assert 0.0 <= a / b by { if a / b < 0.0 { AboveQuotient(a, b, 0.0); } }
      BelowQuotient(a, b, q);
      AboveQuotient(a, b, q + 1.0);
      assert (q + 1.0) * b == q * b + b;
    } else {
      assert a / b < 0.0 by { if 0.0 <= a / b { BelowQuotient(a, b, 0.0); } }
      StrictlyBelowQuotient(a, b, q - 1.0);
      AtMostQuotient(a, b, q);
      assert (q - 1.0) * b == q * b - b;
    }
  }

  // Bounds on a quotient `a / b`, for positive `b`, carried over to `a`.

  lemma BelowQuotient(a: real, b: real, q: real)
    requires b > 0.0 && q <= a / b
    ensures q * b <= a
  {
    var d := a / b;
    assert d * b == a;
    MulMonotone(q, d, b);
  }

  lemma StrictlyBelowQuotient(a: real, b: real, q: real)
    requires b > 0.0 && q < a / b
    ensures q * b < a
  {
    var d := a / b;
    assert d * b == a;
    MulMonotone(q, d, b);
  }

  lemma AboveQuotient(a: real, b: real, q: real)
    requires b > 0.0 && a / b < q
    ensures a < q * b
  {
    var d := a / b;
    assert d * b == a;
    MulMonotone(d, q, b);
  }

  lemma AtMostQuotient(a: real, b: real, q: real)
    requires b > 0.0 && a / b <= q
    ensures a <= q * b
  {
    var d := a / b;
    assert d * b == a;
    MulMonotone(d, q, b);
  }

  /** Multiplying by a positive factor keeps the order. */
  lemma MulMonotone(x: real, y: real, k: real)
    requires 0.0 < k
    ensures x <= y ==> x * k <= y * k
    ensures x < y ==> x * k < y * k
    ensures (x + 1.0) * k == x * k + k && (x - 1.0) * k == x * k - k
  {
  }

  /** The number of tenths toFixed(1) keeps: the magnitude is rounded to the
      nearest tenth with ties away from zero, and the sign is put back. */
  function Tenths(x: real): (n: int)
    ensures -0.5 <= n as real - 10.0 * x <= 0.5
    ensures 0.0 <= x ==> 0 <= n
    ensures x <= 0.0 ==> n <= 0
  {
    if x >= 0.0 then Floor(10.0 * x + 0.5) else -Floor(-10.0 * x + 0.5)
  }

  /** Number(x.toFixed(1)): x rounded to one decimal. */
  function ToFixed1(x: real): (r: real)
    ensures -0.05 <= r - x <= 0.05
    ensures 0.0 <= x ==> 0.0 <= r
    ensures x <= 0.0 ==> r <= 0.0
  {
    Tenths(x) as real / 10.0
  }

  /** Rounding to one decimal never reorders two values. */
  lemma ToFixed1Monotone(x: real, y: real)
    requires x <= y
    ensures ToFixed1(x) <= ToFixed1(y)
  {
    if 0.0 <= x {
      assert 10.0 * x + 0.5 <= 10.0 * y + 0.5;
      assert Floor(10.0 * x + 0.5) <= Floor(10.0 * y + 0.5);
    } else if y < 0.0 {
      assert -10.0 * y + 0.5 <= -10.0 * x + 0.5;
      assert Floor(-10.0 * y + 0.5) <= Floor(-10.0 * x + 0.5);
    }
  }

  /** Whole numbers of tenths survive the rounding unchanged. */
  lemma ToFixed1Exact(n: int)
    ensures ToFixed1(n as real / 10.0) == n as real / 10.0
  {
    var x := n as real / 10.0;
    if 0.0 <= x {
      assert 10.0 * x + 0.5 == n as real + 0.5;
      assert Floor(10.0 * x + 0.5) == n;
    } else {
      assert -10.0 * x + 0.5 == (-n) as real + 0.5;
      assert Floor(-10.0 * x + 0.5) == -n;
    }
  }

  /** Number of `true` entries: `[...].filter(Boolean).length`. */
  function CountTrue(bs: seq<bool>): (n: nat)
    ensures n <= |bs|
    ensures n == |bs| <==> forall i :: 0 <= i < |bs| ==> bs[i]
    ensures n == 0 <==> forall i :: 0 <= i < |bs| ==> !bs[i]
  {
    if bs == [] then 0
    else (if bs[0] then 1 else 0) + CountTrue(bs[1..])
  }
}
