/** JavaScript and three.js numeric primitives the controller is built from,
    stated over exact reals, together with congruence modulo a period. */
module Numeric {

  function Abs(x: real): (r: real)
    ensures r >= 0.0 && (r == x || r == -x)
  {
    if x < 0.0 then -x else x
  }

  /** `Math.trunc`: the integer part, rounding toward zero. */
  function Trunc(x: real): (t: int)
    ensures x >= 0.0 ==> 0 <= t && t as real <= x < t as real + 1.0
    ensures x < 0.0 ==> t <= 0 && t as real - 1.0 < x <= t as real
  {
    if x >= 0.0 then x.Floor else -((-x).Floor)
  }

  /** `Math.round`: the nearest integer, halves rounded toward +infinity. */
  function Round(x: real): (r: int)
    ensures x - 0.5 < r as real <= x + 0.5
  {
    (x + 0.5).Floor
  }

  /** k whole periods of length m. */
  function Multiple(k: int, m: real): (r: real)
  {
    k as real * m
  }

  /** x and y differ by a whole number of periods m. */
  ghost predicate Congruent(x: real, y: real, m: real)
  {
    exists k: int :: x - y == Multiple(k, m)
  }

  /** JavaScript `a % b` on numbers: the remainder of the quotient truncated
      toward zero, so it takes the sign of `a`. */
  function JsRem(a: real, b: real): (r: real)
    requires b > 0.0
    ensures 0.0 <= a ==> 0.0 <= r < b
    ensures a < 0.0 ==> -b < r <= 0.0
    ensures Congruent(a, r, b)
  {
    var q := Trunc(a / b);
    TruncTimes(a, b, q);
    assert a - (a - Multiple(q, b)) == Multiple(q, b);
    a - Multiple(q, b)
  }

  lemma TruncTimes(a: real, b: real, q: int)
    requires b > 0.0 && q == Trunc(a / b)
    ensures 0.0 <= a ==> Multiple(q, b) <= a < Multiple(q, b) + b
    ensures a < 0.0 ==> Multiple(q, b) - b < a <= Multiple(q, b)
  {
    DivTimes(a, b);
    Bracket(a, b, a / b, q);
  }

  lemma DivTimes(a: real, b: real)
    requires b != 0.0
    ensures (a / b) * b == a
  {
  }

  lemma Bracket(a: real, b: real, x: real, q: int)
    requires b > 0.0 && a == x * b
    requires 0.0 <= a ==> q as real <= x < q as real + 1.0
    requires a < 0.0 ==> q as real - 1.0 < x <= q as real
    ensures 0.0 <= a ==> Multiple(q, b) <= a < Multiple(q, b) + b
    ensures a < 0.0 ==> Multiple(q, b) - b < a <= Multiple(q, b)
  {
    if 0.0 <= a {
      BracketBelow(a, b, x, q as real);
    } else {
      BracketAbove(a, b, x, q as real);
    }
  }

  // Each of these states one inequality: the solver handles products of
  // variables reliably only one fact at a time.

  lemma BracketBelow(a: real, b: real, x: real, y: real)
    requires b > 0.0 && a == x * b && y <= x < y + 1.0
    ensures y * b <= a < y * b + b
  {
    AtLeastTimes(a, b, x, y);
    BelowTimesSucc(a, b, x, y);
  }

  lemma BracketAbove(a: real, b: real, x: real, y: real)
    requires b > 0.0 && a == x * b && y - 1.0 < x <= y
    ensures y * b - b < a <= y * b
  {
    AboveTimesPred(a, b, x, y);
    AtMostTimes(a, b, x, y);
  }

  lemma AtLeastTimes(a: real, b: real, x: real, y: real)
    requires b > 0.0 && a == x * b && y <= x
    ensures y * b <= a
  {
    MulNonneg(x - y, b);
  }

  lemma AtMostTimes(a: real, b: real, x: real, y: real)
    requires b > 0.0 && a == x * b && x <= y
    ensures a <= y * b
  {
    MulNonneg(y - x, b);
  }

  lemma BelowTimesSucc(a: real, b: real, x: real, y: real)
    requires b > 0.0 && a == x * b && x < y + 1.0
    ensures a < y * b + b
  {
    MulPos(y + 1.0 - x, b);
  }

  lemma AboveTimesPred(a: real, b: real, x: real, y: real)
    requires b > 0.0 && a == x * b && y - 1.0 < x
    ensures y * b - b < a
  {
    MulPos(x - y + 1.0, b);
  }

  // Small steps of real arithmetic that the solver does not take on its own.

  lemma MulNonneg(u: real, v: real)
    requires u >= 0.0 && v >= 0.0
    ensures u * v >= 0.0
  {
  }

  lemma MulPos(u: real, v: real)
    requires u > 0.0 && v > 0.0
    ensures u * v > 0.0
  {
  }

  lemma Distrib(u: real, v: real, c: real)
    ensures (u + v) * c == u * c + v * c
    ensures (u - v) * c == u * c - v * c
  {
  }

  lemma ScaleLe(u: real, v: real, c: real)
    requires u <= v && c >= 0.0
    ensures u * c <= v * c
  {
    MulNonneg(v - u, c);
    Distrib(v, u, c);
  }

  lemma ScaleLt(u: real, v: real, c: real)
    requires u < v && c > 0.0
    ensures u * c < v * c
  {
    MulPos(v - u, c);
    Distrib(v, u, c);
  }

  /** JavaScript `a % b` on integer-valued numbers (b > 0): the remainder
      takes the sign of `a`; `JsIntRemIsJsRem` shows it is `JsRem`. */
  function JsIntRem(a: int, b: int): (r: int)
    requires b > 0
    ensures 0 <= a ==> 0 <= r < b
    ensures a < 0 ==> -b < r <= 0
  {
    if a >= 0 then a % b else -((-a) % b)
  }

  /** On integer operands the integer remainder is the JavaScript remainder
      of the same operands as numbers. */
  lemma JsIntRemIsJsRem(a: int, b: int)
    requires b > 0
    ensures JsIntRem(a, b) as real == JsRem(a as real, b as real)
  {
    var x, m, r := a as real, b as real, JsIntRem(a, b);
    var q := if a >= 0 then a / b else -((-a) / b);
    assert a - r == q * b;
    assert x - r as real == Multiple(q, m);
    CongruentBy(x, r as real, m, q);
    var j := JsRem(x, m);
    CongruentSymmetric(x, r as real, m);
    CongruentTransitive(r as real, x, j, m);
    CongruentSameDifference(r as real, j, r as real - j, 0.0, m);
    OnlyZeroNearZero(r as real - j, m);
  }

  /** three.js `MathUtils.lerp(x, y, t)`: linear interpolation from x toward y. */
  function Lerp(x: real, y: real, t: real): (r: real)
    ensures t == 0.0 ==> r == x
    ensures t == 1.0 ==> r == y
    ensures x == y ==> r == x
  {
    (1.0 - t) * x + t * y
  }

  lemma LerpOffset(x: real, y: real, t: real)
    ensures Lerp(x, y, t) - y == (1.0 - t) * (x - y)
  {
  }

  /** With a factor in [0, 1] the interpolant lies between its two ends. */
  lemma LerpBetween(x: real, y: real, t: real)
    requires 0.0 <= t <= 1.0
    ensures x <= y ==> x <= Lerp(x, y, t) <= y
    ensures y <= x ==> y <= Lerp(x, y, t) <= x
  {
    LerpOffset(x, y, t);
    ScaledBetween(Lerp(x, y, t) - y, 1.0 - t, x - y);
  }

  /** A fraction s in [0, 1] of d lies between 0 and d. */
  lemma ScaledBetween(e: real, s: real, d: real)
    requires e == s * d && 0.0 <= s <= 1.0
    ensures d <= 0.0 ==> d <= e <= 0.0
    ensures 0.0 <= d ==> 0.0 <= e <= d
  {
    assert 1.0 * d == d && 0.0 * d == 0.0;
    if d <= 0.0 {
      ScaleLe(0.0, s, -d);
      ScaleLe(s, 1.0, -d);
      assert s * (-d) == -e;
    } else {
      ScaleLe(0.0, s, d);
      ScaleLe(s, 1.0, d);
    }
  }

  /** The distance to y is scaled by |1 - t|: it shrinks strictly exactly when
      0 < t < 2, and grows when t > 2. */
  lemma LerpDistance(x: real, y: real, t: real)
    ensures Abs(Lerp(x, y, t) - y) == Abs(1.0 - t) * Abs(x - y)
    ensures x != y && 0.0 < t < 2.0 ==> Abs(Lerp(x, y, t) - y) < Abs(x - y)
    ensures x != y && 2.0 < t ==> Abs(Lerp(x, y, t) - y) > Abs(x - y)
  {
    LerpOffset(x, y, t);
    Scaled(Lerp(x, y, t) - y, 1.0 - t, x - y);
  }

  /** How |s * d| compares with |d|. */
  lemma Scaled(e: real, s: real, d: real)
    requires e == s * d
    ensures Abs(e) == Abs(s) * Abs(d)
    ensures d != 0.0 && Abs(s) < 1.0 ==> Abs(e) < Abs(d)
    ensures d != 0.0 && Abs(s) > 1.0 ==> Abs(e) > Abs(d)
  {
    AbsMul(s, d);
    if d != 0.0 {
      CompareProduct(Abs(e), Abs(s), Abs(d));
    }
  }

  lemma CompareProduct(p: real, u: real, v: real)
    requires p == u * v && v > 0.0
    ensures u < 1.0 ==> p < v
    ensures u > 1.0 ==> p > v
  {
    assert 1.0 * v == v;
    if u < 1.0 {
      ScaleLt(u, 1.0, v);
    } else if u > 1.0 {
      ScaleLt(1.0, u, v);
    }
  }

  lemma AbsMul(u: real, v: real)
    ensures Abs(u * v) == Abs(u) * Abs(v)
  {
    Distrib(0.0, u, v);
    Distrib(0.0, v, u);
    assert 0.0 * v == 0.0 && 0.0 * u == 0.0;
    assert (-u) * v == -(u * v);
    assert u * (-v) == -(u * v);
    assert (-u) * (-v) == u * v;
    if u >= 0.0 && v >= 0.0 {
      MulNonneg(u, v);
    } else if u < 0.0 && v < 0.0 {
      MulPos(-u, -v);
    } else if u < 0.0 {
      MulNonneg(-u, v);
    } else {
      MulNonneg(u, -v);
    }
  }

  // Whole periods

  lemma MultipleAdd(j: int, k: int, m: real)
    ensures Multiple(j + k, m) == Multiple(j, m) + Multiple(k, m)
    ensures Multiple(j - k, m) == Multiple(j, m) - Multiple(k, m)
  {
    Distrib(j as real, k as real, m);
  }

  lemma MultipleSmall(m: real)
    ensures Multiple(0, m) == 0.0 && Multiple(1, m) == m
  {
  }

  lemma MultipleNested(q: int, n: int, m: real)
    ensures Multiple(q * n, m) == Multiple(q, Multiple(n, m))
  {
    assert (q * n) as real == q as real * n as real;
  }

  lemma MultipleDiv(k: int, m: real)
    requires m != 0.0
    ensures Multiple(k, m) / m == k as real
  {
  }

  /** A nonzero number of whole periods is at least one period long. */
  lemma MultipleAtLeastPeriod(k: int, m: real)
    requires m > 0.0 && k != 0
    ensures Abs(Multiple(k, m)) >= m
  {
    assert 1.0 * m == m;
    Distrib(0.0, 1.0, m);
    if k >= 1 {
      ScaleLe(1.0, k as real, m);
    } else {
      ScaleLe(k as real, -1.0, m);
    }
  }

  // Congruence modulo m

  lemma CongruentBy(x: real, y: real, m: real, k: int)
    requires x - y == Multiple(k, m)
    ensures Congruent(x, y, m)
  {
  }

  lemma CongruentReflexive(x: real, m: real)
    ensures Congruent(x, x, m)
  {
    MultipleSmall(m);
    CongruentBy(x, x, m, 0);
  }

  /** Congruence depends only on the difference of the two sides. */
  lemma CongruentSameDifference(x: real, y: real, x': real, y': real, m: real)
    requires Congruent(x, y, m) && x' - y' == x - y
    ensures Congruent(x', y', m)
  {
    var k :| x - y == Multiple(k, m);
    CongruentBy(x', y', m, k);
  }

  lemma CongruentSymmetric(x: real, y: real, m: real)
    requires Congruent(x, y, m)
    ensures Congruent(y, x, m)
  {
    var k :| x - y == Multiple(k, m);
    MultipleAdd(0, k, m);
    MultipleSmall(m);
    CongruentBy(y, x, m, -k);
  }

  lemma CongruentTransitive(x: real, y: real, z: real, m: real)
    requires Congruent(x, y, m) && Congruent(y, z, m)
    ensures Congruent(x, z, m)
  {
    var k :| x - y == Multiple(k, m);
    var j :| y - z == Multiple(j, m);
    MultipleAdd(k, j, m);
    CongruentBy(x, z, m, k + j);
  }

  /** Adding whole periods to the left side keeps congruence. */
  lemma CongruentShift(x: real, y: real, m: real, j: int)
    requires Congruent(x, y, m)
    ensures Congruent(x + Multiple(j, m), y, m)
  {
    var k :| x - y == Multiple(k, m);
    MultipleAdd(k, j, m);
    CongruentBy(x + Multiple(j, m), y, m, k + j);
  }

  /** Two representatives in one half-open period that are congruent are equal. */
  lemma UniqueInPeriod(a: real, b: real, m: real)
    requires m > 0.0 && 0.0 <= a < m && 0.0 <= b < m
    requires Congruent(a, b, m)
    ensures a == b
  {
    var k :| a - b == Multiple(k, m);
    if k != 0 {
      MultipleAtLeastPeriod(k, m);
    }
  }

  /** A value less than one period away from 0 that is congruent to 0 is 0. */
  lemma OnlyZeroNearZero(d: real, m: real)
    requires m > 0.0 && Abs(d) < m && Congruent(d, 0.0, m)
    ensures d == 0.0
  {
    var k :| d - 0.0 == Multiple(k, m);
    if k != 0 {
      MultipleAtLeastPeriod(k, m);
    }
  }
}
