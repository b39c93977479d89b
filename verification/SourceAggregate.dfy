/** Per-arm aggregates of blind source grades: the Wilson interval and rank metrics, before rounding. */
module SourceAggregate {
  import opened Options

  // ---- The Wilson interval ----

  /** The number under the square root. */
  function Radicand(p: real, n: real, z: real): real
    requires n > 0.0
  {
    p * (1.0 - p) / n + z * z / (4.0 * n * n)
  }

  /** `wilson`, given the square root `s` of the radicand. */
  function Wilson(p: real, n: real, z: real, s: real): (real, real)
    requires n > 0.0 && 1.0 + z * z / n != 0.0
  {
    var denominator := 1.0 + z * z / n;
    var centre := (p + z * z / (2.0 * n)) / denominator;
    var margin := z * s / denominator;
    (centre - margin, centre + margin)
  }

  lemma ProductSign(x: real, y: real)
    requires x >= 0.0 && y >= 0.0
    ensures x * y >= 0.0
  {
  }

  lemma ProductPositive(x: real, y: real)
    requires x > 0.0 && y > 0.0
    ensures x * y > 0.0
  {
  }

  lemma DifferenceOfSquares(a: real, b: real)
    ensures b * b - a * a == (b - a) * (b + a)
  {
  }

  lemma Undivide(a: real, d: real)
    requires d > 0.0
    ensures a / d * d == a
  {
  }

  lemma Cancel(x: real, y: real, d: real)
    requires d > 0.0 && x * d == y * d
    ensures x == y
  {
  }

  lemma Divide(a: real, b: real, d: real)
    requires d > 0.0 && a <= b
    ensures a / d <= b / d
  {
  }

  lemma DivideSum(a: real, b: real, d: real)
    requires d > 0.0
    ensures a / d + b / d == (a + b) / d && a / d - b / d == (a - b) / d
  {
  }

  /** Comparing nonnegative numbers by their squares. */
  lemma FromSquares(a: real, b: real)
    requires a >= 0.0 && b >= 0.0 && a * a >= b * b
    ensures a >= b
  {
    if b > a {
      DifferenceOfSquares(a, b);
      ProductPositive(b - a, b + a);
    }
  }

  lemma SquareOfSum(p: real, t: real)
    ensures (p + t / 2.0) * (p + t / 2.0) == p * p + p * t + t * t / 4.0
  {
  }

  lemma Variance(p: real)
    requires 0.0 <= p <= 1.0
    ensures p * (1.0 - p) == p - p * p && p * (1.0 - p) >= 0.0
    ensures (p - 0.5) * (p - 0.5) == 0.25 - p * (1.0 - p)
  {
    ProductSign(p, 1.0 - p);
  }

  lemma Distribute(t: real, x: real, y: real)
    ensures t * (x + y) == t * x + t * y && t * (x - y) == t * x - t * y
  {
  }

  /** With t = z^2/n and m = z*s, everything is about m^2 = t*p*(1-p) + t^2/4. */
  lemma MarginBelow(p: real, t: real, m: real)
    requires 0.0 <= p <= 1.0 && t >= 0.0 && m >= 0.0
    requires m * m == t * (p * (1.0 - p)) + t * t / 4.0
    ensures m <= p + t / 2.0
  {
    SquareOfSum(p, t);
    Variance(p);
    Distribute(t, p, p * p);
    ProductSign(p, p);
    ProductSign(t, p * p);
    FromSquares(p + t / 2.0, m);
  }

  lemma SquareOfProduct(t: real, x: real)
    ensures (t * x) * (t * x) == (t * t) * (x * x)
  {
  }

  lemma MarginCoversShift(p: real, t: real, m: real)
    requires 0.0 <= p <= 1.0 && t >= 0.0 && m >= 0.0
    requires m * m == t * (p * (1.0 - p)) + t * t / 4.0
    ensures t * (p - 0.5) <= m && -m <= t * (p - 0.5)
  {
    var b, v, u := t * (p - 0.5), p * (1.0 - p), t * t;
    Variance(p);
    SquareOfProduct(t, p - 0.5);
    Distribute(u, 0.25, v);
    ProductSign(t, v);
    ProductSign(t, t);
    ProductSign(u, v);
    FromSquares(m, if b >= 0.0 then b else -b);
  }

  /** Dividing by a product is dividing twice. */
  lemma DivideTwice(q: real, n: real, m: real)
    requires n > 0.0 && m > 0.0
    ensures m * n > 0.0 && q / (m * n) == q / n / m
  {
    ProductPositive(m, n);
    Undivide(q, n);
    Undivide(q / n, m);
    var y := q / n / m;
    assert y * (m * n) == y * m * n;
    DivideByProduct(q, y, m * n);
  }

  lemma DivideByProduct(q: real, y: real, d: real)
    requires d > 0.0 && y * d == q
    ensures q / d == y
  {
    Undivide(q, d);
    Cancel(q / d, y, d);
  }

  lemma ScaleFraction(q: real, v: real, n: real)
    requires n > 0.0
    ensures q * (v / n) == q / n * v
  {
    Undivide(v, n);
    Undivide(q, n);
    var x, y := v / n, q / n;
    assert q * x * n == q * v by {
      assert q * x * n == q * (x * n);
    }
    assert y * v * n == q * v by {
      assert y * v * n == (y * n) * v;
    }
    Cancel(q * x, y * v, n);
  }

  lemma Reduced(p: real, n: real, z: real, s: real)
    requires n > 0.0 && z >= 0.0 && s >= 0.0 && s * s == Radicand(p, n, z)
    ensures var t, m := z * z / n, z * s; t >= 0.0 && m >= 0.0 && m * m == t * (p * (1.0 - p)) + t * t / 4.0
  {
    var v, q, t := p * (1.0 - p), z * z, z * z / n;
    ProductSign(z, z);
    ProductSign(z, s);
    Divide(0.0, q, n);
    SquareOfProduct(z, s);
    DivideTwice(q, n, 4.0 * n);
    Distribute(q, v / n, t / (4.0 * n));
    ScaleFraction(q, v, n);
    ScaleFraction(q, t / 4.0, n);
    assert t / (4.0 * n) == t / 4.0 / n;
  }

  /** For every rate, sample size and quantile, the interval lies in [0, 1] and contains the rate. */
  lemma WilsonContainsRate(p: real, n: real, z: real, s: real)
    requires 0.0 <= p <= 1.0 && n > 0.0 && z >= 0.0 && s >= 0.0 && s * s == Radicand(p, n, z)
    ensures 1.0 + z * z / n > 0.0
    ensures var (low, high) := Wilson(p, n, z, s); 0.0 <= low <= p <= high <= 1.0
  {
    hide Wilson, Radicand;
    var t, m := z * z / n, z * s;
    Reduced(p, n, z, s);
    WilsonEnds(p, n, z, s);
    Margins(p, t, m);
    Enclosed(p, t, m);
  }

  /** The ends of the interval in terms of t and m. */
  lemma WilsonEnds(p: real, n: real, z: real, s: real)
    requires n > 0.0 && z * z / n >= 0.0
    ensures var t, m := z * z / n, z * s;
      Wilson(p, n, z, s) == ((p + t / 2.0 - m) / (1.0 + t), (p + t / 2.0 + m) / (1.0 + t))
  {
    var t, m := z * z / n, z * s;
    DivideTwice(z * z, n, 2.0);
    DivideSum(p + t / 2.0, m, 1.0 + t);
  }

  lemma Margins(p: real, t: real, m: real)
    requires 0.0 <= p <= 1.0 && t >= 0.0 && m >= 0.0
    requires m * m == t * (p * (1.0 - p)) + t * t / 4.0
    ensures m <= p + t / 2.0 && m <= 1.0 - p + t / 2.0
    ensures t * p - t * 0.5 <= m && -m <= t * p - t * 0.5
  {
    MarginBelow(p, t, m);
    assert (1.0 - p) * (1.0 - (1.0 - p)) == p * (1.0 - p);
    MarginBelow(1.0 - p, t, m);
    MarginCoversShift(p, t, m);
    Distribute(t, p, 0.5);
  }

  lemma Enclosed(p: real, t: real, m: real)
    requires t >= 0.0 && m <= p + t / 2.0 && m <= 1.0 - p + t / 2.0
    requires t * p - t * 0.5 <= m && -m <= t * p - t * 0.5
    ensures 0.0 <= (p + t / 2.0 - m) / (1.0 + t) <= p <= (p + t / 2.0 + m) / (1.0 + t) <= 1.0
  {
    var d := 1.0 + t;
    Distribute(p, 1.0, t);
    Undivide(p * d, d);
    Cancel(p * d / d, p, d);
    Divide(0.0, p + t / 2.0 - m, d);
    Divide(p + t / 2.0 - m, p * d, d);
    Divide(p * d, p + t / 2.0 + m, d);
    Divide(p + t / 2.0 + m, d, d);
  }

  /** Squares of sums and differences, spelled out. */
  lemma SquareOf(a: real, b: real)
    ensures (a + b) * (a + b) == a * a + 2.0 * (a * b) + b * b && (a - b) * (a - b) == a * a - 2.0 * (a * b) + b * b
  {
    Distribute(a + b, a, b);
    Distribute(a - b, a, b);
    Distribute(a, a, b);
    Distribute(b, a, b);
  }

  /** How far x is from passing the score test: at most zero if it passes. */
  function Score(p: real, t: real, x: real): real {
    (p - x) * (p - x) - t * (x * (1.0 - x))
  }

  function Gap(c: real, d: real, x: real): real {
    (d * x - c) * (d * x - c)
  }

  /** A product that the verifier need not look into. */
  function Mul(x: real, y: real): real {
    x * y
  }

  lemma Polynomial(p: real, t: real, x: real)
    ensures Score(p, t, x) == Mul(1.0 + t, Mul(x, x)) - 2.0 * Mul(p + t / 2.0, x) + Mul(p, p)
  {
    var xx := x * x;
    SquareOf(p, x);
    assert x * (1.0 - x) == x - xx by {
      Distribute(x, 1.0, x);
    }
    Distribute(t, x, xx);
    assert (1.0 + t) * xx == xx + t * xx by {
      Distribute(xx, 1.0, t);
    }
    assert (p + t / 2.0) * x == p * x + t * x / 2.0 by {
      Distribute(x, p, t / 2.0);
    }
  }

  lemma Distance(d: real, c: real, x: real)
    ensures Gap(c, d, x) == Mul(d, Mul(d, Mul(x, x))) - 2.0 * Mul(d, Mul(c, x)) + Mul(c, c)
  {
    SquareOf(d * x, c);
    SquareOfProduct(d, x);
    assert (d * d) * (x * x) == d * (d * (x * x));
    assert (d * x) * c == d * (c * x);
  }

  /** Centre squared less margin squared is p squared, scaled. */
  lemma CentreSquare(p: real, t: real, m: real)
    requires m * m == t * (p * (1.0 - p)) + t * t / 4.0
    ensures Mul(p + t / 2.0, p + t / 2.0) - m * m == Mul(1.0 + t, Mul(p, p))
  {
    SquareOfSum(p, t);
    assert p * (1.0 - p) == p - p * p by {
      Distribute(p, 1.0, p);
    }
    Distribute(t, p, p * p);
    Distribute(p * p, 1.0, t);
  }

  lemma Join(gap: real, score: real, d: real, dxx: real, cx: real, cc: real, pp: real, mm: real)
    requires gap == Mul(d, dxx) - 2.0 * Mul(d, cx) + cc && cc - mm == Mul(d, pp) && score == dxx - 2.0 * cx + pp
    ensures gap - mm == Mul(d, score)
  {
    Distribute(d, dxx - 2.0 * cx, pp);
    Distribute(d, dxx, 2.0 * cx);
    assert d * (2.0 * cx) == 2.0 * (d * cx);
  }

  /** The score equation, multiplied out: with c the centre before division and d = 1 + t, the distance of d*x from c
      exceeds m exactly as far as x violates the score test. */
  lemma ScoreEquation(p: real, t: real, m: real, x: real)
    requires m * m == t * (p * (1.0 - p)) + t * t / 4.0
    ensures Gap(p + t / 2.0, 1.0 + t, x) - m * m == Mul(1.0 + t, Score(p, t, x))
  {
    hide Gap, Score, Mul;
    var c, d := p + t / 2.0, 1.0 + t;
    CentreSquare(p, t, m);
    Polynomial(p, t, x);
    Distance(d, c, x);
    Join(Gap(c, d, x), Score(p, t, x), d, Mul(d, Mul(x, x)), Mul(c, x), Mul(c, c), Mul(p, p), m * m);
  }

  /** A number lies within m of another exactly when its square does. */
  lemma Within(y: real, m: real)
    requires m >= 0.0
    ensures -m <= y <= m <==> y * y <= m * m
  {
    var a := if y >= 0.0 then y else -y;
    assert a * a == y * y;
    if a <= m {
      DifferenceOfSquares(a, m);
      ProductSign(m - a, m + a);
    }
    if a * a <= m * m {
      FromSquares(m, a);
    }
  }

  lemma ScaledNonpositive(d: real, q: real)
    requires d > 0.0
    ensures d * q <= 0.0 <==> q <= 0.0
  {
    if q > 0.0 {
      ProductPositive(d, q);
    } else {
      ProductSign(d, -q);
    }
  }

  lemma BetweenExactly(c: real, m: real, d: real, x: real)
    requires d > 0.0
    ensures (c - m) / d <= x <= (c + m) / d <==> -m <= d * x - c <= m
  {
    Undivide(c - m, d);
    Undivide(c + m, d);
    Undivide(d * x, d);
    Cancel(d * x / d, x, d);
    if (c - m) / d <= x <= (c + m) / d {
      ProductSign(x - (c - m) / d, d);
      ProductSign((c + m) / d - x, d);
      Distribute(d, x, (c - m) / d);
      Distribute(d, (c + m) / d, x);
    }
    if -m <= d * x - c <= m {
      Divide(c - m, d * x, d);
      Divide(d * x, c + m, d);
    }
  }

  lemma InsideExactly(p: real, t: real, m: real, x: real)
    requires t >= 0.0 && m >= 0.0 && m * m == t * (p * (1.0 - p)) + t * t / 4.0
    ensures (p + t / 2.0 - m) / (1.0 + t) <= x <= (p + t / 2.0 + m) / (1.0 + t) <==> Score(p, t, x) <= 0.0
  {
    hide Gap, Score, Mul;
    ScoreEquation(p, t, m, x);
    Sides(p + t / 2.0, m, 1.0 + t, x, Score(p, t, x));
  }

  lemma Sides(c: real, m: real, d: real, x: real, q: real)
    requires d > 0.0 && m >= 0.0 && Gap(c, d, x) - m * m == Mul(d, q)
    ensures (c - m) / d <= x <= (c + m) / d <==> q <= 0.0
  {
    BetweenExactly(c, m, d, x);
    Within(d * x - c, m);
    ScaledNonpositive(d, q);
  }

  /** The observed proportion p of n is not too far from x, judged by the variance that x would have. */
  predicate PassesScoreTest(p: real, n: real, z: real, x: real) {
    n * ((p - x) * (p - x)) <= z * z * (x * (1.0 - x))
  }

  /** The defining property of the interval: it holds exactly the proportions that a score test with quantile z does not
      reject, those x with n (p - x)^2 <= z^2 x (1 - x). */
  lemma WilsonExactly(p: real, n: real, z: real, s: real, x: real)
    requires 0.0 <= p <= 1.0 && n > 0.0 && z >= 0.0 && s >= 0.0 && s * s == Radicand(p, n, z)
    ensures 1.0 + z * z / n > 0.0
    ensures var (low, high) := Wilson(p, n, z, s);
      low <= x <= high <==> PassesScoreTest(p, n, z, x)
  {
    hide Wilson, Radicand, Score, PassesScoreTest;
    var t, m := z * z / n, z * s;
    Reduced(p, n, z, s);
    WilsonEnds(p, n, z, s);
    InsideExactly(p, t, m, x);
    ScoreTest(p, n, z, x);
  }

  lemma ScoreTest(p: real, n: real, z: real, x: real)
    requires n > 0.0
    ensures Score(p, z * z / n, x) <= 0.0 <==> PassesScoreTest(p, n, z, x)
  {
    var a, b := (p - x) * (p - x), x * (1.0 - x);
    assert Score(p, z * z / n, x) == a - z * z / n * b;
    assert PassesScoreTest(p, n, z, x) <==> n * a <= z * z * b;
    hide Score, PassesScoreTest;
    ScoreScaled(n, z, a, b);
  }

  lemma ScoreScaled(n: real, z: real, a: real, b: real)
    requires n > 0.0
    ensures a - z * z / n * b <= 0.0 <==> n * a <= z * z * b
  {
    var t := z * z / n;
    Undivide(z * z, n);
    ScaledNonpositive(n, a - t * b);
    Distribute(n, a, t * b);
    assert n * (t * b) == t * n * b;
  }

  // ---- Rank metrics of one arm ----

  datatype Row = Row(caseId: string, position: int, useful: bool)

  /** The cases of an arm, in order of first appearance. */
  function Cases(rows: seq<Row>): (r: seq<string>)
    ensures forall c :: c in r <==> exists i :: 0 <= i < |rows| && rows[i].caseId == c
    ensures r == [] <==> rows == []
  {
    if rows == [] then []
    else
      var init, last := rows[..|rows| - 1], rows[|rows| - 1].caseId;
      assert rows == init + [rows[|rows| - 1]];
      if last in Cases(init) then Cases(init) else Cases(init) + [last]
  }

  /** The least position of a useful sighting of a case. */
  function FirstUseful(rows: seq<Row>, c: string): (r: Option<int>)
    ensures r.Some? ==> exists i :: 0 <= i < |rows| && rows[i].caseId == c && rows[i].useful && rows[i].position == r.value
    ensures forall i :: 0 <= i < |rows| && rows[i].caseId == c && rows[i].useful ==> r.Some? && r.value <= rows[i].position
  {
    if rows == [] then None
    else
      var init, last := rows[..|rows| - 1], rows[|rows| - 1];
      var before := FirstUseful(init, c);
      assert rows == init + [last];
      if last.caseId != c || !last.useful then before
      else if before.Some? && before.value <= last.position then before
      else Some(last.position)
  }

  /** How many of the first `n` cases have a useful sighting. */
  function Covered(rows: seq<Row>, cases: seq<string>, n: nat): (k: nat)
    requires n <= |cases|
    ensures k <= n
  {
    if n == 0 then 0
    else
      var here := if FirstUseful(rows, cases[n - 1]).Some? then 1 else 0;
      Covered(rows, cases, n - 1) + here
  }

  /** Positions as the ranking counts them. */
  predicate Ranked(rows: seq<Row>) {
    forall i :: 0 <= i < |rows| ==> rows[i].position >= 1
  }

  /** The reciprocal rank of a case: nothing without a useful sighting, undefined when the first one is at 0. */
  function Reciprocal(rows: seq<Row>, c: string): (x: Option<real>)
    ensures x.Some? && FirstUseful(rows, c).None? ==> x.value == 0.0
    ensures x.Some? && FirstUseful(rows, c).Some? ==> x.value <= 1.0 && (x.value == 1.0 <==> FirstUseful(rows, c).value == 1)
    ensures x.Some? && FirstUseful(rows, c).Some? ==> x.value * (FirstUseful(rows, c).value as real) == 1.0
    ensures Ranked(rows) ==> x.Some? && 0.0 <= x.value
  {
    match FirstUseful(rows, c)
    case None => Some(0.0)
    case Some(k) => if k == 0 then None else (ReciprocalAtMostOne(k); Some(1.0 / (k as real)))
  }

  lemma ReciprocalAtMostOne(k: int)
    requires k != 0
    ensures var x := 1.0 / (k as real); x * (k as real) == 1.0 && x <= 1.0 && (x == 1.0 <==> k == 1) && (k >= 1 ==> x >= 0.0)
  {
    if k < 0 {
      assert 1.0 / (k as real) < 0.0;
    }
  }

  /** The sum of the reciprocal ranks of the first `n` cases; a division by zero ends it. */
  function Reciprocals(rows: seq<Row>, cases: seq<string>, n: nat): Option<real>
    requires n <= |cases|
  {
    if n == 0 then Some(0.0)
    else
      var before, here := Reciprocals(rows, cases, n - 1), Reciprocal(rows, cases[n - 1]);
      if before.Some? && here.Some? then Some(before.value + here.value) else None
  }

  /** The sum is undefined exactly when the first useful sighting of some case is at position 0. */
  lemma {:induction false} ReciprocalsDefined(rows: seq<Row>, cases: seq<string>, n: nat)
    requires n <= |cases|
    ensures Reciprocals(rows, cases, n).Some? <==> forall j :: 0 <= j < n ==> FirstUseful(rows, cases[j]) != Some(0)
  {
    hide FirstUseful;
    if n > 0 {
      ReciprocalsDefined(rows, cases, n - 1);
    }
  }

  lemma {:induction false} ReciprocalsBelowCovered(rows: seq<Row>, cases: seq<string>, n: nat)
    requires n <= |cases| && Reciprocals(rows, cases, n).Some?
    ensures Reciprocals(rows, cases, n).value <= Covered(rows, cases, n) as real
    ensures Ranked(rows) ==> 0.0 <= Reciprocals(rows, cases, n).value
    ensures Reciprocals(rows, cases, n).value == Covered(rows, cases, n) as real <==>
      forall j :: 0 <= j < n && FirstUseful(rows, cases[j]).Some? ==> FirstUseful(rows, cases[j]).value == 1
  {
    hide FirstUseful, Reciprocal;
    if n > 0 {
      ReciprocalsBelowCovered(rows, cases, n - 1);
    }
  }

  /** Every covered case has a useful sighting in first position. */
  predicate AllFirst(rows: seq<Row>, cases: seq<string>) {
    forall j :: 0 <= j < |cases| && FirstUseful(rows, cases[j]).Some? ==> FirstUseful(rows, cases[j]).value == 1
  }

  /** Some case's first useful sighting is at position 0, where the reciprocal is undefined. */
  predicate DividesByZero(rows: seq<Row>) {
    exists j :: 0 <= j < |Cases(rows)| && FirstUseful(rows, Cases(rows)[j]) == Some(0)
  }

  function MeanReciprocalRank(rows: seq<Row>): real
    requires rows != [] && !DividesByZero(rows)
  {
    ReciprocalsDefined(rows, Cases(rows), |Cases(rows)|);
    Reciprocals(rows, Cases(rows), |Cases(rows)|).value / |Cases(rows)| as real
  }

  function Coverage(rows: seq<Row>): real
    requires rows != []
  {
    Covered(rows, Cases(rows), |Cases(rows)|) as real / |Cases(rows)| as real
  }

  lemma SameQuotient(a: real, b: real, d: real)
    requires d > 0.0
    ensures a / d == b / d <==> a == b
  {
    Undivide(a, d);
    Undivide(b, d);
  }

  /** Mean reciprocal rank, where it is defined, is at most case coverage, with equality exactly when every covered
      case has a useful sighting in first position; positions counted from 1 make it defined and nonnegative. */
  lemma RankBelowCoverage(rows: seq<Row>)
    requires rows != []
    ensures 0.0 <= Coverage(rows) <= 1.0
    ensures !DividesByZero(rows) ==>
      && MeanReciprocalRank(rows) <= Coverage(rows)
      && (MeanReciprocalRank(rows) == Coverage(rows) <==> AllFirst(rows, Cases(rows)))
    ensures Ranked(rows) ==> !DividesByZero(rows) && 0.0 <= MeanReciprocalRank(rows)
  {
    hide Reciprocals, Covered, Cases, FirstUseful;
    var cases := Cases(rows);
    CoverageWithin(rows);
    ReciprocalsDefined(rows, cases, |cases|);
    if !DividesByZero(rows) {
      ReciprocalsBelowCovered(rows, cases, |cases|);
      var a, b := Reciprocals(rows, cases, |cases|).value, Covered(rows, cases, |cases|) as real;
      CompareMeans(a, b, |cases| as real);
    }
  }

  lemma CoverageWithin(rows: seq<Row>)
    requires rows != []
    ensures 0.0 <= Coverage(rows) <= 1.0
  {
    hide Covered, Cases;
    var n, b := |Cases(rows)| as real, Covered(rows, Cases(rows), |Cases(rows)|) as real;
    Divide(0.0, b, n);
    Divide(b, n, n);
  }

  lemma CompareMeans(a: real, b: real, n: real)
    requires n > 0.0 && a <= b
    ensures a / n <= b / n && (a / n == b / n <==> a == b) && (a >= 0.0 ==> a / n >= 0.0)
  {
    Divide(a, b, n);
    SameQuotient(a, b, n);
    if a >= 0.0 {
      Divide(0.0, a, n);
    }
  }

  datatype ArmSummary = ArmSummary(sightings: nat, useful: nat, cases: nat, covered: nat, reciprocals: real)

  function UsefulCount(rows: seq<Row>): (k: nat)
    ensures k <= |rows|
  {
    if rows == [] then 0
    else
      var here := if rows[|rows| - 1].useful then 1 else 0;
      UsefulCount(rows[..|rows| - 1]) + here
  }

  // ---- The counts ----

  predicate DistinctCases(cases: seq<string>) {
    forall i, j :: 0 <= i < j < |cases| ==> cases[i] != cases[j]
  }

  lemma {:induction false} CasesDistinct(rows: seq<Row>)
    ensures DistinctCases(Cases(rows))
  {
    if rows != [] {
      CasesDistinct(rows[..|rows| - 1]);
    }
  }

  lemma {:induction false} DistinctSize(cases: seq<string>)
    requires DistinctCases(cases)
    ensures |set c | c in cases| == |cases|
  {
    if cases != [] {
      var front, last := cases[..|cases| - 1], cases[|cases| - 1];
      DistinctSize(front);
      assert (set c | c in cases) == (set c | c in front) + {last};
    }
  }

  lemma {:induction false} UsefulSize(rows: seq<Row>)
    ensures UsefulCount(rows) == |set i | 0 <= i < |rows| && rows[i].useful|
  {
    if rows != [] {
      var front, last := rows[..|rows| - 1], rows[|rows| - 1];
      UsefulSize(front);
      var before := set i | 0 <= i < |front| && front[i].useful;
      assert (set i | 0 <= i < |rows| && rows[i].useful) == before + if last.useful then {|front|} else {};
    }
  }

  function CoveredSet(rows: seq<Row>, cases: seq<string>): set<string> {
    set c | c in cases && FirstUseful(rows, c).Some?
  }

  lemma CoveredSnoc(rows: seq<Row>, front: seq<string>, last: string)
    ensures CoveredSet(rows, front + [last])
      == CoveredSet(rows, front) + if FirstUseful(rows, last).Some? then {last} else {}
    ensures last !in front ==> last !in CoveredSet(rows, front)
  {
    hide FirstUseful;
  }

  lemma {:induction false} CoveredSize(rows: seq<Row>, cases: seq<string>, n: nat)
    requires n <= |cases| && DistinctCases(cases)
    ensures Covered(rows, cases, n) == |CoveredSet(rows, cases[..n])|
  {
    hide FirstUseful, CoveredSet;
    if n == 0 {
      NothingCovered(rows);
    } else {
      CoveredSize(rows, cases, n - 1);
      var last := cases[n - 1];
      assert cases[..n] == cases[..n - 1] + [last];
      CoveredSnoc(rows, cases[..n - 1], last);
      assert last !in cases[..n - 1];
    }
  }

  lemma NothingCovered(rows: seq<Row>)
    ensures CoveredSet(rows, []) == {}
  {
  }

  /** The useful sightings, the cases and the covered cases of an arm are counted as what they are. */
  lemma ArmCounts(rows: seq<Row>)
    ensures UsefulCount(rows) == |set i | 0 <= i < |rows| && rows[i].useful|
    ensures |Cases(rows)| == |set r | r in rows :: r.caseId|
    ensures Covered(rows, Cases(rows), |Cases(rows)|) == |set r | r in rows && r.useful :: r.caseId|
  {
    hide Covered, UsefulCount, CoveredSet, Cases;
    var cases := Cases(rows);
    UsefulSize(rows);
    CasesDistinct(rows);
    DistinctSize(cases);
    CoveredSize(rows, cases, |cases|);
    assert cases[..|cases|] == cases;
    AllCases(rows);
    CoveredCases(rows);
  }

  lemma AllCases(rows: seq<Row>)
    ensures (set c | c in Cases(rows)) == set r | r in rows :: r.caseId
  {
    forall c
      ensures c in Cases(rows) <==> exists r :: r in rows && r.caseId == c
    {
      if c in Cases(rows) {
        var i :| 0 <= i < |rows| && rows[i].caseId == c;
        assert rows[i] in rows;
      }
    }
  }

  lemma CoveredCases(rows: seq<Row>)
    ensures CoveredSet(rows, Cases(rows)) == set r | r in rows && r.useful :: r.caseId
  {
    forall c
      ensures c in Cases(rows) && FirstUseful(rows, c).Some? <==> exists r :: r in rows && r.useful && r.caseId == c
    {
      if c in Cases(rows) && FirstUseful(rows, c).Some? {
        var i :| 0 <= i < |rows| && rows[i].caseId == c && rows[i].useful && rows[i].position == FirstUseful(rows, c).value;
        assert rows[i] in rows;
      }
      if r :| r in rows && r.useful && r.caseId == c {
        var i :| 0 <= i < |rows| && rows[i] == r;
        assert rows[i].caseId == c && rows[i].useful;
      }
    }
  }

  /** The grouping loop of `aggregate` for one arm. */
  method GroupRows(rows: seq<Row>) returns (useful: nat, cases: seq<string>, best: map<string, int>)
    ensures useful == UsefulCount(rows) && cases == Cases(rows)
    ensures forall c :: c in best <==> FirstUseful(rows, c).Some?
    ensures forall c :: c in best ==> best[c] == FirstUseful(rows, c).value
  {
    useful, cases, best := 0, [], map[];
    for i := 0 to |rows|
      invariant useful == UsefulCount(rows[..i]) && cases == Cases(rows[..i])
      invariant forall c :: c in best <==> FirstUseful(rows[..i], c).Some?
      invariant forall c :: c in best ==> best[c] == FirstUseful(rows[..i], c).value
    {
      assert rows[..i + 1][..i] == rows[..i];
      var row := rows[i];
      if row.caseId !in cases {
        cases := cases + [row.caseId];
      }
      if row.useful {
        useful := useful + 1;
        if row.caseId !in best || row.position < best[row.caseId] {
          best := best[row.caseId := row.position];
        }
      }
    }
    assert rows[..|rows|] == rows;
  }

  /** The counts and the sum of reciprocal ranks of one arm, or nothing if a reciprocal is undefined. */
  method SummariseArm(rows: seq<Row>) returns (r: Option<ArmSummary>)
    ensures r.None? <==> DividesByZero(rows)
    ensures var cases := Cases(rows);
      r.Some? ==> Reciprocals(rows, cases, |cases|).Some? && r.value == ArmSummary(|rows|, UsefulCount(rows), |cases|,
        Covered(rows, cases, |cases|), Reciprocals(rows, cases, |cases|).value)
  {
    hide Cases, UsefulCount, FirstUseful;
    var useful, cases, best := GroupRows(rows);
    var covered: nat, reciprocals: real := 0, 0.0;
    for j := 0 to |cases|
      invariant covered == Covered(rows, cases, j) && Reciprocals(rows, cases, j) == Some(reciprocals)
    {
      if cases[j] in best {
        if best[cases[j]] == 0 {
          return None;
        }
        covered := covered + 1;
        reciprocals := reciprocals + 1.0 / (best[cases[j]] as real);
      }
    }
    ReciprocalsDefined(rows, cases, |cases|);
    r := Some(ArmSummary(|rows|, useful, |cases|, covered, reciprocals));
  }

  function UsefulRate(rows: seq<Row>): (rate: real)
    requires rows != []
    ensures 0.0 <= rate <= 1.0
  {
    var n := |rows| as real;
    Divide(0.0, UsefulCount(rows) as real, n);
    Divide(UsefulCount(rows) as real, n, n);
    UsefulCount(rows) as real / n
  }

  /** The interval reported for an arm contains the arm's useful-sighting rate. */
  lemma ArmInterval(rows: seq<Row>, z: real, s: real)
    requires rows != [] && z >= 0.0 && s >= 0.0
    requires s * s == Radicand(UsefulRate(rows), |rows| as real, z)
    ensures 1.0 + z * z / |rows| as real > 0.0
    ensures var (low, high) := Wilson(UsefulRate(rows), |rows| as real, z, s); 0.0 <= low <= UsefulRate(rows) <= high <= 1.0
  {
    hide Wilson, Radicand, UsefulRate;
    WilsonContainsRate(UsefulRate(rows), |rows| as real, z, s);
  }
}
