/** The volatility solver of the Glicko-2 update (crates/mindone-accounting/src/glicko2.rs,
    `solve_volatility`), step 5 of Glickman's "Example of the Glicko-2 system", over exact reals.
    The exponential and logarithm are parameters of which only `ExpLn` is used. */
module Volatility {
  import opened Wrappers

  const MAX_ITERATIONS := 1_000
  const EPSILON := 1.0 / 4_503_599_627_370_496.0

  ghost predicate ExpLn(exp: real -> real, ln: real -> real) {
    && (forall x :: exp(x) > 0.0)
    && (forall x, y :: x < y ==> exp(x) < exp(y))
    && (forall y :: y > 0.0 ==> exp(ln(y)) == y)
  }

  /** The inputs of one solve, after validation of rating and configuration. */
  datatype Problem = Problem(phi: real, volatility: real, variance: real, improvement: real, tau: real, tolerance: real) {
    predicate Valid() {
      && volatility > 0.0 && variance > 0.0
      && 0.1 <= tau <= 2.0
      && 0.000_000_001 <= tolerance <= 0.001
    }

    function VolatilitySquared(): real {
      volatility * volatility
    }

    function PhiSquared(): real {
      phi * phi
    }

    function ImprovementSquared(): real {
      improvement * improvement
    }
  }

  datatype SolverError = BracketSearchFailed | Degenerate | NotConverged | InvalidResult

  function Likelihood(e: real, improvementSquared: real, phiSquared: real, variance: real): real
    requires e > 0.0 && phiSquared >= 0.0 && variance > 0.0
  {
    var denominator := phiSquared + variance + e;
    DoubleSquarePositive(denominator);
    e * (improvementSquared - phiSquared - variance - e) / (2.0 * denominator * denominator)
  }

  function Objective(exp: real -> real, p: Problem, alpha: real, x: real): real
    requires p.Valid() && exp(x) > 0.0
  {
    SquareNonnegative(p.phi);
    DoubleSquarePositive(p.tau);
    Likelihood(exp(x), p.ImprovementSquared(), p.PhiSquared(), p.variance) - (x - alpha) / (p.tau * p.tau)
  }

  lemma TimesDivisor(x: real, d: real)
    requires d != 0.0
    ensures (x / d) * d == x
  {
  }

  lemma Scaled(l: real, y: real, t: real, m: real, n: real)
    requires t != 0.0 && l * m == n
    ensures ((l - y / t) * t + y) * m == t * n
  {
    TimesDivisor(y, t);
    assert (l - y / t) * t == l * t - (y / t) * t;
    assert (l * t) * m == t * (l * m);
  }

  /** The objective is the function of step 5: with `e` for the exponential and `d` for
      `phi^2 + variance + e`, multiplied out it is `e * (improvement^2 - d)` over `2 * d^2`, less
      `(x - alpha)` over `tau^2`. */
  lemma ObjectiveEquation(exp: real -> real, p: Problem, alpha: real, x: real)
    requires p.Valid() && exp(x) > 0.0
    ensures var e, d, f := exp(x), p.phi * p.phi + p.variance + exp(x), Objective(exp, p, alpha, x);
            d > 0.0 &&
            (f * (p.tau * p.tau) + (x - alpha)) * (2.0 * d * d)
            == (p.tau * p.tau) * (e * (p.improvement * p.improvement - d))
  {
    SquareNonnegative(p.phi);
    var e, d := exp(x), p.phi * p.phi + p.variance + exp(x);
    DoubleSquarePositive(d);
    DoubleSquarePositive(p.tau);
    var l := Likelihood(e, p.ImprovementSquared(), p.PhiSquared(), p.variance);
    var n := e * (p.improvement * p.improvement - d);
    LikelihoodTimes(e, p.ImprovementSquared(), p.PhiSquared(), p.variance, d);
    Scaled(l, x - alpha, p.tau * p.tau, 2.0 * d * d, n);
  }

  lemma LikelihoodTimes(e: real, improvementSquared: real, phiSquared: real, variance: real, d: real)
    requires e > 0.0 && phiSquared >= 0.0 && variance > 0.0 && d == phiSquared + variance + e
    ensures Likelihood(e, improvementSquared, phiSquared, variance) * (2.0 * d * d) == e * (improvementSquared - d)
  {
    DoubleSquarePositive(d);
    assert improvementSquared - phiSquared - variance - e == improvementSquared - d;
    TimesDivisor(e * (improvementSquared - d), 2.0 * d * d);
  }

  // ---- signs ----

  /** The values change sign, or one of them is zero. */
  predicate SignChange(u: real, v: real) {
    u <= 0.0 <= v || v <= 0.0 <= u
  }

  predicate SameSign(u: real, v: real) {
    (u < 0.0 <==> v < 0.0) && (u > 0.0 <==> v > 0.0)
  }

  predicate Between(x: real, a: real, b: real) {
    a <= x <= b || b <= x <= a
  }

  function Abs(x: real): real {
    if x < 0.0 then -x else x
  }

  lemma SquareNonnegative(x: real)
    ensures x * x >= 0.0
  {
  }

  lemma DoubleSquarePositive(d: real)
    requires d > 0.0
    ensures 2.0 * d * d > 0.0 && d * d > 0.0
  {
  }

  lemma QuotientSign(x: real, d: real)
    requires d > 0.0
    ensures SameSign(x / d, x)
  {
    var q := x / d;
    assert q * d == x;
    if q > 0.0 { assert q * d > 0.0; }
    if q < 0.0 { assert q * d < 0.0; }
  }

  lemma ProductSign(e: real, x: real)
    requires e > 0.0
    ensures SameSign(e * x, x)
  {
  }

  lemma LikelihoodSign(e: real, improvementSquared: real, phiSquared: real, variance: real)
    requires e > 0.0 && phiSquared >= 0.0 && variance > 0.0
    ensures SameSign(Likelihood(e, improvementSquared, phiSquared, variance), improvementSquared - phiSquared - variance - e)
  {
    var d := phiSquared + variance + e;
    DoubleSquarePositive(d);
    var x := improvementSquared - phiSquared - variance - e;
    ProductSign(e, x);
    QuotientSign(e * x, 2.0 * d * d);
  }

  lemma LikelihoodBound(e: real, improvementSquared: real, phiSquared: real, variance: real)
    requires e > 0.0 && improvementSquared >= 0.0 && phiSquared >= 0.0 && variance > 0.0
    ensures Likelihood(e, improvementSquared, phiSquared, variance) > -0.5
  {
    var d := phiSquared + variance + e;
    DoubleSquarePositive(d);
    var x := improvementSquared - d;
    var m := 2.0 * d * d;
    assert Likelihood(e, improvementSquared, phiSquared, variance) == e * x / m;
    MulLeq(e, -d, x);
    MulLess(d, e, d);
    assert e * (-d) == -(d * e);
    assert e * x + 0.5 * m > 0.0;
    QuotientSign(e * x + 0.5 * m, m);
    QuotientShift(e * x, 0.5, m);
  }

  lemma QuotientShift(x: real, c: real, m: real)
    requires m > 0.0
    ensures (x + c * m) / m == x / m + c
  {
    var q := x / m;
    assert q * m == x;
    assert (q + c) * m == x + c * m;
  }

  lemma MulLeq(e: real, x: real, y: real)
    requires e > 0.0 && x <= y
    ensures e * x <= e * y
  {
  }

  lemma MulLess(e: real, x: real, y: real)
    requires e > 0.0 && x < y
    ensures e * x < e * y
  {
  }

  // ---- the initial bracket ----

  /** When the improvement is large, `ln(improvement^2 - phi^2 - variance)` and `alpha` bracket a root. */
  lemma LogarithmBrackets(exp: real -> real, ln: real -> real, p: Problem, alpha: real)
    requires ExpLn(exp, ln) && p.Valid()
    requires p.ImprovementSquared() > p.PhiSquared() + p.variance
    ensures var upper := ln(p.ImprovementSquared() - p.PhiSquared() - p.variance);
            SignChange(Objective(exp, p, alpha, alpha), Objective(exp, p, alpha, upper))
  {
    SquareNonnegative(p.phi);
    var gap := p.ImprovementSquared() - p.PhiSquared() - p.variance;
    var upper := ln(gap);
    assert exp(upper) == gap;
    AtAlpha(exp, p, alpha);
    LikelihoodSign(exp(upper), p.ImprovementSquared(), p.PhiSquared(), p.variance);
    DoubleSquarePositive(p.tau);
    QuotientSign(upper - alpha, p.tau * p.tau);
    hide Likelihood;
    if upper < alpha {
      assert exp(upper) < exp(alpha);
    } else if alpha < upper {
      assert exp(alpha) < exp(upper);
    }
  }

  lemma AtAlpha(exp: real -> real, p: Problem, alpha: real)
    requires p.Valid() && exp(alpha) > 0.0
    ensures SameSign(Objective(exp, p, alpha, alpha), p.ImprovementSquared() - p.PhiSquared() - p.variance - exp(alpha))
  {
    SquareNonnegative(p.phi);
    LikelihoodSign(exp(alpha), p.ImprovementSquared(), p.PhiSquared(), p.variance);
    DoubleSquarePositive(p.tau);
    QuotientSign(alpha - alpha, p.tau * p.tau);
    hide Likelihood;
  }

  /** Otherwise the objective is negative at `alpha` and already positive one `tau` below it, because
      `tau` is at most 2: the downward search always accepts its first candidate. */
  lemma FirstStepBrackets(exp: real -> real, ln: real -> real, p: Problem, alpha: real)
    requires ExpLn(exp, ln) && p.Valid()
    requires p.ImprovementSquared() <= p.PhiSquared() + p.variance
    ensures Objective(exp, p, alpha, alpha) < 0.0 < Objective(exp, p, alpha, alpha - p.tau)
  {
    SquareNonnegative(p.phi);
    SquareNonnegative(p.improvement);
    AtAlpha(exp, p, alpha);
    var x := alpha - p.tau;
    LikelihoodBound(exp(x), p.ImprovementSquared(), p.PhiSquared(), p.variance);
    hide Likelihood;
    DoubleSquarePositive(p.tau);
    StepTerm(p.tau);
    assert x - alpha == -p.tau;
  }

  lemma HalfSquare(t: real)
    requires 0.0 < t <= 2.0
    ensures -t + 0.5 * (t * t) <= 0.0
  {
    MulLeq(t, t, 2.0);
    assert t * t <= t * 2.0;
  }

  lemma StepTerm(t: real)
    requires 0.0 < t <= 2.0
    ensures t * t > 0.0 && (-t) / (t * t) <= -0.5
  {
    DoubleSquarePositive(t);
    HalfSquare(t);
    NegativeQuotient(-t, t * t);
  }

  lemma NegativeQuotient(x: real, m: real)
    requires m > 0.0 && x + 0.5 * m <= 0.0
    ensures x / m <= -0.5
  {
    QuotientSign(x + 0.5 * m, m);
    QuotientShift(x, 0.5, m);
  }

  // ---- one iteration ----

  /** The secant point of a sign-changing pair lies between the endpoints. */
  lemma SecantBetween(lower: real, upper: real, lowerValue: real, upperValue: real)
    requires SignChange(lowerValue, upperValue) && upperValue - lowerValue != 0.0
    ensures Between(lower + (lower - upper) * lowerValue / (upperValue - lowerValue), lower, upper)
  {
    var w := (lower - upper) * lowerValue / (upperValue - lowerValue);
    assert w * (upperValue - lowerValue) == (lower - upper) * lowerValue;
    MoveBetween(lower, upper, lowerValue, upperValue - lowerValue, w);
  }

  lemma MoveBetween(lower: real, upper: real, u: real, d: real, w: real)
    requires SignChange(u, u + d) && d != 0.0 && w * d == (lower - upper) * u
    ensures Between(lower + w, lower, upper)
  {
    var m := lower - upper;
    if d > 0.0 {
      Fraction(m, u, d, w);
    } else {
      Negated(w, d);
      Negated(m, u);
      Fraction(m, -u, -d, w);
    }
  }

  lemma Negated(x: real, y: real)
    ensures x * -y == -(x * y) && (-x) * y == -(x * y)
  {
  }

  /** `-m` scaled by `-u / d`, where `u` lies between `-d` and zero, moves at most to `-m`. */
  lemma Fraction(m: real, u: real, d: real, w: real)
    requires d > 0.0 && -d <= u <= 0.0 && w * d == m * u
    ensures Between(w, 0.0, -m)
  {
    Negated(m, d);
    Negated(m, u);
    assert 0.0 * d == 0.0;
    if m >= 0.0 {
      MulBetween(m, u, d);
      OrderedBy(w, 0.0, d, m * u, 0.0);
      OrderedBy(-m, w, d, -(m * d), m * u);
    } else {
      MulBetween(-m, u, d);
      OrderedBy(0.0, w, d, 0.0, m * u);
      OrderedBy(w, -m, d, m * u, -(m * d));
    }
  }

  lemma OrderedBy(x: real, y: real, d: real, xd: real, yd: real)
    requires d > 0.0 && xd == x * d && yd == y * d && xd <= yd
    ensures x <= y
  {
    DivideLeq(x, y, d);
  }

  lemma MulBetween(m: real, u: real, d: real)
    requires m >= 0.0 && -d <= u <= 0.0
    ensures -(m * d) <= m * u <= 0.0
  {
    assert m * (u + d) >= 0.0;
    assert m * (u + d) == m * u + m * d;
  }

  lemma DivideLeq(x: real, y: real, d: real)
    requires d > 0.0 && x * d <= y * d
    ensures x <= y
  {
    assert d * (y - x) == y * d - x * d;
    ProductSign(d, y - x);
  }

  lemma SameQuotient(x: real, y: real, d: real)
    requires d != 0.0 && x * d == y * d
    ensures x == y
  {
    assert (x - y) * d == 0.0;
  }

  /** The solver's state: two points and the values it holds for them. */
  datatype Bracket = Bracket(lower: real, upper: real, lowerValue: real, upperValue: real)

  /** The values change sign; the one at `upper` is exact, the one at `lower` has been halved some
      number of times and still has the sign of the objective there. */
  ghost predicate Brackets(exp: real -> real, p: Problem, alpha: real, b: Bracket)
    requires p.Valid() && forall x :: exp(x) > 0.0
  {
    && b.upperValue == Objective(exp, p, alpha, b.upper)
    && SameSign(b.lowerValue, Objective(exp, p, alpha, b.lower))
    && SignChange(b.lowerValue, b.upperValue)
  }

  lemma NestedTransitive(a: Bracket, b: Bracket, c: Bracket)
    requires Nested(a, b) && Nested(b, c)
    ensures Nested(a, c)
  {
  }

  predicate Nested(inner: Bracket, outer: Bracket) {
    Between(inner.lower, outer.lower, outer.upper) && Between(inner.upper, outer.lower, outer.upper)
  }

  function Candidate(b: Bracket): real
    requires b.upperValue - b.lowerValue != 0.0
  {
    b.lower + (b.lower - b.upper) * b.lowerValue / (b.upperValue - b.lowerValue)
  }

  /** One pass of the solver's loop. */
  function Iterate(exp: real -> real, p: Problem, alpha: real, b: Bracket): Bracket
    requires p.Valid() && b.upperValue - b.lowerValue != 0.0 && exp(Candidate(b)) > 0.0
  {
    var candidate := Candidate(b);
    var candidateValue := Objective(exp, p, alpha, candidate);
    if candidateValue * b.upperValue <= 0.0
    then Bracket(b.upper, candidate, b.upperValue, candidateValue)
    else Bracket(b.lower, candidate, b.lowerValue / 2.0, candidateValue)
  }

  lemma ProductSignChange(u: real, v: real)
    ensures u * v <= 0.0 <==> SignChange(u, v)
  {
    if u > 0.0 && v > 0.0 { assert u * v > 0.0; }
    if u < 0.0 && v < 0.0 { assert u * v > 0.0; }
  }

  lemma CandidateBetween(b: Bracket)
    requires SignChange(b.lowerValue, b.upperValue) && b.upperValue - b.lowerValue != 0.0
    ensures Between(Candidate(b), b.lower, b.upper)
  {
    hide Between;
    SecantBetween(b.lower, b.upper, b.lowerValue, b.upperValue);
  }

  /** Every pass keeps a sign change and stays inside the previous interval. */
  lemma IterateKeepsBracket(exp: real -> real, p: Problem, alpha: real, b: Bracket)
    requires p.Valid() && (forall x :: exp(x) > 0.0) && Brackets(exp, p, alpha, b)
    requires b.upperValue - b.lowerValue != 0.0
    ensures Brackets(exp, p, alpha, Iterate(exp, p, alpha, b))
    ensures Nested(Iterate(exp, p, alpha, b), b)
  {
    hide Objective, Candidate;
    CandidateBetween(b);
    ProductSignChange(Objective(exp, p, alpha, Candidate(b)), b.upperValue);
  }

  /** Where the new point lies, and what becomes of the old ones: it is the zero of the straight line
      through the two; the old upper end stays if the objective changes sign between it and the new
      point, and otherwise the lower end stays and its value is halved. */
  lemma PassIsSecant(exp: real -> real, p: Problem, alpha: real, b: Bracket)
    requires p.Valid() && (forall x :: exp(x) > 0.0) && b.upperValue - b.lowerValue != 0.0
    ensures var t := Iterate(exp, p, alpha, b);
            && (t.upper - b.lower) * (b.upperValue - b.lowerValue) == (b.lower - b.upper) * b.lowerValue
            && t.upperValue == Objective(exp, p, alpha, t.upper)
            && if SignChange(t.upperValue, b.upperValue)
               then t.lower == b.upper && t.lowerValue == b.upperValue
               else t.lower == b.lower && 2.0 * t.lowerValue == b.lowerValue
  {
    hide Objective;
    ProductSignChange(Objective(exp, p, alpha, Candidate(b)), b.upperValue);
    SecantZero(b);
  }

  lemma SecantZero(b: Bracket)
    requires b.upperValue - b.lowerValue != 0.0
    ensures (Candidate(b) - b.lower) * (b.upperValue - b.lowerValue) == (b.lower - b.upper) * b.lowerValue
  {
    var w := (b.lower - b.upper) * b.lowerValue / (b.upperValue - b.lowerValue);
    TimesDivisor((b.lower - b.upper) * b.lowerValue, b.upperValue - b.lowerValue);
    assert Candidate(b) - b.lower == w;
  }

  // ---- when the passes stop ----

  predicate Closed(p: Problem, b: Bracket) {
    Abs(b.upper - b.lower) <= p.tolerance
  }

  predicate Flat(b: Bracket) {
    Abs(b.upperValue - b.lowerValue) < EPSILON
  }

  /** The bracket after `i` passes; none once the passes have stopped. */
  ghost function AfterPasses(exp: real -> real, p: Problem, alpha: real, start: Bracket, i: nat): Option<Bracket>
    requires p.Valid() && forall x :: exp(x) > 0.0
  {
    if i == 0 then Some(start)
    else match AfterPasses(exp, p, alpha, start, i - 1)
      case None => None
      case Some(b) => if Closed(p, b) || Flat(b) then None else Some(Iterate(exp, p, alpha, b))
  }

  ghost predicate ClosesAt(exp: real -> real, p: Problem, alpha: real, start: Bracket, i: nat)
    requires p.Valid() && forall x :: exp(x) > 0.0
  {
    var b := AfterPasses(exp, p, alpha, start, i);
    i < 1_000 && b.Some? && Closed(p, b.value)
  }

  ghost predicate FlatAt(exp: real -> real, p: Problem, alpha: real, start: Bracket, i: nat)
    requires p.Valid() && forall x :: exp(x) > 0.0
  {
    var b := AfterPasses(exp, p, alpha, start, i);
    i < 1_000 && b.Some? && !Closed(p, b.value) && Flat(b.value)
  }

  lemma {:induction false} StopsOnce(exp: real -> real, p: Problem, alpha: real, start: Bracket, i: nat, j: nat)
    requires p.Valid() && (forall x :: exp(x) > 0.0) && i < j
    requires AfterPasses(exp, p, alpha, start, i).Some?
    requires var b := AfterPasses(exp, p, alpha, start, i).value; Closed(p, b) || Flat(b)
    ensures AfterPasses(exp, p, alpha, start, j).None?
  {
    hide Closed, Flat, Iterate;
    if i + 1 < j {
      StopsOnce(exp, p, alpha, start, i, j - 1);
    }
  }

  /** At most one pass is the last. */
  lemma OneEnd(exp: real -> real, p: Problem, alpha: real, start: Bracket, i: nat, j: nat)
    requires p.Valid() && (forall x :: exp(x) > 0.0)
    requires AfterPasses(exp, p, alpha, start, i).Some? && AfterPasses(exp, p, alpha, start, j).Some?
    requires var b := AfterPasses(exp, p, alpha, start, i).value; Closed(p, b) || Flat(b)
    requires i != j
    ensures j < i
  {
    hide AfterPasses, Closed, Flat;
    if i < j {
      StopsOnce(exp, p, alpha, start, i, j);
    }
  }

  ghost function Start(exp: real -> real, ln: real -> real, p: Problem): Bracket
    requires p.Valid() && ExpLn(exp, ln)
  {
    var alpha, upper := ln(p.VolatilitySquared()), InitialUpper(exp, ln, p);
    Bracket(alpha, upper, Objective(exp, p, alpha, alpha), Objective(exp, p, alpha, upper))
  }

  /** The passes either reach the tolerance, or a flat bracket, or neither within a thousand. */
  ghost predicate Outcome(exp: real -> real, ln: real -> real, p: Problem, r: Result<real, SolverError>)
    requires p.Valid() && ExpLn(exp, ln)
  {
    var alpha, start := ln(p.VolatilitySquared()), Start(exp, ln, p);
    match r
    case Ok(volatility) =>
      exists i :: ClosesAt(exp, p, alpha, start, i)
                  && volatility == exp(AfterPasses(exp, p, alpha, start, i).value.lower / 2.0)
    case Err(Degenerate) => exists i :: FlatAt(exp, p, alpha, start, i)
    case Err(NotConverged) => AfterPasses(exp, p, alpha, start, 1_000).Some?
    case Err(_) => false
  }

  lemma EndsDiffer(exp: real -> real, p: Problem, alpha: real, start: Bracket, i: nat, j: nat)
    requires p.Valid() && (forall x :: exp(x) > 0.0)
    requires ClosesAt(exp, p, alpha, start, i)
    ensures !FlatAt(exp, p, alpha, start, j)
    ensures ClosesAt(exp, p, alpha, start, j) ==> i == j
  {
    hide AfterPasses, Closed, Flat;
    if FlatAt(exp, p, alpha, start, j) || ClosesAt(exp, p, alpha, start, j) {
      if i != j {
        OneEnd(exp, p, alpha, start, i, j);
        OneEnd(exp, p, alpha, start, j, i);
      }
    }
  }

  /** The inputs leave no choice of outcome. */
  lemma OutcomeUnique(exp: real -> real, ln: real -> real, p: Problem, r: Result<real, SolverError>, q: Result<real, SolverError>)
    requires p.Valid() && ExpLn(exp, ln) && Outcome(exp, ln, p, r) && Outcome(exp, ln, p, q)
    ensures r == q
  {
    var alpha, start := ln(p.VolatilitySquared()), Start(exp, ln, p);
    hide AfterPasses, ClosesAt, FlatAt, Start;
    forall i, j | ClosesAt(exp, p, alpha, start, i) ensures !FlatAt(exp, p, alpha, start, j)
      ensures ClosesAt(exp, p, alpha, start, j) ==> i == j
    {
      EndsDiffer(exp, p, alpha, start, i, j);
    }
    forall i | ClosesAt(exp, p, alpha, start, i) || FlatAt(exp, p, alpha, start, i)
      ensures AfterPasses(exp, p, alpha, start, 1_000).None?
    {
      EndedEarly(exp, p, alpha, start, i);
    }
  }

  lemma EndedEarly(exp: real -> real, p: Problem, alpha: real, start: Bracket, i: nat)
    requires p.Valid() && (forall x :: exp(x) > 0.0)
    requires ClosesAt(exp, p, alpha, start, i) || FlatAt(exp, p, alpha, start, i)
    ensures AfterPasses(exp, p, alpha, start, 1_000).None?
  {
    hide AfterPasses;
    StopsOnce(exp, p, alpha, start, i, 1_000);
  }

  // ---- the solver ----

  /** `result` is `exp(x/2)` for an endpoint `x` of an interval no longer than the tolerance over
      which the objective changes sign, inside the initial bracket. */
  ghost predicate NearSignChange(exp: real -> real, ln: real -> real, p: Problem, result: real)
    requires p.Valid() && ExpLn(exp, ln)
  {
    exists x, y :: EndsAt(exp, ln, p, x, y, result)
  }

  ghost predicate EndsAt(exp: real -> real, ln: real -> real, p: Problem, x: real, y: real, result: real)
    requires p.Valid() && ExpLn(exp, ln)
  {
    Straddles(exp, ln, p, ln(p.VolatilitySquared()), x, y) && result == exp(x / 2.0)
  }

  ghost predicate Straddles(exp: real -> real, ln: real -> real, p: Problem, alpha: real, x: real, y: real)
    requires p.Valid() && ExpLn(exp, ln)
  {
    && Abs(y - x) <= p.tolerance
    && SignChange(Objective(exp, p, alpha, x), Objective(exp, p, alpha, y))
    && Between(x, alpha, InitialUpper(exp, ln, p)) && Between(y, alpha, InitialUpper(exp, ln, p))
  }

  ghost function InitialUpper(exp: real -> real, ln: real -> real, p: Problem): real {
    if p.ImprovementSquared() > p.PhiSquared() + p.variance
    then ln(p.ImprovementSquared() - p.PhiSquared() - p.variance)
    else ln(p.VolatilitySquared()) - p.tau
  }

  /** The search for the second endpoint never fails and ends at the first candidate. */
  method FindUpper(exp: real -> real, ln: real -> real, p: Problem, alpha: real) returns (r: Result<real, SolverError>)
    requires ExpLn(exp, ln) && p.Valid() && alpha == ln(p.VolatilitySquared())
    ensures r == Ok(InitialUpper(exp, ln, p))
    ensures SignChange(Objective(exp, p, alpha, alpha), Objective(exp, p, alpha, InitialUpper(exp, ln, p)))
  {
    hide Objective;
    if p.ImprovementSquared() > p.PhiSquared() + p.variance {
      LogarithmBrackets(exp, ln, p, alpha);
      return Ok(ln(p.ImprovementSquared() - p.PhiSquared() - p.variance));
    }
    var step := 1;
    while true
      invariant 1 <= step <= MAX_ITERATIONS
      invariant step > 1 ==> Objective(exp, p, alpha, alpha - p.tau) < 0.0
      decreases MAX_ITERATIONS - step
    {
      var candidate := alpha - step as real * p.tau;
      assert step == 1 ==> candidate == alpha - p.tau;
      if Objective(exp, p, alpha, candidate) >= 0.0 {
        FirstStepBrackets(exp, ln, p, alpha);
        return Ok(candidate);
      }
      step := step + 1;
      if step > MAX_ITERATIONS {
        FirstStepBrackets(exp, ln, p, alpha);
        return Err(BracketSearchFailed);
      }
    }
  }

  lemma FinalBracket(exp: real -> real, ln: real -> real, p: Problem, alpha: real, b: Bracket, result: real)
    requires ExpLn(exp, ln) && p.Valid() && alpha == ln(p.VolatilitySquared())
    requires Brackets(exp, p, alpha, b) && Abs(b.upper - b.lower) <= p.tolerance
    requires Nested(b, Bracket(alpha, InitialUpper(exp, ln, p), 0.0, 0.0)) && result == exp(b.lower / 2.0)
    ensures NearSignChange(exp, ln, p, result)
  {
    hide Objective, InitialUpper, ExpLn;
    var x, y := b.lower, b.upper;
    assert Straddles(exp, ln, p, alpha, x, y);
    assert EndsAt(exp, ln, p, x, y, result);
  }

  /** Bracket search and result checks never fail; an answer is within tolerance of a sign change. */
  method SolveVolatility(exp: real -> real, ln: real -> real, p: Problem) returns (r: Result<real, SolverError>)
    requires ExpLn(exp, ln) && p.Valid()
    ensures r.Ok? ==> r.value > 0.0 && NearSignChange(exp, ln, p, r.value)
    ensures r.Err? ==> r.error == Degenerate || r.error == NotConverged
    ensures Outcome(exp, ln, p, r)
  {
    hide Objective, InitialUpper, Nested, NearSignChange, Candidate, Iterate, Brackets;
    var alpha := ln(p.VolatilitySquared());
    var lower := alpha;
    var found := FindUpper(exp, ln, p, alpha);
    var upper := found.value;
    var lowerValue := Objective(exp, p, alpha, lower);
    var upperValue := Objective(exp, p, alpha, upper);
    ghost var initial := Bracket(lower, upper, 0.0, 0.0);
    NestedInItself(Bracket(lower, upper, lowerValue, upperValue), initial);
    ghost var start := Start(exp, ln, p);
    StartBrackets(exp, ln, p);
    hide AfterPasses, Start;
    for i := 0 to MAX_ITERATIONS
      invariant Brackets(exp, p, alpha, Bracket(lower, upper, lowerValue, upperValue))
      invariant Nested(Bracket(lower, upper, lowerValue, upperValue), initial)
      invariant AfterPasses(exp, p, alpha, start, i) == Some(Bracket(lower, upper, lowerValue, upperValue))
    {
      ghost var before := Bracket(lower, upper, lowerValue, upperValue);
      if Abs(upper - lower) <= p.tolerance {
        var result := exp(lower / 2.0);
        if result > 0.0 {
          FinalBracket(exp, ln, p, alpha, before, result);
          assert ClosesAt(exp, p, alpha, start, i);
          return Ok(result);
        }
        return Err(InvalidResult);
      }
      var denominator := upperValue - lowerValue;
      if Abs(denominator) < EPSILON {
        assert FlatAt(exp, p, alpha, start, i);
        return Err(Degenerate);
      }
      PassAdvances(exp, ln, p, alpha, start, initial, before, i);
      var candidate := Candidate(Bracket(lower, upper, lowerValue, upperValue));
      var candidateValue := Objective(exp, p, alpha, candidate);
      if candidateValue * upperValue <= 0.0 {
        lower := upper;
        lowerValue := upperValue;
      } else {
        lowerValue := lowerValue / 2.0;
      }
      upper := candidate;
      upperValue := candidateValue;
    }
    return Err(NotConverged);
  }

  /** One pass, as the solver writes it, goes from one bracket of the trajectory to the next. */
  lemma PassAdvances(exp: real -> real, ln: real -> real, p: Problem, alpha: real, start: Bracket, initial: Bracket, b: Bracket, i: nat)
    requires ExpLn(exp, ln) && p.Valid() && AfterPasses(exp, p, alpha, start, i) == Some(b)
    requires Brackets(exp, p, alpha, b) && Nested(b, initial) && !Closed(p, b) && !Flat(b)
    ensures b.upperValue - b.lowerValue != 0.0
    ensures var c := Candidate(b); var v := Objective(exp, p, alpha, c);
            var next := if v * b.upperValue <= 0.0 then Bracket(b.upper, c, b.upperValue, v)
                        else Bracket(b.lower, c, b.lowerValue / 2.0, v);
            && Brackets(exp, p, alpha, next) && Nested(next, initial)
            && AfterPasses(exp, p, alpha, start, i + 1) == Some(next)
  {
    hide Objective, Candidate, Brackets, Nested, Iterate;
    IterateKeepsBracket(exp, p, alpha, b);
    NestedTransitive(Iterate(exp, p, alpha, b), b, initial);
    IterateIs(exp, p, alpha, b);
  }

  lemma StartBrackets(exp: real -> real, ln: real -> real, p: Problem)
    requires p.Valid() && ExpLn(exp, ln)
    requires SignChange(Start(exp, ln, p).lowerValue, Start(exp, ln, p).upperValue)
    ensures Brackets(exp, p, ln(p.VolatilitySquared()), Start(exp, ln, p))
  {
    hide Objective;
  }

  lemma IterateIs(exp: real -> real, p: Problem, alpha: real, b: Bracket)
    requires p.Valid() && (forall x :: exp(x) > 0.0) && b.upperValue - b.lowerValue != 0.0
    ensures var c := Candidate(b); var v := Objective(exp, p, alpha, c);
            Iterate(exp, p, alpha, b) ==
            if v * b.upperValue <= 0.0 then Bracket(b.upper, c, b.upperValue, v)
            else Bracket(b.lower, c, b.lowerValue / 2.0, v)
  {
    hide Objective, Candidate;
  }

  lemma NestedInItself(a: Bracket, b: Bracket)
    requires a.lower == b.lower && a.upper == b.upper
    ensures Nested(a, b)
  {
  }

  // ---- the premise is satisfiable ----

  function SampleExp(x: real): real {
    if x >= 0.0 then 1.0 + x else 1.0 / (1.0 - x)
  }

  function SampleLn(y: real): real {
    if y >= 1.0 || y <= 0.0 then y - 1.0 else 1.0 - 1.0 / y
  }

  lemma ReciprocalOrder(a: real, b: real)
    requires 0.0 < a < b
    ensures 0.0 < 1.0 / b < 1.0 / a
  {
    var u, v := 1.0 / a, 1.0 / b;
    assert u * a == 1.0 && v * b == 1.0;
    QuotientSign(1.0, b);
    MulLess(v, a, b);
    assert a * (u - v) == u * a - v * a;
    ProductSign(a, u - v);
  }

  lemma SampleExpOrder(x: real, y: real)
    requires x < y
    ensures 0.0 < SampleExp(x) < SampleExp(y)
  {
    if y < 0.0 {
      ReciprocalOrder(1.0 - y, 1.0 - x);
      ReciprocalOrder(1.0, 1.0 - x);
    } else if x < 0.0 {
      ReciprocalOrder(1.0, 1.0 - x);
    }
  }

  lemma SampleInverse(y: real)
    requires y > 0.0
    ensures SampleExp(SampleLn(y)) == y
  {
    if y < 1.0 {
      ReciprocalOrder(y, 1.0);
      var u := 1.0 / y;
      assert u * y == 1.0;
      SameQuotient(1.0 / u, y, u);
    }
  }

  /** `ExpLn` asks for no more than some pair of functions provides. */
  lemma PremiseSatisfiable()
    ensures ExpLn(SampleExp, SampleLn)
  {
    hide SampleExp, SampleLn;
    forall x ensures SampleExp(x) > 0.0 {
      SampleExpOrder(x, x + 1.0);
    }
    forall x, y | x < y ensures SampleExp(x) < SampleExp(y) {
      SampleExpOrder(x, y);
    }
    forall y | y > 0.0 ensures SampleExp(SampleLn(y)) == y {
      SampleInverse(y);
    }
  }
}
