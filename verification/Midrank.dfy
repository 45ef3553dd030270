/** Midrank percentiles of contributions within a cohort
    (crates/mindone-accounting/src/routing.rs, `contribution_midrank_percentiles`). */
module Midrank {
  import opened Machine
  import opened Ordering
  import opened Division

  const PERCENTILE_SCALE := 1_000_000

  function Less(s: seq<int>, c: int): (n: nat)
    ensures n <= |s|
  {
    if s == [] then 0 else (if s[0] < c then 1 else 0) + Less(s[1..], c)
  }

  function Equal(s: seq<int>, c: int): (n: nat)
    ensures n <= |s|
  {
    if s == [] then 0 else (if s[0] == c then 1 else 0) + Equal(s[1..], c)
  }

  /** Twice the midrank of `c`, counted from zero. */
  function DoubleMidrank(s: seq<int>, c: int): int {
    2 * Less(s, c) + Equal(s, c) - 1
  }

  function Percentile(s: seq<int>, c: int): int
    requires |s| >= 2
  {
    DoubleMidrank(s, c) * PERCENTILE_SCALE / (2 * (|s| - 1))
  }

  // ---- counting ----

  lemma {:induction false} CountsSplit(s: seq<int>, c: int, d: int)
    requires c < d
    ensures Less(s, c) + Equal(s, c) <= Less(s, d) && Less(s, d) + Equal(s, d) <= |s|
  {
    if s != [] {
      CountsSplit(s[1..], c, d);
    }
  }

  lemma {:induction false} NoneBetween(s: seq<int>, c: int, d: int)
    requires c < d && forall x :: x in s ==> !(c < x < d)
    ensures Less(s, d) == Less(s, c) + Equal(s, c)
  {
    if s != [] {
      assert s[0] in s && forall x :: x in s[1..] ==> x in s;
      NoneBetween(s[1..], c, d);
    }
  }

  lemma {:induction false} NoneBelow(s: seq<int>, c: int)
    requires forall x :: x in s ==> c <= x
    ensures Less(s, c) == 0
  {
    if s != [] {
      assert s[0] in s && forall x :: x in s[1..] ==> x in s;
      NoneBelow(s[1..], c);
    }
  }

  lemma {:induction false} EqualPositive(s: seq<int>, c: int)
    ensures c in s <==> Equal(s, c) >= 1
  {
    if s != [] {
      EqualPositive(s[1..], c);
      assert s == [s[0]] + s[1..];
    }
  }

  /** Every percentile lies in `0..=scale`. */
  lemma PercentileInRange(s: seq<int>, c: int)
    requires |s| >= 2 && c in s
    ensures 0 <= Percentile(s, c) <= PERCENTILE_SCALE
  {
    EqualPositive(s, c);
    CountsSplit(s, c, c + 1);
    var d := 2 * (|s| - 1);
    assert 0 <= DoubleMidrank(s, c) <= d;
    QuotientWithin(DoubleMidrank(s, c) * PERCENTILE_SCALE, d, PERCENTILE_SCALE);
  }

  // ---- the percentile pass ----

  predicate Smallest(k: int, rest: set<int>) {
    k in rest && forall x :: x in rest ==> k <= x
  }

  lemma MinimumIsThere(s: set<int>)
    requires s != {}
    ensures exists k :: k in s && Smallest(k, s)
  {
    var k := LeastExists((x: int, y: int) => x <= y, s);
    assert k in s && Smallest(k, s);
  }

  /** The percentile of one value of the table: the conversion to 32 bits never falls back. */
  method PercentileOfTies(lower: int, tied: int, cohortSize: int, ghost s: seq<int>, ghost c: int) returns (percentile: int)
    requires cohortSize == |s| >= 2 && c in s && lower == Less(s, c) && tied == Equal(s, c)
    ensures percentile == Percentile(s, c)
  {
    var numerator := (2 * lower + tied - 1) * PERCENTILE_SCALE;
    var denominator := 2 * (cohortSize - 1);
    PercentileInRange(s, c);
    var quotient := numerator / denominator;
    percentile := if quotient <= U32_MAX then quotient else PERCENTILE_SCALE;
  }

  function Values(s: seq<int>): set<int> {
    set c | c in s
  }

  ghost predicate Tabulates(frequencies: map<int, nat>, s: seq<int>) {
    && frequencies.Keys == Values(s)
    && forall c :: c in frequencies ==> frequencies[c] == Equal(s, c)
  }

  ghost predicate AllPercentiles(percentiles: map<int, int>, s: seq<int>) {
    forall c :: c in percentiles ==> |s| >= 2 && percentiles[c] == Percentile(s, c)
  }

  lemma Tied(frequencies: map<int, nat>, s: seq<int>, c: int)
    requires Tabulates(frequencies, s) && c in frequencies && |s| != 1
    ensures c in s && |s| >= 2 && frequencies[c] == Equal(s, c)
  {
  }

  lemma OneMore(percentiles: map<int, int>, s: seq<int>, c: int, percentile: int)
    requires AllPercentiles(percentiles, s) && |s| >= 2 && percentile == Percentile(s, c)
    ensures AllPercentiles(percentiles[c := percentile], s)
  {
  }

  /** The pass over the frequency table in ascending order. It is never reached for a cohort of one,
      where the denominator would be zero. */
  method MidrankPercentiles(contributions: seq<int>) returns (percentiles: map<int, int>)
    requires |contributions| != 1
    ensures percentiles.Keys == Values(contributions) && AllPercentiles(percentiles, contributions)
  {
    hide Values;
    var frequencies := Frequencies(contributions);
    assert AllPercentiles(map[], contributions);
    assert frequencies.Keys == Values(contributions);
    var cohortSize := |contributions|;
    var lower := 0;
    var rest := frequencies.Keys;
    percentiles := map[];
    PassStarts(contributions);
    hide *;
    while rest != {}
      invariant rest <= frequencies.Keys && percentiles.Keys == frequencies.Keys - rest
      invariant Above(contributions, rest) && LowerIs(contributions, rest, lower)
      invariant AllPercentiles(percentiles, contributions)
      decreases |rest|
    {
      MinimumIsThere(rest);
      var contribution :| contribution in rest && Smallest(contribution, rest);
      Tied(frequencies, contributions, contribution);
      var tied := frequencies[contribution];
      PassSteps(contributions, rest, contribution, lower);
      var percentile := PercentileOfTies(lower, tied, cohortSize, contributions, contribution);
      OneMore(percentiles, contributions, contribution, percentile);
      percentiles := percentiles[contribution := percentile];
      lower := lower + tied;
      rest := rest - {contribution};
    }
  }

  /** What the pass has put behind it lies below everything still to come. */
  ghost predicate Above(s: seq<int>, rest: set<int>) {
    forall x, y :: x in s && x !in rest && y in rest ==> x < y
  }

  /** `lower` counts the members below the next contribution of the pass. */
  ghost predicate LowerIs(s: seq<int>, rest: set<int>, lower: int) {
    forall k :: Smallest(k, rest) ==> lower == Less(s, k)
  }

  lemma PassStarts(s: seq<int>)
    ensures Above(s, Values(s)) && LowerIs(s, Values(s), 0)
  {
    var rest := Values(s);
    forall k | Smallest(k, rest) ensures 0 == Less(s, k) {
      forall x | x in s ensures k <= x {
        assert x in rest;
      }
      NoneBelow(s, k);
    }
  }

  lemma PassSteps(s: seq<int>, rest: set<int>, next: int, lower: int)
    requires Above(s, rest) && LowerIs(s, rest, lower) && Smallest(next, rest)
    ensures lower == Less(s, next)
    ensures Above(s, rest - {next}) && LowerIs(s, rest - {next}, lower + Equal(s, next))
  {
    forall k | Smallest(k, rest - {next}) ensures lower + Equal(s, next) == Less(s, k) {
      NextLower(s, rest, next, k);
    }
  }

  lemma NextLower(s: seq<int>, rest: set<int>, next: int, k: int)
    requires Above(s, rest) && Smallest(next, rest) && Smallest(k, rest - {next})
    ensures Less(s, k) == Less(s, next) + Equal(s, next)
  {
    hide Less, Equal;
    forall x | x in s ensures !(next < x < k) {
      if next < x {
        assert x in rest - {next};
      }
    }
    NoneBetween(s, next, k);
  }

  method Frequencies(contributions: seq<int>) returns (frequencies: map<int, nat>)
    ensures Tabulates(frequencies, contributions)
  {
    frequencies := map[];
    for i := 0 to |contributions|
      invariant frequencies.Keys == set c | c in contributions[..i]
      invariant forall c :: c in frequencies ==> frequencies[c] == Equal(contributions[..i], c)
    {
      var c := contributions[i];
      assert contributions[..i + 1] == contributions[..i] + [c];
      forall d ensures Equal(contributions[..i + 1], d) == Equal(contributions[..i], d) + if c == d then 1 else 0 {
        EqualAppend(contributions[..i], c, d);
      }
      EqualPositive(contributions[..i], c);
      frequencies := frequencies[c := (if c in frequencies then frequencies[c] else 0) + 1];
    }
    assert contributions[..|contributions|] == contributions;
  }

  lemma {:induction false} EqualAppend(s: seq<int>, c: int, d: int)
    ensures Equal(s + [c], d) == Equal(s, d) + if c == d then 1 else 0
  {
    if s == [] {
      assert s + [c] == [c];
    } else {
      assert (s + [c])[1..] == s[1..] + [c];
      EqualAppend(s[1..], c, d);
    }
  }

  // ---- what the percentiles mean ----

  function Greater(s: seq<int>, c: int): nat {
    if s == [] then 0 else (if s[0] > c then 1 else 0) + Greater(s[1..], c)
  }

  function SumDoubleMidrank(a: seq<int>, s: seq<int>): int {
    if a == [] then 0 else DoubleMidrank(s, a[0]) + SumDoubleMidrank(a[1..], s)
  }

  lemma {:induction false} SumAddOne(a: seq<int>, y: int, t: seq<int>)
    ensures SumDoubleMidrank(a, [y] + t) == SumDoubleMidrank(a, t) + 2 * Greater(a, y) + Equal(a, y)
  {
    if a != [] {
      SumAddOne(a[1..], y, t);
      assert ([y] + t)[1..] == t;
    }
  }

  lemma {:induction false} Trichotomy(s: seq<int>, c: int)
    ensures Less(s, c) + Equal(s, c) + Greater(s, c) == |s|
  {
    if s != [] {
      Trichotomy(s[1..], c);
    }
  }

  lemma NextPair(n: int)
    ensures (n + 1) * (n + 1 - 1) == n * (n - 1) + 2 * n
  {
  }

  /** The numerators of the percentiles of `a` within the cohort `s`, summed. */
  function SumNumerators(a: seq<int>, s: seq<int>): int {
    if a == [] then 0 else DoubleMidrank(s, a[0]) * PERCENTILE_SCALE + SumNumerators(a[1..], s)
  }

  lemma {:induction false} ScaleOut(a: seq<int>, s: seq<int>)
    ensures SumNumerators(a, s) == SumDoubleMidrank(a, s) * PERCENTILE_SCALE
  {
    hide DoubleMidrank;
    if a != [] {
      ScaleOut(a[1..], s);
    }
  }

  /** The midranks of a cohort average out, whatever the ties. */
  lemma {:induction false} MidranksSum(s: seq<int>)
    ensures SumDoubleMidrank(s, s) == |s| * (|s| - 1)
  {
    if s != [] {
      var y, t := s[0], s[1..];
      assert s == [y] + t;
      assert DoubleMidrank(s, y) == 2 * Less(t, y) + Equal(t, y);
      MidranksSum(t);
      SumAddOne(t, y, t);
      Trichotomy(t, y);
      assert SumDoubleMidrank(s, s) == DoubleMidrank(s, y) + SumDoubleMidrank(t, s);
      hide SumDoubleMidrank, DoubleMidrank, Less, Equal, Greater;
      NextPair(|t|);
    }
  }

  /** Summed over a cohort, the numerators of the percentiles are `n(n-1)` times the scale. */
  lemma NumeratorsSum(s: seq<int>)
    ensures SumNumerators(s, s) == |s| * (|s| - 1) * PERCENTILE_SCALE
  {
    ScaleOut(s, s);
    MidranksSum(s);
  }

  /** What a percentile is: twice the excess of the members below over the members above, seen from the
      middle of the cohort, on a scale where the whole cohort is the scale; rounded down. */
  lemma PercentileFloor(s: seq<int>, c: int)
    requires |s| >= 2
    ensures var n, p := |s|, Percentile(s, c);
            2 * (n - 1) * p <= (Less(s, c) + n - 1 - Greater(s, c)) * PERCENTILE_SCALE < 2 * (n - 1) * (p + 1)
  {
    Trichotomy(s, c);
    var d, x := 2 * (|s| - 1), DoubleMidrank(s, c) * PERCENTILE_SCALE;
    assert DoubleMidrank(s, c) == Less(s, c) + |s| - 1 - Greater(s, c);
    hide Less, Equal, Greater, DoubleMidrank;
    FloorOf(x, d);
  }

  lemma FloorOf(x: int, d: int)
    requires d > 0
    ensures d * (x / d) <= x < d * (x / d + 1)
  {
    Cancel(d, x / d, x / d);
  }

  function Negated(s: seq<int>): seq<int> {
    if s == [] then [] else [-s[0]] + Negated(s[1..])
  }

  lemma {:induction false} NegatedCounts(s: seq<int>, c: int)
    ensures |Negated(s)| == |s|
    ensures Less(Negated(s), -c) == Greater(s, c) && Equal(Negated(s), -c) == Equal(s, c)
    ensures Greater(Negated(s), -c) == Less(s, c)
  {
    if s != [] {
      NegatedCounts(s[1..], c);
      assert Negated(s)[1..] == Negated(s[1..]);
    }
  }

  /** Turning a cohort upside down turns its percentiles upside down: the two add up to the scale, less
      one where rounding bites. */
  lemma PercentilesMirror(s: seq<int>, c: int)
    requires |s| >= 2
    ensures |Negated(s)| == |s|
    ensures Percentile(s, c) + Percentile(Negated(s), -c) ==
            if (Less(s, c) + |s| - 1 - Greater(s, c)) * PERCENTILE_SCALE % (2 * (|s| - 1)) == 0
            then PERCENTILE_SCALE else PERCENTILE_SCALE - 1
  {
    NegatedCounts(s, c);
    Trichotomy(s, c);
    var d := 2 * (|s| - 1);
    var x := (Less(s, c) + |s| - 1 - Greater(s, c)) * PERCENTILE_SCALE;
    var y := (Greater(s, c) + |s| - 1 - Less(s, c)) * PERCENTILE_SCALE;
    PercentileIsQuotient(s, c);
    PercentileIsQuotient(Negated(s), -c);
    assert x + y == d * PERCENTILE_SCALE;
    QuotientsAddUp(x, y, d, PERCENTILE_SCALE);
  }

  lemma PercentileIsQuotient(s: seq<int>, c: int)
    requires |s| >= 2
    ensures Percentile(s, c) == (Less(s, c) + |s| - 1 - Greater(s, c)) * PERCENTILE_SCALE / (2 * (|s| - 1))
  {
    Trichotomy(s, c);
    assert DoubleMidrank(s, c) == Less(s, c) + |s| - 1 - Greater(s, c);
  }

  /** The percentiles of the members of `a` within the cohort `s`, summed. */
  function SumPercentiles(a: seq<int>, s: seq<int>): int
    requires |s| >= 2
  {
    if a == [] then 0 else Percentile(s, a[0]) + SumPercentiles(a[1..], s)
  }

  lemma {:induction false} SumFloors(a: seq<int>, s: seq<int>)
    requires |s| >= 2
    ensures var d, p, x := 2 * (|s| - 1), SumPercentiles(a, s), SumNumerators(a, s);
            d * p <= x && x <= d * (p + |a|) && (a != [] ==> x < d * (p + |a|))
  {
    hide DoubleMidrank;
    if a != [] {
      SumFloors(a[1..], s);
      var d, p, q := 2 * (|s| - 1), Percentile(s, a[0]), SumPercentiles(a[1..], s);
      FloorOf(DoubleMidrank(s, a[0]) * PERCENTILE_SCALE, d);
      assert d * (p + q) == d * p + d * q;
      assert d * (p + q + |a|) == d * (p + 1) + d * (q + |a| - 1);
    }
  }

  /** The percentiles of a cohort average half the scale, up to the rounding down of each. */
  lemma PercentilesAverage(s: seq<int>)
    requires |s| >= 2
    ensures var p := SumPercentiles(s, s);
            2 * p <= |s| * PERCENTILE_SCALE < 2 * (p + |s|)
  {
    NumeratorsSum(s);
    SumFloors(s, s);
    var n, p := |s|, SumPercentiles(s, s);
    hide SumPercentiles, SumNumerators, PERCENTILE_SCALE;
    Regroup(2, n - 1, p);
    Regroup(2, n - 1, p + n);
    Regroup(n, n - 1, PERCENTILE_SCALE);
    HalveBounds(n - 1, 2 * p, n * PERCENTILE_SCALE, 2 * (p + n));
  }

  lemma Regroup(a: int, m: int, b: int)
    ensures a * m * b == m * (a * b)
  {
  }

  lemma HalveBounds(m: int, a: int, x: int, b: int)
    requires m > 0 && m * a <= m * x < m * b
    ensures a <= x < b
  {
    Cancel(m, x, b);
    SmallerProduct(m, x, a);
  }

  lemma SmallerProduct(d: int, a: int, b: int)
    requires d > 0
    ensures a < b ==> d * a < d * b
  {
    assert d * b - d * a == d * (b - a);
  }

  /** Larger contributions rank no lower, and strictly higher while the cohort is no finer than the
      scale. */
  lemma LargerRanksHigher(s: seq<int>, c: int, d: int)
    requires |s| >= 2 && c in s && d in s && c < d
    ensures Percentile(s, c) <= Percentile(s, d)
    ensures |s| - 1 <= PERCENTILE_SCALE ==> Percentile(s, c) < Percentile(s, d)
  {
    EqualPositive(s, c);
    EqualPositive(s, d);
    CountsSplit(s, c, d);
    var den := 2 * (|s| - 1);
    var x, y := DoubleMidrank(s, c) * PERCENTILE_SCALE, DoubleMidrank(s, d) * PERCENTILE_SCALE;
    assert y >= x + 2 * PERCENTILE_SCALE;
    if |s| - 1 <= PERCENTILE_SCALE {
      QuotientApart(x, y, den);
    } else {
      QuotientMonotone(x, y, den);
    }
  }

  /** Two small contributions below a crowd of equal larger ones. */
  function Staircase(n: nat): seq<int>
    requires n >= 2
  {
    [0, 1] + seq(n - 2, _ => 2)
  }

  lemma {:induction false} CrowdCounts(k: nat)
    ensures Less(seq(k, _ => 2), 0) == Less(seq(k, _ => 2), 1) == 0
    ensures Equal(seq(k, _ => 2), 0) == Equal(seq(k, _ => 2), 1) == 0
  {
    if k > 0 {
      assert seq(k, _ => 2)[1..] == seq(k - 1, _ => 2);
      CrowdCounts(k - 1);
    }
  }

  ghost predicate StrictFor(n: nat)
    requires n >= 2
  {
    forall s, c, d :: |s| == n && c in s && d in s && c < d ==> Percentile(s, c) < Percentile(s, d)
  }

  /** The bound is exact: percentiles separate all different contributions in every cohort of size
      `n` if and only if `n - 1` is at most the scale. */
  lemma StrictExactly(n: nat)
    requires n >= 2
    ensures StrictFor(n) <==> n - 1 <= PERCENTILE_SCALE
  {
    if n - 1 <= PERCENTILE_SCALE {
      forall s, c, d | |s| == n && c in s && d in s && c < d ensures Percentile(s, c) < Percentile(s, d) {
        LargerRanksHigher(s, c, d);
      }
    } else {
      var s := Staircase(n);
      var crowd := seq(n - 2, _ => 2);
      CrowdCounts(n - 2);
      assert s[1..] == [1] + crowd && s[1..][1..] == crowd;
      assert s[0] == 0 && s[1] == 1;
      assert Less(s, 0) == Less(s[1..], 0) == Less(crowd, 0) && Equal(s, 0) == 1 + Equal(s[1..], 0) == 1 + Equal(crowd, 0);
      assert Less(s, 1) == 1 + Less(s[1..], 1) == 1 + Less(crowd, 1) && Equal(s, 1) == Equal(s[1..], 1) == 1 + Equal(crowd, 1);
      QuotientWithin(0, 2 * (n - 1), 0);
      QuotientUnique(2 * PERCENTILE_SCALE, 2 * (n - 1), 0);
      assert |s| == n && s[0] in s && s[1] in s && Percentile(s, 0) == Percentile(s, 1);
    }
  }

  // ---- order of the cohort ----

  function Below(c: int): int -> bool {
    (x: int) => x < c
  }

  function Is(c: int): int -> bool {
    (x: int) => x == c
  }

  lemma {:induction false} LessCounts(s: seq<int>, c: int)
    ensures Less(s, c) == multiset(Map(Below(c), s))[true]
  {
    if s != [] {
      LessCounts(s[1..], c);
      assert Map(Below(c), s) == [Below(c)(s[0])] + Map(Below(c), s[1..]);
    }
  }

  lemma {:induction false} EqualCounts(s: seq<int>, c: int)
    ensures Equal(s, c) == multiset(Map(Is(c), s))[true]
  {
    if s != [] {
      EqualCounts(s[1..], c);
      assert Map(Is(c), s) == [Is(c)(s[0])] + Map(Is(c), s[1..]);
    }
  }

  /** The percentiles of a cohort do not depend on its order. */
  lemma PercentilePermutes(a: seq<int>, b: seq<int>, c: int)
    requires multiset(a) == multiset(b) && |a| >= 2
    ensures |a| == |b| && Percentile(a, c) == Percentile(b, c)
  {
    hide Map, Less, Equal, Below, Is;
    SameElements(a, b);
    LessCounts(a, c);
    LessCounts(b, c);
    EqualCounts(a, c);
    EqualCounts(b, c);
    MapPermutes(Below(c), a, b);
    MapPermutes(Is(c), a, b);
  }
}
