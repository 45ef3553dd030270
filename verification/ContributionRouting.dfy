/** Contribution-first ranking of a filtered cohort under congestion
    (crates/mindone-accounting/src/routing.rs, `rank_contribution_candidates`). */
module ContributionRouting {
  import opened Wrappers
  import opened Machine
  import opened Ordering
  import opened Text
  import opened Midrank

  const MIN_COHORT := 5
  const NEAR_BEST_NUMERATOR := 98
  const NEAR_BEST_DENOMINATOR := 100

  datatype Candidate = Candidate(id: string, baseScore: i64, contributionMicro: i64)

  datatype Ranked = Ranked(id: string, baseScore: i64, contributionMicro: i64, percentile: Option<int>)

  datatype RoutingError = InvalidIdentifier | DuplicateIdentifier | NegativeScore | NegativeContribution

  predicate ValidIdentifier(id: string) {
    !IsBlank(id) && |Utf8(id)| <= 255 && !HasControl(id)
  }

  predicate ValidCandidate(c: Candidate) {
    ValidIdentifier(c.id) && c.baseScore >= 0 && c.contributionMicro >= 0
  }

  ghost predicate ValidCohort(candidates: seq<Candidate>) {
    && (forall c :: c in candidates ==> ValidCandidate(c))
    && NoDuplicates(Map(IdOf, candidates))
  }

  function IdOf(c: Candidate): string {
    c.id
  }

  function Contribution(c: Candidate): int {
    c.contributionMicro
  }

  function Contributions(candidates: seq<Candidate>): seq<int> {
    Map(Contribution, candidates)
  }

  predicate Enabled(candidates: seq<Candidate>, readyDemand: u64, freeSlots: u64) {
    |candidates| >= MIN_COHORT && readyDemand > freeSlots
  }

  function BestScore(candidates: seq<Candidate>): (best: int)
    ensures forall c :: c in candidates ==> c.baseScore <= best
    ensures candidates == [] ==> best == 0
    ensures candidates != [] ==> exists c :: c in candidates && c.baseScore == best
  {
    if candidates == [] then 0
    else
      assert candidates[0] in candidates;
      assert candidates == [candidates[0]] + candidates[1..];
      if |candidates| == 1 then candidates[0].baseScore
      else
        var rest := BestScore(candidates[1..]);
        if candidates[0].baseScore >= rest then candidates[0].baseScore else rest
  }

  /** Within 2% of the best score. */
  predicate NearBest(score: int, best: int) {
    score * NEAR_BEST_DENOMINATOR >= best * NEAR_BEST_NUMERATOR
  }

  function PercentileOf(candidates: seq<Candidate>, c: Candidate, readyDemand: u64, freeSlots: u64): Option<int> {
    if Enabled(candidates, readyDemand, freeSlots) && NearBest(c.baseScore, BestScore(candidates))
    then Some(Percentile(Contributions(candidates), c.contributionMicro)) else None
  }

  function Decorate(candidates: seq<Candidate>, readyDemand: u64, freeSlots: u64): Candidate -> Ranked {
    (c: Candidate) => Ranked(c.id, c.baseScore, c.contributionMicro, PercentileOf(candidates, c, readyDemand, freeSlots))
  }

  /** `None` sorts below every percentile. */
  predicate OptionBelow(a: Option<int>, b: Option<int>) {
    b.Some? && (a.Some? ==> a.value < b.value)
  }

  /** The sort key: percentile descending, base score descending, identifier ascending. */
  predicate RankLeq(l: Ranked, r: Ranked) {
    OptionBelow(r.percentile, l.percentile)
    || (l.percentile == r.percentile
        && (l.baseScore > r.baseScore || (l.baseScore == r.baseScore && StrLeq(l.id, r.id))))
  }

  function Ranking(candidates: seq<Candidate>, readyDemand: u64, freeSlots: u64): seq<Ranked> {
    Sort(RankLeq, Map(Decorate(candidates, readyDemand, freeSlots), candidates))
  }

  method ValidateCohort(candidates: seq<Candidate>) returns (r: Result<(), RoutingError>)
    ensures r.Ok? <==> ValidCohort(candidates)
  {
    hide ValidIdentifier;
    var identifiers: set<string> := {};
    for i := 0 to |candidates|
      invariant forall j :: 0 <= j < i ==> ValidCandidate(candidates[j])
      invariant forall x :: x in identifiers <==> exists j :: 0 <= j < i && candidates[j].id == x
      invariant forall j, k :: 0 <= j < k < i ==> candidates[j].id != candidates[k].id
    {
      var candidate := candidates[i];
      assert candidate in candidates;
      if !ValidIdentifier(candidate.id) {
        return Err(InvalidIdentifier);
      }
      if candidate.id in identifiers {
        ghost var j :| 0 <= j < i && candidates[j].id == candidate.id;
        assert Map(IdOf, candidates)[j] == Map(IdOf, candidates)[i];
        return Err(DuplicateIdentifier);
      }
      identifiers := identifiers + {candidate.id};
      if candidate.baseScore < 0 {
        return Err(NegativeScore);
      }
      if candidate.contributionMicro < 0 {
        return Err(NegativeContribution);
      }
    }
    return Ok(());
  }

  method RankContributionCandidates(candidates: seq<Candidate>, readyDemand: u64, freeSlots: u64)
    returns (r: Result<seq<Ranked>, RoutingError>)
    ensures r.Ok? <==> ValidCohort(candidates)
    ensures r.Ok? ==> r.value == Ranking(candidates, readyDemand, freeSlots)
  {
    hide ValidCohort, Percentile, NearBest, BestScore, RankLeq, Sort, PercentileOf;
    var valid := ValidateCohort(candidates);
    if valid.Err? {
      return Err(valid.error);
    }
    var contributionEnabled := |candidates| >= MIN_COHORT && readyDemand > freeSlots;
    var bestScore := BestScore(candidates);
    var percentiles: map<int, int> := map[];
    if contributionEnabled {
      percentiles := MidrankPercentiles(Contributions(candidates));
    }
    var ranked: seq<Ranked> := [];
    for i := 0 to |candidates|
      invariant |ranked| == i
      invariant forall j :: 0 <= j < i ==> ranked[j] == Decorate(candidates, readyDemand, freeSlots)(candidates[j])
    {
      var candidate := candidates[i];
      assert Contributions(candidates)[i] == candidate.contributionMicro;
      var percentile := None;
      if contributionEnabled && NearBest(candidate.baseScore, bestScore) && candidate.contributionMicro in percentiles {
        percentile := Some(percentiles[candidate.contributionMicro]);
      }
      PercentileOfIs(candidates, candidate, readyDemand, freeSlots);
      ranked := ranked + [Ranked(candidate.id, candidate.baseScore, candidate.contributionMicro, percentile)];
    }
    assert ranked == Map(Decorate(candidates, readyDemand, freeSlots), candidates);
    return Ok(Sort(RankLeq, ranked));
  }

  lemma PercentileOfIs(candidates: seq<Candidate>, c: Candidate, readyDemand: u64, freeSlots: u64)
    ensures PercentileOf(candidates, c, readyDemand, freeSlots) ==
            if |candidates| >= MIN_COHORT && readyDemand > freeSlots && NearBest(c.baseScore, BestScore(candidates))
            then Some(Percentile(Contributions(candidates), c.contributionMicro)) else None
  {
  }

  // ---- the order ----

  lemma RankTotal()
    ensures TotalPreorder(RankLeq)
  {
    StrTotal();
    hide StrLeq;
  }

  lemma RankedFacts(candidates: seq<Candidate>, readyDemand: u64, freeSlots: u64)
    ensures SortedBy(RankLeq, Ranking(candidates, readyDemand, freeSlots))
    ensures multiset(Ranking(candidates, readyDemand, freeSlots))
            == multiset(Map(Decorate(candidates, readyDemand, freeSlots), candidates))
    ensures |Ranking(candidates, readyDemand, freeSlots)| == |candidates|
  {
    RankTotal();
    SortFacts(RankLeq, Map(Decorate(candidates, readyDemand, freeSlots), candidates));
  }

  function Undecorate(r: Ranked): Candidate {
    Candidate(r.id, r.baseScore, r.contributionMicro)
  }

  /** The ranking loses, repeats and alters no candidate. */
  lemma RankingPermutes(candidates: seq<Candidate>, readyDemand: u64, freeSlots: u64)
    ensures multiset(Map(Undecorate, Ranking(candidates, readyDemand, freeSlots))) == multiset(candidates)
  {
    RankedFacts(candidates, readyDemand, freeSlots);
    var decorated := Map(Decorate(candidates, readyDemand, freeSlots), candidates);
    MapPermutes(Undecorate, Ranking(candidates, readyDemand, freeSlots), decorated);
    assert Map(Undecorate, decorated) == candidates;
  }

  lemma RankedElement(candidates: seq<Candidate>, readyDemand: u64, freeSlots: u64, r: Ranked) returns (c: Candidate)
    requires r in Ranking(candidates, readyDemand, freeSlots)
    ensures c in candidates && r == Decorate(candidates, readyDemand, freeSlots)(c)
  {
    hide PercentileOf;
    RankedFacts(candidates, readyDemand, freeSlots);
    var decorated := Map(Decorate(candidates, readyDemand, freeSlots), candidates);
    SameElements(Ranking(candidates, readyDemand, freeSlots), decorated);
    var i :| 0 <= i < |decorated| && decorated[i] == r;
    c := candidates[i];
  }

  /** Under congestion the whole 2% band comes first, ordered by percentile; everything outside it,
      and everything without congestion, is in base-score order, ties by identifier. */
  lemma BandFirst(candidates: seq<Candidate>, readyDemand: u64, freeSlots: u64, i: nat, j: nat)
    requires i < j < |candidates|
    ensures |Ranking(candidates, readyDemand, freeSlots)| == |candidates|
    ensures var s, best := Ranking(candidates, readyDemand, freeSlots), BestScore(candidates);
            if Enabled(candidates, readyDemand, freeSlots) && NearBest(s[i].baseScore, best) then
              NearBest(s[j].baseScore, best) ==>
                var p, q := Percentile(Contributions(candidates), s[i].contributionMicro),
                            Percentile(Contributions(candidates), s[j].contributionMicro);
                p > q || (p == q && (s[i].baseScore > s[j].baseScore
                                     || (s[i].baseScore == s[j].baseScore && StrLeq(s[i].id, s[j].id))))
            else
              && !(Enabled(candidates, readyDemand, freeSlots) && NearBest(s[j].baseScore, best))
              && (s[i].baseScore > s[j].baseScore || (s[i].baseScore == s[j].baseScore && StrLeq(s[i].id, s[j].id)))
  {
    hide Ranking, Percentile, NearBest, Enabled, StrLeq, BestScore;
    RankedFacts(candidates, readyDemand, freeSlots);
    var s := Ranking(candidates, readyDemand, freeSlots);
    var c := RankedElement(candidates, readyDemand, freeSlots, s[i]);
    var d := RankedElement(candidates, readyDemand, freeSlots, s[j]);
    assert RankLeq(s[i], s[j]);
  }

  /** Whatever the congestion, the first choice is within 2% of the best base score, and without
      contribution routing it has the best score. */
  lemma FirstIsNearBest(candidates: seq<Candidate>, readyDemand: u64, freeSlots: u64)
    requires ValidCohort(candidates) && candidates != []
    ensures |Ranking(candidates, readyDemand, freeSlots)| == |candidates|
    ensures NearBest(Ranking(candidates, readyDemand, freeSlots)[0].baseScore, BestScore(candidates))
    ensures !Enabled(candidates, readyDemand, freeSlots) ==>
              Ranking(candidates, readyDemand, freeSlots)[0].baseScore == BestScore(candidates)
  {
    hide Ranking, Percentile, Enabled, StrLeq, ValidIdentifier, BestScore;
    RankedFacts(candidates, readyDemand, freeSlots);
    var s := Ranking(candidates, readyDemand, freeSlots);
    var top := BestCandidate(candidates);
    assert ValidCandidate(top);
    var k := PositionOf(candidates, readyDemand, freeSlots, top);
    var first := RankedElement(candidates, readyDemand, freeSlots, s[0]);
    if k > 0 {
      BandFirst(candidates, readyDemand, freeSlots, 0, k);
    }
  }

  lemma BestCandidate(candidates: seq<Candidate>) returns (c: Candidate)
    requires candidates != []
    ensures c in candidates && c.baseScore == BestScore(candidates)
  {
    var best := BestScore(candidates);
    c :| c in candidates && c.baseScore == best;
  }

  lemma PositionOf(candidates: seq<Candidate>, readyDemand: u64, freeSlots: u64, c: Candidate) returns (k: nat)
    requires c in candidates
    ensures k < |Ranking(candidates, readyDemand, freeSlots)|
    ensures Ranking(candidates, readyDemand, freeSlots)[k] == Decorate(candidates, readyDemand, freeSlots)(c)
  {
    hide PercentileOf, Ranking;
    RankedFacts(candidates, readyDemand, freeSlots);
    var decorated := Map(Decorate(candidates, readyDemand, freeSlots), candidates);
    SameElements(Ranking(candidates, readyDemand, freeSlots), decorated);
    var i :| 0 <= i < |candidates| && candidates[i] == c;
    assert decorated[i] in decorated;
    k :| 0 <= k < |Ranking(candidates, readyDemand, freeSlots)| && Ranking(candidates, readyDemand, freeSlots)[k] == decorated[i];
  }

  /** A candidate is shown with its percentile exactly in a congested cohort of five or more, and if its
      score is at least 98% of every other one's. */
  lemma PercentilesShown(candidates: seq<Candidate>, readyDemand: u64, freeSlots: u64, i: nat)
    requires ValidCohort(candidates) && i < |candidates|
    ensures |Ranking(candidates, readyDemand, freeSlots)| == |candidates|
    ensures var r := Ranking(candidates, readyDemand, freeSlots)[i];
            && (r.percentile.Some? <==>
                  && |candidates| >= 5 && readyDemand > freeSlots
                  && forall c :: c in candidates ==> 100 * r.baseScore >= 98 * c.baseScore)
            && (r.percentile.Some? ==> r.percentile.value == Percentile(Contributions(candidates), r.contributionMicro))
  {
    hide Ranking, Percentile, Contributions, BestScore, ValidIdentifier;
    RankedFacts(candidates, readyDemand, freeSlots);
    var c := RankedElement(candidates, readyDemand, freeSlots, Ranking(candidates, readyDemand, freeSlots)[i]);
    var best := BestCandidate(candidates);
  }

  /** The first choice is within 2% of every candidate. */
  lemma FirstWithinTwoPercent(candidates: seq<Candidate>, readyDemand: u64, freeSlots: u64, c: Candidate)
    requires ValidCohort(candidates) && c in candidates
    ensures |Ranking(candidates, readyDemand, freeSlots)| == |candidates|
    ensures 100 * Ranking(candidates, readyDemand, freeSlots)[0].baseScore >= 98 * c.baseScore
  {
    FirstIsNearBest(candidates, readyDemand, freeSlots);
    hide Ranking, BestScore, ValidCohort;
  }

  // ---- independence of input order ----

  lemma DecorationPermutes(a: seq<Candidate>, b: seq<Candidate>, readyDemand: u64, freeSlots: u64, c: Candidate)
    requires multiset(a) == multiset(b)
    ensures Decorate(a, readyDemand, freeSlots)(c) == Decorate(b, readyDemand, freeSlots)(c)
  {
    hide Percentile, BestScore, NearBest, Map;
    SameElements(a, b);
    MapPermutes(Contribution, a, b);
    if a != [] {
      var x := BestCandidate(a);
      var y := BestCandidate(b);
      assert BestScore(a) == BestScore(b);
    }
    if |a| >= 2 {
      PercentilePermutes(Contributions(a), Contributions(b), c.contributionMicro);
    }
  }

  lemma ValidPermutes(a: seq<Candidate>, b: seq<Candidate>)
    requires multiset(a) == multiset(b) && ValidCohort(a)
    ensures ValidCohort(b)
  {
    SameElements(a, b);
    MapPermutes(IdOf, a, b);
    NoDuplicatesPermutes(Map(IdOf, a), Map(IdOf, b));
  }

  lemma IdsSeparate(candidates: seq<Candidate>, readyDemand: u64, freeSlots: u64, x: Ranked, y: Ranked)
    requires ValidCohort(candidates)
    requires x in Ranking(candidates, readyDemand, freeSlots) && y in Ranking(candidates, readyDemand, freeSlots)
    requires RankLeq(x, y) && RankLeq(y, x)
    ensures x == y
  {
    StrOrder(x.id, y.id);
    hide Ranking, PercentileOf, ValidCandidate, StrLeq;
    var c := RankedElement(candidates, readyDemand, freeSlots, x);
    var d := RankedElement(candidates, readyDemand, freeSlots, y);
    var i :| 0 <= i < |candidates| && candidates[i] == c;
    var j :| 0 <= j < |candidates| && candidates[j] == d;
    assert Map(IdOf, candidates)[i] == Map(IdOf, candidates)[j];
  }

  /** The ranking is canonical: reordering the input changes neither its acceptance nor the result. */
  lemma InputOrderIrrelevant(a: seq<Candidate>, b: seq<Candidate>, readyDemand: u64, freeSlots: u64)
    requires multiset(a) == multiset(b)
    ensures ValidCohort(a) <==> ValidCohort(b)
    ensures ValidCohort(a) ==> Ranking(a, readyDemand, freeSlots) == Ranking(b, readyDemand, freeSlots)
  {
    if ValidCohort(a) { ValidPermutes(a, b); }
    if ValidCohort(b) { ValidPermutes(b, a); }
    if ValidCohort(a) {
      hide RankLeq, ValidCohort, Ranking, Decorate;
      RankedFacts(a, readyDemand, freeSlots);
      RankedFacts(b, readyDemand, freeSlots);
      SameDecorations(a, b, readyDemand, freeSlots);
      forall x, y | x in Ranking(a, readyDemand, freeSlots) && y in Ranking(a, readyDemand, freeSlots)
                    && RankLeq(x, y) && RankLeq(y, x)
        ensures x == y
      {
        IdsSeparate(a, readyDemand, freeSlots, x, y);
      }
      SortedUnique(RankLeq, Ranking(a, readyDemand, freeSlots), Ranking(b, readyDemand, freeSlots));
    }
  }

  lemma SameDecorations(a: seq<Candidate>, b: seq<Candidate>, readyDemand: u64, freeSlots: u64)
    requires multiset(a) == multiset(b)
    ensures multiset(Map(Decorate(a, readyDemand, freeSlots), a)) == multiset(Map(Decorate(b, readyDemand, freeSlots), b))
  {
    var f, g := Decorate(a, readyDemand, freeSlots), Decorate(b, readyDemand, freeSlots);
    forall c ensures f(c) == g(c) {
      DecorationPermutes(a, b, readyDemand, freeSlots, c);
    }
    hide Decorate;
    MapPermutes(f, a, b);
    assert Map(f, b) == Map(g, b);
  }
}
