/** Choosing what to deploy: the scan over candidate repositories with its early exit, and the
    memory preflight of the chosen files (crates/mindone-cli/src/model.rs,
    `discover_deployment_artifact`, `enforce_deployment_memory_budget`). The fetched listings are
    the input. */
module DeploymentChoice {
  import opened Wrappers
  import opened Machine
  import opened Ordering
  import opened Text
  import opened DeploymentGroups

  const RUNTIME_MARGIN: u64 := 2 * 1024 * 1024 * 1024

  // ---- sizes and the budget ----

  function GroupSizeFrom(total: u64, artifacts: seq<RemoteArtifact>): u64
    decreases |artifacts|
  {
    if artifacts == [] then total
    else
      var size := if artifacts[0].sizeBytes.Some? then artifacts[0].sizeBytes.value else U64_MAX;
      GroupSizeFrom(SaturatingAddU64(total, size), artifacts[1..])
  }

  function GroupSize(artifacts: seq<RemoteArtifact>): u64 {
    GroupSizeFrom(0, artifacts)
  }

  /** 70% of the memory available to the model. */
  function MemoryBudget(available: u64): u64 {
    (if available * 7 <= U64_MAX then available * 7 else U64_MAX) / 10
  }

  predicate Fits(size: u64, budget: u64) {
    size + RUNTIME_MARGIN <= U64_MAX && size + RUNTIME_MARGIN <= budget
  }

  datatype DeployError = UnknownSize | SizeOverflow | OverBudget | FetchFailed | NothingRunnable

  function PreflightSize(total: u64, artifacts: seq<RemoteArtifact>): Result<u64, DeployError>
    decreases |artifacts|
  {
    if artifacts == [] then Ok(total)
    else if artifacts[0].sizeBytes.None? then Err(UnknownSize)
    else if total + artifacts[0].sizeBytes.value > U64_MAX then Err(SizeOverflow)
    else PreflightSize(total + artifacts[0].sizeBytes.value, artifacts[1..])
  }

  function EnforceMemoryBudget(artifacts: seq<RemoteArtifact>, available: u64): Result<(), DeployError> {
    var size :- PreflightSize(0, artifacts);
    if SaturatingAddU64(size, RUNTIME_MARGIN) > MemoryBudget(available) then Err(OverBudget) else Ok(())
  }

  lemma {:induction false} SaturatedStays(artifacts: seq<RemoteArtifact>)
    ensures GroupSizeFrom(U64_MAX, artifacts) == U64_MAX
  {
    if artifacts != [] {
      SaturatedStays(artifacts[1..]);
    }
  }

  lemma {:induction false} SizesAgree(total: u64, artifacts: seq<RemoteArtifact>)
    ensures GroupSizeFrom(total, artifacts) ==
            match PreflightSize(total, artifacts)
            case Ok(size) => size
            case Err(_) => U64_MAX
    decreases |artifacts|
  {
    if artifacts != [] {
      SaturatedStays(artifacts[1..]);
      if artifacts[0].sizeBytes.Some? && total + artifacts[0].sizeBytes.value <= U64_MAX {
        SizesAgree(total + artifacts[0].sizeBytes.value, artifacts[1..]);
      }
    }
  }

  /** The fit flag of the scan and the later preflight agree on every list of files, known or unknown
      sizes, overflowing or not. */
  lemma FitAgreesWithPreflight(artifacts: seq<RemoteArtifact>, available: u64)
    ensures Fits(GroupSize(artifacts), MemoryBudget(available)) <==> EnforceMemoryBudget(artifacts, available).Ok?
  {
    SizesAgree(0, artifacts);
  }

  function SumSizes(artifacts: seq<RemoteArtifact>): nat {
    if artifacts == [] then 0
    else (if artifacts[0].sizeBytes.Some? then artifacts[0].sizeBytes.value else 0) + SumSizes(artifacts[1..])
  }

  predicate AllSized(artifacts: seq<RemoteArtifact>) {
    forall i :: 0 <= i < |artifacts| ==> artifacts[i].sizeBytes.Some?
  }

  lemma {:induction false} GroupSizeIs(total: u64, artifacts: seq<RemoteArtifact>)
    ensures GroupSizeFrom(total, artifacts) ==
            if AllSized(artifacts) && total + SumSizes(artifacts) <= U64_MAX then total + SumSizes(artifacts) else U64_MAX
    decreases |artifacts|
  {
    if artifacts != [] {
      SaturatedStays(artifacts[1..]);
      var rest := artifacts[1..];
      assert AllSized(artifacts) <==> artifacts[0].sizeBytes.Some? && AllSized(rest) by {
        if artifacts[0].sizeBytes.Some? && AllSized(rest) {
          forall i | 0 <= i < |artifacts| ensures artifacts[i].sizeBytes.Some? {
            assert i > 0 ==> artifacts[i] == rest[i - 1];
          }
        }
      }
      var size := if artifacts[0].sizeBytes.Some? then artifacts[0].sizeBytes.value else U64_MAX;
      GroupSizeIs(SaturatingAddU64(total, size), rest);
    }
  }

  /** A group fits exactly if all its sizes are known and their sum, with two gibibytes for the runtime,
      is within seven tenths of the memory. */
  lemma FitMeans(artifacts: seq<RemoteArtifact>, available: u64)
    ensures Fits(GroupSize(artifacts), MemoryBudget(available)) <==>
            && AllSized(artifacts)
            && 10 * (SumSizes(artifacts) + 2_147_483_648) <= if 7 * available <= U64_MAX then 7 * available else U64_MAX
  {
    GroupSizeIs(0, artifacts);
  }

  // ---- candidates ----

  function QuantizationPriority(file: string): nat {
    var lower := Lower(file);
    if Contains(lower, "q4_k_m") then 0
    else if Contains(lower, "q4_k_xl") || Contains(lower, "q4_k_l") then 1
    else if Contains(lower, "q4_0") then 2
    else if Contains(lower, "q4_k_s") then 3
    else if Contains(lower, "iq4") then 4
    else if Contains(lower, "q5_k_m") then 5
    else if Contains(lower, "iq3") then 6
    else if Contains(lower, "q3") then 7
    else if Contains(lower, "iq2") then 8
    else if Contains(lower, "iq1") then 9
    else 20
  }

  /** The quantisations in order of preference, each with the parts of a file name that stand for it. */
  const PREFERENCE: seq<seq<string>> := [
    ["q4_k_m"], ["q4_k_xl", "q4_k_l"], ["q4_0"], ["q4_k_s"], ["iq4"],
    ["q5_k_m"], ["iq3"], ["q3"], ["iq2"], ["iq1"]]

  predicate Names(file: string, row: seq<string>) {
    exists i :: 0 <= i < |row| && Contains(Lower(file), row[i])
  }

  /** The priority of a file is the first row of the table that its name contains, whatever its case, and
      20 if it contains none. */
  lemma PriorityIsFirstRow(file: string)
    ensures var k := QuantizationPriority(file);
            && (k == 20 || (k < |PREFERENCE| && Names(file, PREFERENCE[k])))
            && forall j :: 0 <= j < |PREFERENCE| && j < k ==> !Names(file, PREFERENCE[j])
  {
    forall j | 0 <= j < |PREFERENCE|
      ensures Names(file, PREFERENCE[j]) <==>
              Contains(Lower(file), PREFERENCE[j][0]) || (j == 1 && Contains(Lower(file), PREFERENCE[j][1]))
    {
      OneOrTwo(file, PREFERENCE[j]);
    }
    hide Contains, Lower, Names;
  }

  lemma OneOrTwo(file: string, row: seq<string>)
    requires 1 <= |row| <= 2
    ensures Names(file, row) <==> Contains(Lower(file), row[0]) || (|row| == 2 && Contains(Lower(file), row[1]))
  {
    hide Contains, Lower;
  }

  function Primary(group: seq<RemoteArtifact>): string {
    if group == [] then "" else group[0].file
  }

  function Priority(group: seq<RemoteArtifact>): nat {
    QuantizationPriority(Primary(group))
  }

  predicate GroupLeq(l: seq<RemoteArtifact>, r: seq<RemoteArtifact>) {
    Priority(l) < Priority(r)
    || (Priority(l) == Priority(r)
        && (GroupSize(l) < GroupSize(r) || (GroupSize(l) == GroupSize(r) && StrLeq(Primary(l), Primary(r)))))
  }

  datatype Candidate = Candidate(rank: nat, group: seq<RemoteArtifact>)

  /** What fetching one repository's listing came to. */
  datatype Listing = Denied | Unavailable | Failed | Fetched(artifacts: seq<RemoteArtifact>)

  /** The key `(not fits, priority, size, repository rank)` of the first is smaller. */
  predicate KeyLess(c: Candidate, d: Candidate, budget: u64) {
    var f, g := Fits(GroupSize(c.group), budget), Fits(GroupSize(d.group), budget);
    (f && !g)
    || (f == g
        && (Priority(c.group) < Priority(d.group)
            || (Priority(c.group) == Priority(d.group)
                && (GroupSize(c.group) < GroupSize(d.group)
                    || (GroupSize(c.group) == GroupSize(d.group) && c.rank < d.rank)))))
  }

  predicate SameKey(c: Candidate, d: Candidate, budget: u64) {
    Fits(GroupSize(c.group), budget) == Fits(GroupSize(d.group), budget) && Priority(c.group) == Priority(d.group)
    && GroupSize(c.group) == GroupSize(d.group) && c.rank == d.rank
  }

  /** The full order: the key, then the name of the primary file. */
  predicate Before(c: Candidate, d: Candidate, budget: u64) {
    KeyLess(c, d, budget) || (SameKey(c, d, budget) && StrLeq(Primary(c.group), Primary(d.group)))
  }

  /** `c` is a runnable group of the readable repository at its rank. */
  ghost predicate Offered(names: Names, listings: seq<Listing>, c: Candidate) {
    && c.rank < |listings| && listings[c.rank].Fetched?
    && exists keys, groups :: IsGrouping(names, listings[c.rank].artifacts, keys, groups) && c.group in groups
  }

  predicate ExitNow(c: Candidate, budget: u64) {
    Fits(GroupSize(c.group), budget) && Priority(c.group) == 0
  }

  // ---- facts about the orders ----

  lemma GroupOrderTotal()
    ensures TotalPreorder(GroupLeq)
  {
    StrTotal();
    hide StrLeq, GroupSize, Priority, Primary;
  }

  lemma BeforeTransitive(c: Candidate, d: Candidate, e: Candidate, budget: u64)
    requires Before(c, d, budget) && Before(d, e, budget)
    ensures Before(c, e, budget)
  {
    StrTotal();
    hide StrLeq, GroupSize, Priority, Primary, Fits;
  }

  lemma BeforeTotal(c: Candidate, d: Candidate, budget: u64)
    requires !KeyLess(c, d, budget) && !SameKey(c, d, budget)
    ensures KeyLess(d, c, budget)
  {
    hide GroupSize, Priority, Fits;
  }

  /** Sorted groups of one repository that tie on the key are in the full order. */
  lemma SortedBefore(c: Candidate, d: Candidate, budget: u64)
    requires c.rank == d.rank && GroupLeq(c.group, d.group) && SameKey(c, d, budget)
    ensures Before(c, d, budget)
  {
    hide GroupSize, Priority, Primary, Fits, StrLeq;
  }

  /** Every grouping of one listing holds the same groups. */
  lemma GroupingsAgree(names: Names, artifacts: seq<RemoteArtifact>,
                       keys: seq<ClassKey>, groups: seq<seq<RemoteArtifact>>,
                       keys': seq<ClassKey>, groups': seq<seq<RemoteArtifact>>, g: seq<RemoteArtifact>)
    requires IsGrouping(names, artifacts, keys, groups) && IsGrouping(names, artifacts, keys', groups') && g in groups'
    ensures g in groups
  {
    hide Members, CompleteClass, SortedClass;
    var singles := Members(names, artifacts, Unsplit);
    var i :| 0 <= i < |groups'| && groups'[i] == g;
    if i < |singles| {
      assert groups[i] == g;
    } else {
      var key := keys'[i - |singles|];
      assert key in keys' && key in keys;
      var j :| 0 <= j < |keys| && keys[j] == key;
      assert groups[|singles| + j] == g;
    }
  }

  // ---- the scan ----

  /** `best` is the first in the full order of the candidates seen, and none of them ended the scan. */
  ghost predicate BestOf(best: Option<Candidate>, seen: set<Candidate>, budget: u64) {
    && (best.None? ==> seen == {})
    && (best.Some? ==> best.value in seen && forall d :: d in seen ==> Before(best.value, d, budget))
    && (forall d :: d in seen ==> !ExitNow(d, budget))
  }

  /** The sorted groups `0..i` of repository `rank`, as candidates. */
  ghost function SeenIn(rank: nat, groups: seq<seq<RemoteArtifact>>, i: nat): set<Candidate>
    requires i <= |groups|
  {
    set j | 0 <= j < i :: Candidate(rank, groups[j])
  }

  lemma KeepOrReplace(best: Option<Candidate>, seen: set<Candidate>, c: Candidate, budget: u64)
    requires BestOf(best, seen, budget) && !ExitNow(c, budget)
    requires best.Some? && SameKey(best.value, c, budget) ==> Before(best.value, c, budget)
    ensures BestOf(if best.None? || KeyLess(c, best.value, budget) then Some(c) else best, seen + {c}, budget)
  {
    hide ExitNow, KeyLess, SameKey;
    var next := if best.None? || KeyLess(c, best.value, budget) then c else best.value;
    SelfBefore(c, budget);
    if best.Some? && !KeyLess(c, best.value, budget) {
      if !SameKey(best.value, c, budget) {
        if !KeyLess(best.value, c, budget) {
          BeforeTotal(best.value, c, budget);
        }
      }
    }
    forall d | d in seen + {c} ensures Before(next, d, budget) {
      if d in seen && next == c {
        BeforeTransitive(c, best.value, d, budget);
      }
    }
  }

  lemma SelfBefore(c: Candidate, budget: u64)
    ensures Before(c, c, budget)
  {
    StrOrder(Primary(c.group), Primary(c.group));
    hide StrLeq, Primary, Fits, GroupSize, Priority;
  }

  /** A candidate that ends the scan comes before everything seen so far. */
  lemma ExitBeatsSeen(best: Option<Candidate>, seen: set<Candidate>, c: Candidate, budget: u64)
    requires BestOf(best, seen, budget) && ExitNow(c, budget)
    ensures forall d :: d in seen ==> KeyLess(c, d, budget)
    ensures best.Some? ==> KeyLess(c, best.value, budget)
  {
    hide Fits, GroupSize, Priority;
    if best.Some? {
      assert !ExitNow(best.value, budget);
    }
  }

  /** The inner loop over the sorted groups of one repository. */
  method ScanGroups(rank: nat, groups: seq<seq<RemoteArtifact>>, budget: u64,
                    start: Option<Candidate>, ghost seen: set<Candidate>)
    returns (best: Option<Candidate>, exit: bool, ghost at: nat)
    requires SortedBy(GroupLeq, groups) && BestOf(start, seen, budget)
    requires forall d :: d in seen ==> d.rank < rank
    ensures at <= |groups|
    ensures !exit ==> BestOf(best, seen + SeenIn(rank, groups, |groups|), budget)
    ensures exit ==> best.Some? && ExitNow(best.value, budget)
    ensures exit ==> at < |groups| && best == Some(Candidate(rank, groups[at]))
    ensures exit ==> forall d :: d in seen + SeenIn(rank, groups, at) ==> !ExitNow(d, budget)
  {
    hide BestOf, ExitNow, Before, SameKey, KeyLess, GroupLeq;
    best := start;
    BestWasSeen(start, seen, budget);
    assert seen + SeenIn(rank, groups, 0) == seen;
    for i := 0 to |groups|
      invariant BestOf(best, seen + SeenIn(rank, groups, i), budget)
      invariant best.Some? && best.value !in seen ==>
                  best.value.rank == rank && exists j :: 0 <= j < i && best.value.group == groups[j]
    {
      var candidate := Candidate(rank, groups[i]);
      ghost var before := seen + SeenIn(rank, groups, i);
      assert before + {candidate} == seen + SeenIn(rank, groups, i + 1);
      var replace := best.None? || KeyLess(candidate, best.value, budget);
      if ExitNow(candidate, budget) {
        ExitBeatsSeen(best, before, candidate, budget);
        NoneExited(best, before, budget);
      } else {
        if best.Some? && SameKey(best.value, candidate, budget) {
          SameRank(best.value, candidate, budget);
          ghost var j :| 0 <= j < i && best.value.group == groups[j];
          assert GroupLeq(groups[j], groups[i]);
          SortedBefore(best.value, candidate, budget);
        }
        KeepOrReplace(best, before, candidate, budget);
      }
      if replace {
        best := Some(candidate);
      }
      if ExitNow(candidate, budget) {
        return best, true, i;
      }
    }
    return best, false, |groups|;
  }

  lemma NoneExited(best: Option<Candidate>, seen: set<Candidate>, budget: u64)
    requires BestOf(best, seen, budget)
    ensures forall d :: d in seen ==> !ExitNow(d, budget)
  {
  }

  lemma BestWasSeen(best: Option<Candidate>, seen: set<Candidate>, budget: u64)
    requires BestOf(best, seen, budget)
    ensures best.Some? ==> best.value in seen
  {
  }

  lemma SameRank(c: Candidate, d: Candidate, budget: u64)
    requires SameKey(c, d, budget)
    ensures c.rank == d.rank
  {
  }

  /** What the scan answers with: the first candidate that ends it, if any does, and otherwise the
      first of all in the full order. */
  ghost predicate RightChoice(names: Names, listings: seq<Listing>, budget: u64, c: Candidate) {
    && Offered(names, listings, c)
    && if ExitNow(c, budget)
       then forall d :: Offered(names, listings, d) && ExitNow(d, budget) ==>
              c.rank < d.rank || (c.rank == d.rank && GroupLeq(c.group, d.group))
       else forall d :: Offered(names, listings, d) ==> Before(c, d, budget)
  }

  /** The candidates of the repositories before `i`. */
  ghost predicate SeenExactly(names: Names, listings: seq<Listing>, i: nat, seen: set<Candidate>) {
    forall d :: d in seen <==> Offered(names, listings, d) && d.rank < i
  }

  predicate NoneFailed(listings: seq<Listing>, before: nat)
    requires before <= |listings|
  {
    forall j :: 0 <= j < before ==> !listings[j].Failed?
  }

  /** The scan gets to the failed listing `j`: it is the first, and nothing before it ends the scan. */
  ghost predicate FailsAt(names: Names, listings: seq<Listing>, budget: u64, j: nat) {
    && j < |listings| && listings[j].Failed? && NoneFailed(listings, j)
    && forall d :: Offered(names, listings, d) && d.rank < j ==> !ExitNow(d, budget)
  }

  /** Which of the three outcomes occurs is decided by the listings alone. */
  method Discover(names: Names, listings: seq<Listing>, budget: u64) returns (r: Result<Candidate, DeployError>)
    ensures r == Err(FetchFailed) <==> exists j :: FailsAt(names, listings, budget, j)
    ensures r == Err(NothingRunnable) <==>
              NoneFailed(listings, |listings|) && forall d :: !Offered(names, listings, d)
    ensures r.Ok? <==>
              && (exists d :: Offered(names, listings, d))
              && !exists j :: FailsAt(names, listings, budget, j)
    ensures r.Ok? ==> RightChoice(names, listings, budget, r.value)
    ensures r.Ok? ==> NoneFailed(listings, if ExitNow(r.value, budget) then r.value.rank else |listings|)
  {
    hide ExitNow, Before, IsGrouping, GroupLeq, BestOf;
    var best: Option<Candidate> := None;
    ghost var seen: set<Candidate> := {};
    NothingSeen(budget);
    for rank := 0 to |listings|
      invariant BestOf(best, seen, budget) && SeenExactly(names, listings, rank, seen)
      invariant NoneFailed(listings, rank)
    {
      match listings[rank]
      case Denied => assert SeenExactly(names, listings, rank + 1, seen);
      case Unavailable => assert SeenExactly(names, listings, rank + 1, seen);
      case Failed =>
        NoneExited(best, seen, budget);
        assert FailsAt(names, listings, budget, rank);
        return Err(FetchFailed);
      case Fetched(artifacts) =>
        ghost var keys;
        var groups;
        groups, keys := DeploymentArtifactGroups(names, artifacts);
        var sorted := Sort(GroupLeq, groups);
        GroupOrderTotal();
        SortFacts(GroupLeq, groups);
        SameElements(sorted, groups);
        var exit;
        ghost var at;
        best, exit, at := ScanGroups(rank, sorted, budget, best, seen);
        SeenGrows(names, listings, rank, seen, keys, groups, sorted);
        if exit {
          ExitIsRight(names, listings, budget, rank, seen, sorted, at);
          ExitPreventsFailure(names, listings, budget, best.value);
          return Ok(best.value);
        }
        seen := seen + SeenIn(rank, sorted, |sorted|);
    }
    if best.Some? {
      NoneExited(best, seen, budget);
      BestIsRight(names, listings, budget, best.value, seen);
      assert Offered(names, listings, best.value);
      return Ok(best.value);
    }
    EmptyBest(best, seen, budget);
    return Err(NothingRunnable);
  }

  lemma ExitPreventsFailure(names: Names, listings: seq<Listing>, budget: u64, c: Candidate)
    requires Offered(names, listings, c) && ExitNow(c, budget) && NoneFailed(listings, c.rank)
    ensures !exists j :: FailsAt(names, listings, budget, j)
  {
    hide ExitNow, IsGrouping;
    forall j ensures !FailsAt(names, listings, budget, j) {
    }
  }

  lemma NothingSeen(budget: u64)
    ensures BestOf(None, {}, budget)
  {
  }

  lemma EmptyBest(best: Option<Candidate>, seen: set<Candidate>, budget: u64)
    requires BestOf(best, seen, budget) && best.None?
    ensures seen == {}
  {
  }

  lemma BestIsRight(names: Names, listings: seq<Listing>, budget: u64, best: Candidate, seen: set<Candidate>)
    requires BestOf(Some(best), seen, budget) && SeenExactly(names, listings, |listings|, seen)
    ensures RightChoice(names, listings, budget, best) && !ExitNow(best, budget)
  {
    hide Before, ExitNow, IsGrouping;
    forall d | Offered(names, listings, d) ensures Before(best, d, budget) {
      assert d in seen;
    }
  }

  lemma SeenGrows(names: Names, listings: seq<Listing>, rank: nat, seen: set<Candidate>,
                  keys: seq<ClassKey>, groups: seq<seq<RemoteArtifact>>, sorted: seq<seq<RemoteArtifact>>)
    requires rank < |listings| && listings[rank].Fetched? && SeenExactly(names, listings, rank, seen)
    requires IsGrouping(names, listings[rank].artifacts, keys, groups) && forall g :: g in sorted <==> g in groups
    ensures SeenExactly(names, listings, rank + 1, seen + SeenIn(rank, sorted, |sorted|))
    ensures forall d :: Offered(names, listings, d) && d.rank == rank <==> d in SeenIn(rank, sorted, |sorted|)
  {
    hide IsGrouping;
    forall d ensures Offered(names, listings, d) && d.rank == rank <==> d in SeenIn(rank, sorted, |sorted|) {
      if Offered(names, listings, d) && d.rank == rank {
        var keys', groups' :| IsGrouping(names, listings[rank].artifacts, keys', groups') && d.group in groups';
        GroupingsAgree(names, listings[rank].artifacts, keys, groups, keys', groups', d.group);
        assert d.group in sorted;
        var j :| 0 <= j < |sorted| && sorted[j] == d.group;
        assert d == Candidate(rank, sorted[j]);
      }
      if d in SeenIn(rank, sorted, |sorted|) {
        var j :| 0 <= j < |sorted| && d == Candidate(rank, sorted[j]);
        assert sorted[j] in sorted;
        assert d.group in groups;
      }
    }
  }

  lemma ExitIsRight(names: Names, listings: seq<Listing>, budget: u64, rank: nat, seen: set<Candidate>,
                    sorted: seq<seq<RemoteArtifact>>, at: nat)
    requires rank < |listings| && SeenExactly(names, listings, rank, seen)
    requires forall d :: Offered(names, listings, d) && d.rank == rank <==> d in SeenIn(rank, sorted, |sorted|)
    requires SortedBy(GroupLeq, sorted) && at < |sorted| && ExitNow(Candidate(rank, sorted[at]), budget)
    requires forall d :: d in seen + SeenIn(rank, sorted, at) ==> !ExitNow(d, budget)
    ensures RightChoice(names, listings, budget, Candidate(rank, sorted[at]))
  {
    hide ExitNow, Before, GroupLeq, Offered;
    var c := Candidate(rank, sorted[at]);
    assert c in SeenIn(rank, sorted, |sorted|);
    SelfGroupLeq(sorted[at]);
    forall d | Offered(names, listings, d) && ExitNow(d, budget)
      ensures c.rank < d.rank || (c.rank == d.rank && GroupLeq(c.group, d.group))
    {
      assert d !in seen && d !in SeenIn(rank, sorted, at);
      if d.rank == rank {
        var j :| 0 <= j < |sorted| && d == Candidate(rank, sorted[j]);
        assert at <= j;
      }
    }
  }

  lemma SelfGroupLeq(g: seq<RemoteArtifact>)
    ensures GroupLeq(g, g)
  {
    StrOrder(Primary(g), Primary(g));
    hide StrLeq, Primary, GroupSize, Priority;
  }

  /** What the early exit may not spoil: if anything offered anywhere fits, the choice fits and no
      fitting candidate has a smaller quantisation priority. */
  lemma ChoiceFits(names: Names, listings: seq<Listing>, budget: u64, c: Candidate, d: Candidate)
    requires RightChoice(names, listings, budget, c)
    requires Offered(names, listings, d) && Fits(GroupSize(d.group), budget)
    ensures Fits(GroupSize(c.group), budget) && Priority(c.group) <= Priority(d.group)
  {
    hide GroupSize, Priority, Fits, Primary, Offered, StrLeq;
  }

  /** The choice written out. If it fits with top priority, then so does nothing in an earlier repository,
      nor anything smaller, or of the same size with an earlier name, in its own. Otherwise nothing offered
      is better on the first of these counts on which the two differ: fitting, priority, size, repository,
      name. */
  lemma ChoiceIsLexicographic(names: Names, listings: seq<Listing>, budget: u64, c: Candidate, d: Candidate)
    requires RightChoice(names, listings, budget, c) && Offered(names, listings, d)
    ensures var cf, df := Fits(GroupSize(c.group), budget), Fits(GroupSize(d.group), budget);
            var cp, dp, cs, ds := Priority(c.group), Priority(d.group), GroupSize(c.group), GroupSize(d.group);
            if cf && cp == 0 then
              df && dp == 0 ==>
                && c.rank <= d.rank
                && (c.rank == d.rank ==> cs <= ds && (cs == ds ==> StrLeq(Primary(c.group), Primary(d.group))))
            else
              && (df ==> cf)
              && (cf == df ==> cp <= dp)
              && (cf == df && cp == dp ==> cs <= ds)
              && (cf == df && cp == dp && cs == ds ==> c.rank <= d.rank)
              && (cf == df && cp == dp && cs == ds && c.rank == d.rank ==> StrLeq(Primary(c.group), Primary(d.group)))
  {
    hide GroupSize, Priority, Fits, Primary, Offered, StrLeq;
  }
}
