/** The network reserve (crates/mindone-accounting/src/reserve.rs) and what settlements and
    releases do to it over a whole run. */
module Reserve {
  import opened Wrappers
  import opened Machine
  import opened Text
  import opened Fixed

  datatype ReserveBooks = ReserveBooks(balance: MicroQuota, totalInflow: MicroQuota, totalOutflow: MicroQuota)

  const EMPTY := ReserveBooks(0, 0, 0)

  predicate ValidReference(referenceId: string) {
    !IsBlank(referenceId) && |Utf8(referenceId)| <= 255 && !HasControl(referenceId)
  }

  /** The books after `add_inflow`, and its answer. The balance is stored before the second
      addition is checked. */
  function AddInflowTo(s: ReserveBooks, amount: MicroQuota): (ReserveBooks, Result<(), AccountingError>) {
    if amount == 0 then (s, Err(InvalidReserveRelease))
    else if s.balance + amount > I64_MAX then (s, Err(Overflow))
    else if s.totalInflow + amount > I64_MAX then (s.(balance := s.balance + amount), Err(Overflow))
    else (s.(balance := s.balance + amount, totalInflow := s.totalInflow + amount), Ok(()))
  }

  datatype Release = Release(amount: MicroQuota, balanceBefore: MicroQuota, balanceAfter: MicroQuota)

  function ReleaseFrom(s: ReserveBooks, amount: MicroQuota, referenceId: string)
    : (ReserveBooks, Result<Release, AccountingError>)
  {
    if amount == 0 || !ValidReference(referenceId) then (s, Err(InvalidReserveRelease))
    else if amount > s.balance then (s, Err(InsufficientBalance(amount, s.balance)))
    else if s.totalOutflow + amount > I64_MAX then (s, Err(Overflow))
    else (s.(balance := s.balance - amount, totalOutflow := s.totalOutflow + amount),
          Ok(Release(amount, s.balance, s.balance - amount)))
  }

  class ReserveState {
    var balance: MicroQuota
    var totalInflow: MicroQuota
    var totalOutflow: MicroQuota

    constructor ()
      ensures Books() == EMPTY
    {
      balance, totalInflow, totalOutflow := 0, 0, 0;
    }

    ghost function Books(): ReserveBooks
      reads this
    {
      ReserveBooks(balance, totalInflow, totalOutflow)
    }

    method AddInflow(amount: MicroQuota) returns (r: Result<(), AccountingError>)
      modifies this
      ensures (Books(), r) == AddInflowTo(old(Books()), amount)
    {
      if amount == 0 {
        return Err(InvalidReserveRelease);
      }
      var balance' := CheckedAdd(balance, amount);
      if balance'.Err? {
        return Err(balance'.error);
      }
      balance := balance'.value;
      var totalInflow' := CheckedAdd(totalInflow, amount);
      if totalInflow'.Err? {
        return Err(totalInflow'.error);
      }
      totalInflow := totalInflow'.value;
      return Ok(());
    }

    method ReleaseAmount(amount: MicroQuota, referenceId: string) returns (r: Result<Release, AccountingError>)
      modifies this
      ensures (Books(), r) == ReleaseFrom(old(Books()), amount, referenceId)
    {
      if amount == 0 {
        return Err(InvalidReserveRelease);
      }
      if IsBlank(referenceId) || |Utf8(referenceId)| > 255 || HasControl(referenceId) {
        return Err(InvalidReserveRelease);
      }
      var balanceBefore := balance;
      var balanceAfter := CheckedSub(balance, amount);
      if balanceAfter.Err? {
        return Err(balanceAfter.error);
      }
      var totalOutflow' := CheckedAdd(totalOutflow, amount);
      if totalOutflow'.Err? {
        return Err(totalOutflow'.error);
      }
      balance := balanceAfter.value;
      totalOutflow := totalOutflow'.value;
      return Ok(Release(amount, balanceBefore, balanceAfter.value));
    }
  }

  /** A failed release changes nothing. A failed inflow changes the books exactly when the balance
      still had room and the lifetime total did not. */
  lemma FailureAtomicity(s: ReserveBooks, amount: MicroQuota, referenceId: string)
    ensures ReleaseFrom(s, amount, referenceId).1.Err? ==> ReleaseFrom(s, amount, referenceId).0 == s
    ensures AddInflowTo(s, amount).1.Err? ==>
              (AddInflowTo(s, amount).0 != s
               <==> amount > 0 && s.balance + amount <= I64_MAX < s.totalInflow + amount)
  {
  }

  // ---- runs ----

  datatype Event =
    | Settle(baseCost: MicroQuota, tier: PerformanceTier, trust: TrustClass)
    | ReleaseEvent(amount: MicroQuota, referenceId: string)

  /** Everything a run has done: the books and the totals seen by an outside auditor. `refused` sums
      the inflows `add_inflow` turned down; `torn` the part of them that stayed in the balance. */
  datatype Audit = Audit(books: ReserveBooks, deducted: nat, credited: nat, refused: nat, torn: nat)

  const START := Audit(EMPTY, 0, 0, 0, 0)

  function Apply(a: Audit, e: Event): Audit {
    match e
    case Settle(baseCost, tier, trust) =>
      (match Calculate(baseCost, tier, trust)
       case Err(_) => a
       case Ok(s) =>
         var (books, answer) := AddInflowTo(a.books, s.reserveInflow);
         Audit(books, a.deducted + s.userDeduction, a.credited + s.nodeSpendableQuota,
               a.refused + (if answer.Err? then s.reserveInflow else 0),
               a.torn + (if answer.Err? && books != a.books then s.reserveInflow else 0)))
    case ReleaseEvent(amount, referenceId) => a.(books := ReleaseFrom(a.books, amount, referenceId).0)
  }

  function Run(events: seq<Event>): Audit {
    if events == [] then START else Apply(Run(events[..|events| - 1]), events[|events| - 1])
  }

  /** Conservation over every run. What consumers pay is what nodes and the reserve receive, up to
      refused inflows; the balance is inflow minus outflow, up to torn ones. */
  lemma {:induction false} RunConserves(events: seq<Event>)
    ensures var a := Run(events);
            && a.deducted == a.credited + a.books.totalInflow + a.refused
            && a.books.balance == a.books.totalInflow - a.books.totalOutflow + a.torn
            && a.torn <= a.refused
            && 100 * (a.books.totalInflow + a.refused) >= 12 * a.deducted
  {
    if events != [] {
      RunConserves(events[..|events| - 1]);
      var e := events[|events| - 1];
      if e.Settle? && Calculate(e.baseCost, e.tier, e.trust).Ok? {
        SettlementConserves(e.baseCost, e.tier, e.trust);
      }
      hide Calculate, ValidReference, Run;
      assert Run(events) == Apply(Run(events[..|events| - 1]), e) by { RunLast(events); }
    }
  }

  lemma RunLast(events: seq<Event>)
    requires events != []
    ensures Run(events) == Apply(Run(events[..|events| - 1]), events[|events| - 1])
  {
    hide Apply;
  }

  /** The settlement `Apply` would feed to the reserve after `prefix` is torn. */
  ghost predicate TornStep(events: seq<Event>, i: nat)
    requires i < |events|
  {
    var books := Run(events[..i]).books;
    events[i].Settle?
    && Calculate(events[i].baseCost, events[i].tier, events[i].trust).Ok?
    && var inflow := Calculate(events[i].baseCost, events[i].tier, events[i].trust).value.reserveInflow;
       inflow > 0 && books.balance + inflow <= I64_MAX < books.totalInflow + inflow
  }

  /** The balance equals inflow minus outflow after a run exactly when no inflow of the run met a
      full lifetime total while the balance still had room. */
  lemma {:induction false} BooksBalanceIff(events: seq<Event>)
    ensures Run(events).books.balance == Run(events).books.totalInflow - Run(events).books.totalOutflow
            <==> forall i :: 0 <= i < |events| ==> !TornStep(events, i)
  {
    RunConserves(events);
    TornIff(events);
  }

  lemma {:induction false} TornIff(events: seq<Event>)
    ensures Run(events).torn == 0 <==> forall i :: 0 <= i < |events| ==> !TornStep(events, i)
  {
    if events != [] {
      var front := events[..|events| - 1];
      TornIff(front);
      forall i | 0 <= i < |front| ensures TornStep(front, i) <==> TornStep(events, i) {
        assert front[..i] == events[..i];
      }
      TornLast(events);
    }
  }

  lemma TornLast(events: seq<Event>)
    requires events != []
    ensures Run(events).torn == 0 <==> Run(events[..|events| - 1]).torn == 0 && !TornStep(events, |events| - 1)
  {
    RunLast(events);
    hide Run, Calculate, ValidReference;
  }

  const HUGE: MicroQuota := 6_000_000_000_000_000_000
  const HUGE_INFLOW: MicroQuota := 5_400_000_000_000_000_000

  lemma HugeSettlement()
    ensures Calculate(HUGE, High, Unverified).Ok?
    ensures Calculate(HUGE, High, Unverified).value.reserveInflow == HUGE_INFLOW
    ensures Calculate(HUGE, High, Unverified).value.userDeduction == 9_000_000_000_000_000_000
    ensures Calculate(HUGE, High, Unverified).value.nodeSpendableQuota == 3_600_000_000_000_000_000
  {
    CalculateExact(HUGE, High, Unverified, 9_000_000_000_000_000_000, 3_600_000_000_000_000_000, 5_400_000_000_000_000_000);
  }

  lemma ShortReference()
    ensures ValidReference("r")
  {
    assert "r"[1..] == "" && !IsWhitespace('r') && 'r' in "r";
  }

  lemma {:induction false} RunAppend(events: seq<Event>, e: Event)
    ensures Run(events + [e]) == Apply(Run(events), e)
  {
    hide Apply;
    assert (events + [e])[..|events|] == events;
  }

  const HUGE_SETTLE := Settle(HUGE, High, Unverified)
  const HUGE_RELEASE := ReleaseEvent(HUGE_INFLOW, "r")

  function TornRun(): seq<Event> {
    [] + [HUGE_SETTLE] + [HUGE_RELEASE] + [HUGE_SETTLE]
  }

  lemma ThreeSteps()
    ensures var a := Apply(START, HUGE_SETTLE); var b := Apply(a, HUGE_RELEASE); var c := Apply(b, HUGE_SETTLE);
            && a.books == ReserveBooks(HUGE_INFLOW, HUGE_INFLOW, 0) && a.torn == 0
            && b.books == ReserveBooks(0, HUGE_INFLOW, HUGE_INFLOW) && b.torn == 0
            && c.books == ReserveBooks(HUGE_INFLOW, HUGE_INFLOW, HUGE_INFLOW) && c.torn == HUGE_INFLOW
  {
    HugeSettlement();
    ShortReference();
    hide Calculate, ValidReference;
  }

  /** The condition is met by real runs: after these two settlements and one release the balance is not
      inflow minus outflow. */
  lemma TornRunExists()
    ensures Run(TornRun()).torn > 0
    ensures var b := Run(TornRun()).books; b.balance != b.totalInflow - b.totalOutflow
    ensures exists i :: 0 <= i < |TornRun()| && TornStep(TornRun(), i)
  {
    ThreeSteps();
    hide Run, Apply, TornStep;
    NothingRun();
    RunAppend([], HUGE_SETTLE);
    RunAppend([] + [HUGE_SETTLE], HUGE_RELEASE);
    RunAppend([] + [HUGE_SETTLE] + [HUGE_RELEASE], HUGE_SETTLE);
    BooksBalanceIff(TornRun());
  }

  lemma NothingRun()
    ensures Run([]) == START
  {
  }

  /** The reserve takes the inflow of a settlement exactly when the base cost is positive and both the
      balance and the lifetime total have room for it. */
  lemma InflowTakenIff(s: ReserveBooks, base: MicroQuota, tier: PerformanceTier, trust: TrustClass)
    requires Calculate(base, tier, trust).Ok?
    ensures var inflow := Calculate(base, tier, trust).value.reserveInflow;
            AddInflowTo(s, inflow).1.Ok? <==>
              base > 0 && s.balance + inflow <= I64_MAX && s.totalInflow + inflow <= I64_MAX
  {
    SettlementConserves(base, tier, trust);
    hide Calculate;
  }
}
