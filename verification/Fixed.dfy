/** Fixed-point money: microquota amounts and the settlement of one request
    (crates/mindone-accounting/src/fixed.rs). */
module Fixed {
  import opened Wrappers
  import opened Machine

  datatype AccountingError =
    | NegativeAmount
    | Overflow
    | InsufficientBalance(required: i64, available: i64)
    | InvalidBilling
    | InvalidReserveRelease

  const MULTIPLIER_SCALE := 1_000

  type MicroQuota = x: int | 0 <= x <= I64_MAX

  function NewMicroQuota(value: i64): Result<MicroQuota, AccountingError> {
    if value < 0 then Err(NegativeAmount) else Ok(value)
  }

  /** A step of 128-bit arithmetic. */
  function Wide(x: int): Result<int, AccountingError> {
    if FitsI128(x) then Ok(x) else Err(Overflow)
  }

  /** Storage back into 64 bits. */
  function Narrow(x: int): Result<i64, AccountingError> {
    if FitsI64(x) then Ok(x) else Err(Overflow)
  }

  function CheckedAdd(a: MicroQuota, b: MicroQuota): Result<MicroQuota, AccountingError> {
    var sum :- Narrow(a + b);
    NewMicroQuota(sum)
  }

  function CheckedSub(a: MicroQuota, b: MicroQuota): Result<MicroQuota, AccountingError> {
    if b > a then Err(InsufficientBalance(b, a)) else NewMicroQuota(a - b)
  }

  datatype PerformanceTier = High | Medium | Low {
    function MultiplierMilli(): i64 {
      match this
      case High => 1_500
      case Medium => 1_000
      case Low => 700
    }
  }

  datatype TrustClass = Enhanced | Standard | Unverified {
    function MultiplierMilli(): i64 {
      match this
      case Enhanced => 1_100
      case Standard => 1_000
      case Unverified => 500
    }
  }

  function MulRatioCeil(value: i64, numerator: i64, denominator: int): Result<i64, AccountingError>
    requires denominator > 0
  {
    var product :- Wide(value * numerator);
    var adjusted :- Wide(product + (denominator - 1));
    Narrow(TruncDiv(adjusted, denominator))
  }

  function MulTwoRatiosFloor(value: i64, firstMilli: i64, secondMilli: i64): Result<i64, AccountingError> {
    var first :- Wide(value * firstMilli);
    var product :- Wide(first * secondMilli);
    Narrow(TruncDiv(product, MULTIPLIER_SCALE * MULTIPLIER_SCALE))
  }

  datatype Settlement = Settlement(
    baseCost: MicroQuota,
    userDeduction: MicroQuota,
    nodeSpendableQuota: MicroQuota,
    nodeContributionPoints: MicroQuota,
    reserveInflow: MicroQuota,
    performanceTier: PerformanceTier,
    trustClass: TrustClass)

  function Calculate(baseCost: MicroQuota, tier: PerformanceTier, trust: TrustClass): Result<Settlement, AccountingError> {
    var deducted :- MulRatioCeil(baseCost, tier.MultiplierMilli(), MULTIPLIER_SCALE);
    var userDeduction :- NewMicroQuota(deducted);
    var spendable :- MulTwoRatiosFloor(userDeduction, 800, trust.MultiplierMilli());
    var nodeSpendableQuota :- NewMicroQuota(spendable);
    var points :- MulTwoRatiosFloor(userDeduction, 1_200, trust.MultiplierMilli());
    var nodeContributionPoints :- NewMicroQuota(points);
    var reserveInflow :- CheckedSub(userDeduction, nodeSpendableQuota);
    Ok(Settlement(baseCost, userDeduction, nodeSpendableQuota, nodeContributionPoints, reserveInflow, tier, trust))
  }

  // ---- exact rounding ----

  /** `q` is `x / d` rounded up. */
  ghost predicate IsCeil(q: int, x: int, d: int) {
    d * (q - 1) < x <= d * q
  }

  /** `q` is `x / d` rounded down. */
  ghost predicate IsFloor(q: int, x: int, d: int) {
    d * q <= x < d * (q + 1)
  }

  function CeilDiv(x: nat, d: int): int
    requires d > 0
  {
    (x + d - 1) / d
  }

  lemma CeilExact(value: MicroQuota, tier: PerformanceTier, q: int)
    requires IsCeil(q, value * tier.MultiplierMilli(), 1_000)
    ensures FitsI128(value * tier.MultiplierMilli() + 999)
    ensures MulRatioCeil(value, tier.MultiplierMilli(), MULTIPLIER_SCALE) == Narrow(q) && 0 <= q
  {
    var m := tier.MultiplierMilli();
    assert m == 1_500 || m == 1_000 || m == 700;
    assert 0 <= value * m <= 1_500 * I64_MAX;
  }

  lemma FloorExact(value: MicroQuota, first: i64, trust: TrustClass, q: int)
    requires first == 800 || first == 1_200
    requires IsFloor(q, value * first * trust.MultiplierMilli(), 1_000_000)
    ensures FitsI128(value * first * trust.MultiplierMilli())
    ensures MulTwoRatiosFloor(value, first, trust.MultiplierMilli()) == Narrow(q) && 0 <= q
  {
    var m := trust.MultiplierMilli();
    assert m == 1_100 || m == 1_000 || m == 500;
    var x := value * first;
    assert 0 <= x <= 1_200 * I64_MAX;
    assert 0 <= x * m <= 1_100 * 1_200 * I64_MAX;
  }

  /** A settlement fails only on 64-bit storage: it succeeds exactly when deduction and contribution,
      as rounded, fit, and then holds the rounded values. No 128-bit check ever fires. */
  lemma CalculateExact(base: MicroQuota, tier: PerformanceTier, trust: TrustClass, d: int, node: int, points: int)
    requires IsCeil(d, base * tier.MultiplierMilli(), 1_000)
    requires IsFloor(node, d * 800 * trust.MultiplierMilli(), 1_000_000)
    requires IsFloor(points, d * 1_200 * trust.MultiplierMilli(), 1_000_000)
    ensures FitsI128(base * tier.MultiplierMilli() + 999)
    ensures d <= I64_MAX ==> FitsI128(d * 1_200 * trust.MultiplierMilli())
    ensures Calculate(base, tier, trust) ==
            if d <= I64_MAX && points <= I64_MAX
            then Ok(Settlement(base, d, node, points, d - node, tier, trust))
            else Err(Overflow)
  {
    hide MulRatioCeil, MulTwoRatiosFloor, IsCeil, IsFloor;
    CeilExact(base, tier, d);
    if d <= I64_MAX {
      FloorExact(d, 800, trust, node);
      FloorExact(d, 1_200, trust, points);
      NodePartWithin(d, trust, node);
    }
  }

  lemma NodePartWithin(d: nat, trust: TrustClass, node: int)
    requires IsFloor(node, d * 800 * trust.MultiplierMilli(), 1_000_000)
    ensures 0 <= node && 100 * node <= 88 * d && (d > 0 ==> node < d)
  {
    var m := trust.MultiplierMilli();
    assert m == 1_100 || m == 1_000 || m == 500;
  }

  lemma DeductionMonotone(small: MicroQuota, tier: PerformanceTier, d: int, large: MicroQuota, d': int)
    requires small <= large
    requires IsCeil(d, small * tier.MultiplierMilli(), 1_000) && IsCeil(d', large * High.MultiplierMilli(), 1_000)
    ensures d <= d'
  {
    var m := tier.MultiplierMilli();
    assert m == 1_500 || m == 1_000 || m == 700;
    assert small * m <= large * 1_500;
  }

  lemma PointsMonotone(d: nat, trust: TrustClass, p: int, d': nat, p': int)
    requires d <= d'
    requires IsFloor(p, d * 1_200 * trust.MultiplierMilli(), 1_000_000)
    requires IsFloor(p', d' * 1_200 * Enhanced.MultiplierMilli(), 1_000_000)
    ensures p <= p'
  {
    var m := trust.MultiplierMilli();
    assert m == 1_100 || m == 1_000 || m == 500;
    assert d * 1_200 * m <= d' * 1_200 * 1_100;
  }

  lemma Rounded(base: MicroQuota, tier: PerformanceTier, trust: TrustClass) returns (d: nat, node: nat, points: nat)
    ensures IsCeil(d, base * tier.MultiplierMilli(), 1_000)
    ensures IsFloor(node, d * 800 * trust.MultiplierMilli(), 1_000_000)
    ensures IsFloor(points, d * 1_200 * trust.MultiplierMilli(), 1_000_000)
  {
    d := CeilDiv(base * tier.MultiplierMilli(), 1_000);
    node := d * 800 * trust.MultiplierMilli() / 1_000_000;
    points := d * 1_200 * trust.MultiplierMilli() / 1_000_000;
  }

  /** Every deduction splits without loss into node quota and reserve inflow; the reserve's part is
      at least 12%, and is positive exactly when the base cost is. */
  lemma SettlementConserves(base: MicroQuota, tier: PerformanceTier, trust: TrustClass)
    requires Calculate(base, tier, trust).Ok?
    ensures var s := Calculate(base, tier, trust).value;
            && s.userDeduction == s.nodeSpendableQuota + s.reserveInflow
            && 100 * s.reserveInflow >= 12 * s.userDeduction
            && (s.reserveInflow > 0 <==> base > 0)
            && IsCeil(s.userDeduction, base * tier.MultiplierMilli(), 1_000)
            && IsFloor(s.nodeSpendableQuota, s.userDeduction * 800 * trust.MultiplierMilli(), 1_000_000)
  {
    var d, node, points := Rounded(base, tier, trust);
    CalculateExact(base, tier, trust, d, node, points);
    NodePartWithin(d, trust, node);
    hide Calculate;
    var m := tier.MultiplierMilli();
    assert m == 1_500 || m == 1_000 || m == 700;
  }

  /** The rates, as the price list has them: High costs half as much again, Medium the base cost, Low
      seven tenths, rounded up; the node receives 88%, 80% or 40% of that, and points worth 132%, 120%
      or 60%, rounded down. */
  lemma RatesAre(base: MicroQuota, tier: PerformanceTier, trust: TrustClass)
    requires Calculate(base, tier, trust).Ok?
    ensures var s := Calculate(base, tier, trust).value;
            && s.baseCost == base && s.performanceTier == tier && s.trustClass == trust
            && (match tier
                case High => IsCeil(s.userDeduction, 3 * base, 2)
                case Medium => s.userDeduction == base
                case Low => IsCeil(s.userDeduction, 7 * base, 10))
            && (match trust
                case Enhanced =>
                  IsFloor(s.nodeSpendableQuota, 88 * s.userDeduction, 100)
                  && IsFloor(s.nodeContributionPoints, 33 * s.userDeduction, 25)
                case Standard =>
                  IsFloor(s.nodeSpendableQuota, 4 * s.userDeduction, 5)
                  && IsFloor(s.nodeContributionPoints, 6 * s.userDeduction, 5)
                case Unverified =>
                  IsFloor(s.nodeSpendableQuota, 2 * s.userDeduction, 5)
                  && IsFloor(s.nodeContributionPoints, 3 * s.userDeduction, 5))
  {
    var d, node, points := Rounded(base, tier, trust);
    CalculateExact(base, tier, trust, d, node, points);
    hide Calculate;
  }

  /** The worst case is the largest base cost at the High tier and the Enhanced class: if that
      settles, every smaller one settles at every tier and class and deducts no more. */
  lemma WorstCaseDominates(small: MicroQuota, large: MicroQuota, tier: PerformanceTier, trust: TrustClass)
    requires small <= large && Calculate(large, High, Enhanced).Ok?
    ensures Calculate(small, tier, trust).Ok?
    ensures Calculate(small, tier, trust).value.userDeduction <= Calculate(large, High, Enhanced).value.userDeduction
  {
    var d, node, points := Rounded(small, tier, trust);
    CalculateExact(small, tier, trust, d, node, points);
    var d', node', points' := Rounded(large, High, Enhanced);
    CalculateExact(large, High, Enhanced, d', node', points');
    hide Calculate;
    DeductionMonotone(small, tier, d, large, d');
    PointsMonotone(d, trust, points, d', points');
  }

  /** Deductions at one tier do not exceed the sum of the deductions of two parts that cover the base. */
  lemma DeductionSubadditive(whole: MicroQuota, a: MicroQuota, b: MicroQuota, tier: PerformanceTier, trust: TrustClass)
    requires whole <= a + b
    requires Calculate(whole, tier, trust).Ok? && Calculate(a, tier, trust).Ok? && Calculate(b, tier, trust).Ok?
    ensures Calculate(whole, tier, trust).value.userDeduction
            <= Calculate(a, tier, trust).value.userDeduction + Calculate(b, tier, trust).value.userDeduction
  {
    SettlementConserves(whole, tier, trust);
    SettlementConserves(a, tier, trust);
    SettlementConserves(b, tier, trust);
    hide Calculate;
  }
}
