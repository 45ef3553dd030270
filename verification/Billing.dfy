/** The coordinator-side price of a request: a frozen reference profile, three components each
    rounded up, and the reservation taken in advance (crates/mindone-accounting/src/billing.rs). */
module Billing {
  import opened Wrappers
  import opened Machine
  import opened Fixed
  import opened Division

  const TOKENS_PER_RATE_UNIT := 1_000
  const MICROSECONDS_PER_SECOND := 1_000_000
  const MIB_MICROSECONDS_PER_GIB_SECOND := 1_024 * MICROSECONDS_PER_SECOND

  datatype Profile = Profile(
    maximumInputTokens: i64,
    maximumOutputTokens: i64,
    fixedGpuTimeUs: i64,
    gpuTimeUsPer1kTokens: i64,
    referenceVramMib: i64,
    tokenRateMicroPer1k: i64,
    gpuRateMicroPerSecond: i64,
    vramRateMicroPerGibSecond: i64)

  datatype Quote = Quote(
    billableTokens: i64,
    referenceGpuTimeUs: i64,
    referenceVramMibMicroseconds: i64,
    tokenCost: MicroQuota,
    gpuCost: MicroQuota,
    vramCost: MicroQuota,
    baseCost: MicroQuota)

  function RequireNonnegative(value: i64): Result<(), AccountingError> {
    if value < 0 then Err(NegativeAmount) else Ok(())
  }

  function RequirePositive(value: i64): Result<(), AccountingError> {
    var _ :- RequireNonnegative(value);
    if value == 0 then Err(InvalidBilling) else Ok(())
  }

  function CheckedAddI64(left: i64, right: i64): Result<i64, AccountingError> {
    var sum :- Wide(left + right);
    Narrow(sum)
  }

  function CheckedMulI64(left: i64, right: i64): Result<i64, AccountingError> {
    var product :- Wide(left * right);
    Narrow(product)
  }

  function CeilMulDiv(left: i64, right: i64, denominator: int): Result<i64, AccountingError>
    requires denominator > 0
  {
    var _ :- RequireNonnegative(left);
    var _ :- RequireNonnegative(right);
    var product :- Wide(left * right);
    var adjusted :- Wide(product + (denominator - 1));
    Narrow(TruncDiv(adjusted, denominator))
  }

  function Validate(p: Profile): Result<(), AccountingError> {
    var _ :- RequireNonnegative(p.maximumInputTokens);
    var _ :- RequirePositive(p.maximumOutputTokens);
    var _ :- RequireNonnegative(p.fixedGpuTimeUs);
    var _ :- RequirePositive(p.gpuTimeUsPer1kTokens);
    var _ :- RequirePositive(p.referenceVramMib);
    var _ :- RequirePositive(p.tokenRateMicroPer1k);
    var _ :- RequirePositive(p.gpuRateMicroPerSecond);
    var _ :- RequirePositive(p.vramRateMicroPerGibSecond);
    var maximumBillableTokens :- CheckedAddI64(p.maximumInputTokens, p.maximumOutputTokens);
    var variableGpuTime :- CeilMulDiv(maximumBillableTokens, p.gpuTimeUsPer1kTokens, TOKENS_PER_RATE_UNIT);
    var gpuTime :- CheckedAddI64(p.fixedGpuTimeUs, variableGpuTime);
    var vramIntegral :- CheckedMulI64(gpuTime, p.referenceVramMib);
    var tokens :- CeilMulDiv(maximumBillableTokens, p.tokenRateMicroPer1k, TOKENS_PER_RATE_UNIT);
    var tokenCost :- NewMicroQuota(tokens);
    var gpu :- CeilMulDiv(gpuTime, p.gpuRateMicroPerSecond, MICROSECONDS_PER_SECOND);
    var gpuCost :- NewMicroQuota(gpu);
    var vram :- CeilMulDiv(vramIntegral, p.vramRateMicroPerGibSecond, MIB_MICROSECONDS_PER_GIB_SECOND);
    var vramCost :- NewMicroQuota(vram);
    var partial :- CheckedAdd(tokenCost, gpuCost);
    var baseCost :- CheckedAdd(partial, vramCost);
    var _ :- Calculate(baseCost, High, Enhanced);
    Ok(())
  }

  /** The arithmetic of a quote, after its arguments have been checked. */
  function PriceTokens(p: Profile, billableTokens: i64): Result<Quote, AccountingError> {
    var variableGpuTime :- CeilMulDiv(billableTokens, p.gpuTimeUsPer1kTokens, TOKENS_PER_RATE_UNIT);
    var gpuTime :- CheckedAddI64(p.fixedGpuTimeUs, variableGpuTime);
    var vramIntegral :- CheckedMulI64(gpuTime, p.referenceVramMib);
    var tokens :- CeilMulDiv(billableTokens, p.tokenRateMicroPer1k, TOKENS_PER_RATE_UNIT);
    var tokenCost :- NewMicroQuota(tokens);
    var gpu :- CeilMulDiv(gpuTime, p.gpuRateMicroPerSecond, MICROSECONDS_PER_SECOND);
    var gpuCost :- NewMicroQuota(gpu);
    var vram :- CeilMulDiv(vramIntegral, p.vramRateMicroPerGibSecond, MIB_MICROSECONDS_PER_GIB_SECOND);
    var vramCost :- NewMicroQuota(vram);
    var partial :- CheckedAdd(tokenCost, gpuCost);
    var baseCost :- CheckedAdd(partial, vramCost);
    Ok(Quote(billableTokens, gpuTime, vramIntegral, tokenCost, gpuCost, vramCost, baseCost))
  }

  function QuoteUpperBound(p: Profile, billableTokens: i64): Result<Quote, AccountingError> {
    var _ :- Validate(p);
    var _ :- RequirePositive(billableTokens);
    var maximumBillableTokens :- CheckedAddI64(p.maximumInputTokens, p.maximumOutputTokens);
    if billableTokens > maximumBillableTokens then Err(InvalidBilling) else PriceTokens(p, billableTokens)
  }

  function MaximumReservationQuote(p: Profile, inputTokens: i64, maxOutputTokens: i64): Result<Quote, AccountingError> {
    var _ :- RequireNonnegative(inputTokens);
    var _ :- RequirePositive(maxOutputTokens);
    if inputTokens > p.maximumInputTokens || maxOutputTokens > p.maximumOutputTokens then Err(InvalidBilling)
    else
      var billableTokens :- CheckedAddI64(inputTokens, maxOutputTokens);
      QuoteUpperBound(p, billableTokens)
  }

  function MaximumReservationMicro(p: Profile, inputTokens: i64, maxOutputTokens: i64): Result<MicroQuota, AccountingError> {
    var quote :- MaximumReservationQuote(p, inputTokens, maxOutputTokens);
    var settlement :- Calculate(quote.baseCost, High, Enhanced);
    Ok(settlement.userDeduction)
  }

  // ---- the price as plain integers ----

  /** `ceil(left * right / denominator)` over unbounded integers. */
  function Share(left: nat, right: nat, denominator: int): (q: int)
    requires denominator > 0
    ensures q >= 0
  {
    MulNonnegative(left, right);
    CeilDiv(left * right, denominator)
  }

  lemma MulNonnegative(x: nat, y: nat)
    ensures x * y >= 0
  {
  }

  ghost predicate PositiveRates(p: Profile) {
    && p.fixedGpuTimeUs >= 0 && p.gpuTimeUsPer1kTokens > 0 && p.referenceVramMib > 0
    && p.tokenRateMicroPer1k > 0 && p.gpuRateMicroPerSecond > 0 && p.vramRateMicroPerGibSecond > 0
  }

  ghost function GpuTime(p: Profile, t: nat): nat
    requires PositiveRates(p)
  {
    p.fixedGpuTimeUs + Share(t, p.gpuTimeUsPer1kTokens, TOKENS_PER_RATE_UNIT)
  }

  ghost function VramIntegral(p: Profile, t: nat): nat
    requires PositiveRates(p)
  {
    MulNonnegative(GpuTime(p, t), p.referenceVramMib);
    GpuTime(p, t) * p.referenceVramMib
  }

  ghost function TokenCost(p: Profile, t: nat): nat
    requires PositiveRates(p)
  {
    Share(t, p.tokenRateMicroPer1k, TOKENS_PER_RATE_UNIT)
  }

  ghost function GpuCost(p: Profile, t: nat): nat
    requires PositiveRates(p)
  {
    Share(GpuTime(p, t), p.gpuRateMicroPerSecond, MICROSECONDS_PER_SECOND)
  }

  ghost function VramCost(p: Profile, t: nat): nat
    requires PositiveRates(p)
  {
    Share(VramIntegral(p, t), p.vramRateMicroPerGibSecond, MIB_MICROSECONDS_PER_GIB_SECOND)
  }

  ghost function BaseCost(p: Profile, t: nat): nat
    requires PositiveRates(p)
  {
    TokenCost(p, t) + GpuCost(p, t) + VramCost(p, t)
  }

  /** Everything a quote stores for `t` tokens fits 64 bits. */
  ghost predicate Storable(p: Profile, t: nat)
    requires PositiveRates(p)
  {
    GpuTime(p, t) <= I64_MAX && VramIntegral(p, t) <= I64_MAX && BaseCost(p, t) <= I64_MAX
  }

  lemma ProductFits(left: i64, right: i64)
    requires left >= 0 && right >= 0
    ensures 0 <= left * right <= I64_MAX * I64_MAX
  {
    MulMonotone(left, right, I64_MAX, I64_MAX);
  }

  lemma MulMonotone(x: nat, y: nat, a: nat, b: nat)
    requires x <= a && y <= b
    ensures 0 <= x * y <= a * b
  {
    assert x * y <= a * y;
    assert a * y <= a * b;
  }

  /** The 128-bit checks of `ceil_mul_div` are dead; only the final narrowing can fail. */
  lemma CeilMulDivExact(left: i64, right: i64, denominator: int)
    requires left >= 0 && right >= 0 && 0 < denominator <= MIB_MICROSECONDS_PER_GIB_SECOND
    ensures CeilMulDiv(left, right, denominator) == Narrow(Share(left, right, denominator))
  {
    ProductFits(left, right);
  }

  lemma CheckedMulExact(left: i64, right: i64)
    requires left >= 0 && right >= 0
    ensures CheckedMulI64(left, right) == Narrow(left * right)
  {
    ProductFits(left, right);
  }

  /** A price exists exactly when it is storable, and then it is the exact one. */
  lemma PriceExact(p: Profile, t: i64)
    requires PositiveRates(p) && t >= 0
    ensures PriceTokens(p, t) ==
            if Storable(p, t)
            then Ok(Quote(t, GpuTime(p, t), VramIntegral(p, t), TokenCost(p, t), GpuCost(p, t), VramCost(p, t), BaseCost(p, t)))
            else Err(Overflow)
  {
    hide CeilMulDiv, CheckedMulI64, Share;
    CeilMulDivExact(t, p.gpuTimeUsPer1kTokens, TOKENS_PER_RATE_UNIT);
    CeilMulDivExact(t, p.tokenRateMicroPer1k, TOKENS_PER_RATE_UNIT);
    if GpuTime(p, t) <= I64_MAX {
      CheckedMulExact(GpuTime(p, t), p.referenceVramMib);
      CeilMulDivExact(GpuTime(p, t), p.gpuRateMicroPerSecond, MICROSECONDS_PER_SECOND);
      if VramIntegral(p, t) <= I64_MAX {
        CeilMulDivExact(VramIntegral(p, t), p.vramRateMicroPerGibSecond, MIB_MICROSECONDS_PER_GIB_SECOND);
      }
    }
  }

  /** `validate` accepts a profile exactly when its fields are in range and the price of its largest
      request exists and settles in the worst case. */
  lemma ValidateExact(p: Profile)
    ensures Validate(p).Ok? <==>
            && p.maximumInputTokens >= 0 && p.maximumOutputTokens > 0 && PositiveRates(p)
            && p.maximumInputTokens + p.maximumOutputTokens <= I64_MAX
            && PriceTokens(p, p.maximumInputTokens + p.maximumOutputTokens).Ok?
            && Calculate(PriceTokens(p, p.maximumInputTokens + p.maximumOutputTokens).value.baseCost, High, Enhanced).Ok?
  {
    hide Calculate, CeilMulDiv, CheckedMulI64;
  }

  // ---- monotonicity and subadditivity ----

  lemma ShareMonotone(x: nat, y: nat, right: nat, denominator: int)
    requires x <= y && denominator > 0
    ensures Share(x, right, denominator) <= Share(y, right, denominator)
  {
    assert x * right <= y * right;
    QuotientMonotone(x * right + denominator - 1, y * right + denominator - 1, denominator);
  }

  /** Rounding up covers, with the least multiple that does. */
  lemma CeilCovers(x: nat, d: int)
    requires d > 0
    ensures x <= d * CeilDiv(x, d)
  {
  }

  lemma CeilLeast(x: nat, d: int, q: int)
    requires d > 0 && x <= d * q
    ensures CeilDiv(x, d) <= q
  {
    QuotientMonotone(x + d - 1, d * q + (d - 1), d);
    QuotientUnique(d * q + (d - 1), d, q);
  }

  lemma ShareSubadditive(x: nat, y: nat, right: nat, denominator: int)
    requires denominator > 0
    ensures Share(x + y, right, denominator) <= Share(x, right, denominator) + Share(y, right, denominator)
  {
    var d := denominator;
    assert (x + y) * right == x * right + y * right;
    CeilSubadditive(x * right, y * right, d);
  }

  lemma CeilSubadditive(u: nat, v: nat, d: int)
    requires d > 0
    ensures CeilDiv(u + v, d) <= CeilDiv(u, d) + CeilDiv(v, d)
  {
    CeilCovers(u, d);
    CeilCovers(v, d);
    assert d * CeilDiv(u, d) + d * CeilDiv(v, d) == d * (CeilDiv(u, d) + CeilDiv(v, d));
    CeilLeast(u + v, d, CeilDiv(u, d) + CeilDiv(v, d));
  }

  lemma PriceMonotone(p: Profile, s: nat, t: nat)
    requires PositiveRates(p) && s <= t
    ensures GpuTime(p, s) <= GpuTime(p, t) && VramIntegral(p, s) <= VramIntegral(p, t) && BaseCost(p, s) <= BaseCost(p, t)
  {
    hide Share;
    ShareMonotone(s, t, p.gpuTimeUsPer1kTokens, TOKENS_PER_RATE_UNIT);
    ShareMonotone(s, t, p.tokenRateMicroPer1k, TOKENS_PER_RATE_UNIT);
    ShareMonotone(GpuTime(p, s), GpuTime(p, t), p.gpuRateMicroPerSecond, MICROSECONDS_PER_SECOND);
    assert GpuTime(p, s) * p.referenceVramMib <= GpuTime(p, t) * p.referenceVramMib;
    ShareMonotone(VramIntegral(p, s), VramIntegral(p, t), p.vramRateMicroPerGibSecond, MIB_MICROSECONDS_PER_GIB_SECOND);
  }

  lemma Distribute(k: nat, g: nat, h: nat, m: nat)
    requires k <= g + h
    ensures k * m <= g * m + h * m
  {
    assert (g + h) * m == g * m + h * m;
    MulMonotone(k, m, g + h, m);
  }

  lemma BaseCostSubadditive(p: Profile, s: nat, t: nat)
    requires PositiveRates(p)
    ensures BaseCost(p, s + t) <= BaseCost(p, s) + BaseCost(p, t)
  {
    hide Share;
    ShareSubadditive(s, t, p.gpuTimeUsPer1kTokens, TOKENS_PER_RATE_UNIT);
    ShareSubadditive(s, t, p.tokenRateMicroPer1k, TOKENS_PER_RATE_UNIT);
    var g, h, k := GpuTime(p, s), GpuTime(p, t), GpuTime(p, s + t);
    assert k <= g + h;
    ShareMonotone(k, g + h, p.gpuRateMicroPerSecond, MICROSECONDS_PER_SECOND);
    ShareSubadditive(g, h, p.gpuRateMicroPerSecond, MICROSECONDS_PER_SECOND);
    var v, w, x := VramIntegral(p, s), VramIntegral(p, t), VramIntegral(p, s + t);
    Distribute(k, g, h, p.referenceVramMib);
    ShareMonotone(x, v + w, p.vramRateMicroPerGibSecond, MIB_MICROSECONDS_PER_GIB_SECOND);
    ShareSubadditive(v, w, p.vramRateMicroPerGibSecond, MIB_MICROSECONDS_PER_GIB_SECOND);
  }

  // ---- the promises ----

  /** Pricing and settling `t` tokens works at every tier and trust class. */
  ghost predicate AlwaysSettles(p: Profile, t: i64) {
    PriceTokens(p, t).Ok?
    && forall tier, trust :: Calculate(PriceTokens(p, t).value.baseCost, tier, trust).Ok?
  }

  lemma SmallerSettles(p: Profile, t: i64, max: i64)
    requires PositiveRates(p) && 0 <= t <= max
    requires PriceTokens(p, max).Ok? && Calculate(PriceTokens(p, max).value.baseCost, High, Enhanced).Ok?
    ensures AlwaysSettles(p, t)
    ensures PriceTokens(p, t).value.baseCost <= PriceTokens(p, max).value.baseCost
  {
    hide PriceTokens, Calculate, GpuTime, VramIntegral, BaseCost;
    PriceExact(p, t);
    PriceExact(p, max);
    PriceMonotone(p, t, max);
    forall tier, trust ensures Calculate(PriceTokens(p, t).value.baseCost, tier, trust).Ok? {
      WorstCaseDominates(PriceTokens(p, t).value.baseCost, PriceTokens(p, max).value.baseCost, tier, trust);
    }
  }

  /** The one worst case `validate` checks stands for all: a profile is accepted exactly when its
      fields are in range and every request up to its maximum can be priced and settled at every
      tier and trust class. */
  lemma ValidateMeansTotal(p: Profile)
    ensures Validate(p).Ok? <==>
            && p.maximumInputTokens >= 0 && p.maximumOutputTokens > 0 && PositiveRates(p)
            && p.maximumInputTokens + p.maximumOutputTokens <= I64_MAX
            && forall t: i64 :: 1 <= t <= p.maximumInputTokens + p.maximumOutputTokens ==> AlwaysSettles(p, t)
  {
    hide PriceTokens, Calculate, Validate;
    ValidateExact(p);
    var max := p.maximumInputTokens + p.maximumOutputTokens;
    if Validate(p).Ok? {
      forall t: i64 | 1 <= t <= max ensures AlwaysSettles(p, t) {
        SmallerSettles(p, t, max);
      }
    } else if p.maximumInputTokens >= 0 && p.maximumOutputTokens > 0 && max <= I64_MAX {
      assert AlwaysSettles(p, max) ==> PriceTokens(p, max).Ok?;
    }
  }

  /** On an accepted profile a quote fails only for a token count outside `1..=maximum`. */
  lemma QuoteTotal(p: Profile, t: i64)
    requires Validate(p).Ok?
    ensures QuoteUpperBound(p, t).Ok? <==> 1 <= t <= p.maximumInputTokens + p.maximumOutputTokens
    ensures QuoteUpperBound(p, t).Ok? ==> QuoteUpperBound(p, t) == PriceTokens(p, t) && AlwaysSettles(p, t)
  {
    hide PriceTokens, Calculate, Validate;
    ValidateExact(p);
    ValidateMeansTotal(p);
    if 1 <= t <= p.maximumInputTokens + p.maximumOutputTokens {
      assert AlwaysSettles(p, t);
    }
  }

  lemma ShareIsCeil(left: nat, right: nat, d: int)
    requires d > 0
    ensures IsCeil(Share(left, right, d), left * right, d)
  {
    MulNonnegative(left, right);
    var x, q := left * right, CeilDiv(left * right, d);
    assert d * q <= x + d - 1 < d * q + d;
    Cancel(d, q - 1, q);
  }

  /** What a quote charges: GPU time per thousand tokens on top of the fixed time, video memory held for
      that time, and three costs, each rounded up on its own. */
  lemma QuoteAmounts(p: Profile, t: i64)
    requires QuoteUpperBound(p, t).Ok?
    ensures var q := QuoteUpperBound(p, t).value;
            && q.billableTokens == t >= 1
            && IsCeil(q.referenceGpuTimeUs - p.fixedGpuTimeUs, t * p.gpuTimeUsPer1kTokens, 1_000)
            && q.referenceVramMibMicroseconds == q.referenceGpuTimeUs * p.referenceVramMib
            && IsCeil(q.tokenCost, t * p.tokenRateMicroPer1k, 1_000)
            && IsCeil(q.gpuCost, q.referenceGpuTimeUs * p.gpuRateMicroPerSecond, 1_000_000)
            && IsCeil(q.vramCost, q.referenceVramMibMicroseconds * p.vramRateMicroPerGibSecond, 1_024_000_000)
            && q.baseCost == q.tokenCost + q.gpuCost + q.vramCost
  {
    AcceptedBy(p, t);
    QuoteTotal(p, t);
    PriceExact(p, t);
    hide PriceTokens, QuoteUpperBound, Validate, Calculate, Share, IsCeil;
    ShareIsCeil(t, p.gpuTimeUsPer1kTokens, TOKENS_PER_RATE_UNIT);
    ShareIsCeil(t, p.tokenRateMicroPer1k, TOKENS_PER_RATE_UNIT);
    ShareIsCeil(GpuTime(p, t), p.gpuRateMicroPerSecond, MICROSECONDS_PER_SECOND);
    ShareIsCeil(VramIntegral(p, t), p.vramRateMicroPerGibSecond, MIB_MICROSECONDS_PER_GIB_SECOND);
  }

  /** A reservation is granted exactly on an accepted profile for token counts within its two bounds. */
  lemma ReservationIff(p: Profile, input: i64, output: i64)
    ensures MaximumReservationMicro(p, input, output).Ok? <==>
              Validate(p).Ok? && 0 <= input <= p.maximumInputTokens && 1 <= output <= p.maximumOutputTokens
  {
    hide PriceTokens, Calculate, Validate, QuoteUpperBound;
    if 0 <= input <= p.maximumInputTokens && 1 <= output <= p.maximumOutputTokens {
      if Validate(p).Ok? {
        ValidateExact(p);
        QuoteTotal(p, input + output);
        SettlesAt(p, input + output, High, Enhanced);
      } else {
        RefusedBy(p, input, output);
      }
    }
  }

  lemma RefusedBy(p: Profile, input: i64, output: i64)
    requires Validate(p).Err?
    ensures MaximumReservationMicro(p, input, output).Err?
  {
    hide PriceTokens, Calculate, Validate, CheckedAddI64;
  }

  /** A reservation covers every settlement of the request it was taken for, and no smaller amount
      would: the full request at the High tier deducts it all. */
  lemma ReservationCovers(p: Profile, input: i64, output: i64, t: i64, tier: PerformanceTier, trust: TrustClass)
    requires MaximumReservationMicro(p, input, output).Ok?
    requires 1 <= t <= input + output
    ensures input + output <= I64_MAX && QuoteUpperBound(p, t).Ok? && QuoteUpperBound(p, input + output).Ok?
    ensures var s := Calculate(QuoteUpperBound(p, t).value.baseCost, tier, trust);
            s.Ok? && s.value.userDeduction <= MaximumReservationMicro(p, input, output).value
    ensures var s := Calculate(QuoteUpperBound(p, input + output).value.baseCost, High, trust);
            s.Ok? && s.value.userDeduction == MaximumReservationMicro(p, input, output).value
  {
    hide PriceTokens, Calculate, Validate, QuoteUpperBound;
    var total := input + output;
    assert QuoteUpperBound(p, total).Ok?;
    AcceptedBy(p, total);
    QuoteTotal(p, t);
    QuoteTotal(p, total);
    SmallerSettles(p, t, total);
    var full := PriceTokens(p, total).value.baseCost;
    WorstCaseDominates(PriceTokens(p, t).value.baseCost, full, tier, trust);
    WorstCaseDominates(full, full, High, trust);
    SameDeduction(full, trust);
  }

  lemma AcceptedBy(p: Profile, t: i64)
    requires QuoteUpperBound(p, t).Ok?
    ensures Validate(p).Ok? && PositiveRates(p)
  {
    hide PriceTokens, Calculate, CeilMulDiv, CheckedMulI64;
  }

  /** The trust class does not enter the deduction. */
  lemma SameDeduction(base: MicroQuota, trust: TrustClass)
    requires Calculate(base, High, trust).Ok? && Calculate(base, High, Enhanced).Ok?
    ensures Calculate(base, High, trust).value.userDeduction == Calculate(base, High, Enhanced).value.userDeduction
  {
    hide MulRatioCeil, MulTwoRatiosFloor;
  }

  lemma SettlesAt(p: Profile, t: i64, tier: PerformanceTier, trust: TrustClass)
    requires AlwaysSettles(p, t)
    ensures PriceTokens(p, t).Ok? && Calculate(PriceTokens(p, t).value.baseCost, tier, trust).Ok?
  {
    hide PriceTokens, Calculate;
  }

  lemma PriceSplit(p: Profile, a: i64, b: i64)
    requires Validate(p).Ok?
    requires a >= 1 && b >= 1 && a + b <= p.maximumInputTokens + p.maximumOutputTokens
    ensures a + b <= I64_MAX
    ensures AlwaysSettles(p, a) && AlwaysSettles(p, b) && AlwaysSettles(p, a + b)
    ensures PriceTokens(p, a + b).value.baseCost <= PriceTokens(p, a).value.baseCost + PriceTokens(p, b).value.baseCost
  {
    hide PriceTokens, Calculate, Validate, BaseCost, GpuTime, VramIntegral;
    ValidateExact(p);
    ValidateMeansTotal(p);
    PriceExact(p, a);
    PriceExact(p, b);
    PriceExact(p, a + b);
    BaseCostSubadditive(p, a, b);
  }

  /** Splitting a request never lowers the bill: base cost and deduction of the whole are at most
      the sums over the parts. */
  lemma SplittingNeverSaves(p: Profile, a: i64, b: i64, tier: PerformanceTier, trust: TrustClass)
    requires Validate(p).Ok?
    requires a >= 1 && b >= 1 && a + b <= p.maximumInputTokens + p.maximumOutputTokens
    ensures a + b <= I64_MAX
    ensures QuoteUpperBound(p, a).Ok? && QuoteUpperBound(p, b).Ok? && QuoteUpperBound(p, a + b).Ok?
    ensures var whole, x, y := QuoteUpperBound(p, a + b).value.baseCost, QuoteUpperBound(p, a).value.baseCost,
                               QuoteUpperBound(p, b).value.baseCost;
            && whole <= x + y
            && Calculate(whole, tier, trust).Ok? && Calculate(x, tier, trust).Ok? && Calculate(y, tier, trust).Ok?
            && Calculate(whole, tier, trust).value.userDeduction
               <= Calculate(x, tier, trust).value.userDeduction + Calculate(y, tier, trust).value.userDeduction
  {
    hide PriceTokens, Calculate, Validate, QuoteUpperBound, AlwaysSettles;
    PriceSplit(p, a, b);
    QuoteTotal(p, a);
    QuoteTotal(p, b);
    QuoteTotal(p, a + b);
    SettlesAt(p, a, tier, trust);
    SettlesAt(p, b, tier, trust);
    SettlesAt(p, a + b, tier, trust);
    DeductionSubadditive(PriceTokens(p, a + b).value.baseCost, PriceTokens(p, a).value.baseCost,
                         PriceTokens(p, b).value.baseCost, tier, trust);
  }
}
