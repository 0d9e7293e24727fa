/** The averaging arithmetic of the stock calculator's `calculate()`
    (js/calculator.js): the reverse solve of target mode, the position guard,
    and the forward projection of the position after an additional purchase.

    Every input arrives already parsed (`parseFloat(..) || 0`); the globals for
    the calculation mode and the currency tab, the fee checkbox and the
    exchange rates become explicit parameters, and each `alert`-and-return
    becomes a `Fail` outcome. */
module Averaging {
  import opened Wrappers
  import opened RealArith

  /** The trading fee charged on the additional purchase when fees are on. */
  const TradingFee: real := 0.0025

  /** Why a run stops without a result. */
  datatype Failure =
    | PriceEqualsTarget   // target average equals the fee-adjusted buy price
    | TargetUnreachable   // the solved share count is not positive
    | InvalidPosition     // no current shares or no current average price

  datatype Outcome<+T> = Ok(value: T) | Fail(failure: Failure)

  /** How the additional purchase is chosen: typed in directly, or solved
      from a target average; an absent buy price means the field was empty. */
  datatype Mode =
    | Manual(additionalShares: real, additionalPrice: real)
    | Target(targetAverage: real, targetBuyPrice: Option<real>)

  /** The currency tab: US stocks are converted to won, Korean ones are not. */
  datatype Tab = UsStock | KrStock

  datatype Request = Request(
    currentShares: real,
    currentPrice: real,
    marketPrice: real,
    includeFees: bool,
    mode: Mode,
    tab: Tab,
    liveRate: real,                 // USD to KRW rate shown on the dashboard
    originalRateInput: Option<real> // USD to KRW rate when the position was bought
  )

  /** The purchase the projection applies: share count and price per share. */
  datatype Purchase = Purchase(shares: real, price: real)

  /** The conversion multipliers for the new purchase and the old position. */
  datatype Rates = Rates(exchange: real, original: real)

  datatype Report = Report(
    additionalShares: real,
    additionalPrice: real,
    totalCostBefore: real,
    totalAdditionalCost: real,
    totalSharesAfter: real,
    totalCostAfter: real,
    averageAfter: Option<real>,
    averageChange: Option<real>,
    averageChangePct: Option<real>,
    currentReturnPct: real,
    returnPctAfter: Option<real>,
    recoveryPct: Option<real>,
    requiredKrw: real,
    totalKrw: real,
    profitAtOldAverage: real,
    profitPctAtOldAverage: Option<real>
  )

  /** The fee rate the checkbox selects: 0.25% when fees are on, none when off. */
  function FeeRate(includeFees: bool): (rate: real)
    ensures includeFees ==> rate == 0.0025
    ensures !includeFees ==> rate == 0.0
  {
    if includeFees then TradingFee else 0.0
  }

  /** The price per share actually paid once the fee is added: the buy price
      times one plus the fee rate, which is the price itself with fees off. */
  function EffectivePrice(price: real, includeFees: bool): (e: real)
    ensures includeFees ==> e == price * 1.0025
    ensures !includeFees ==> e == price
    ensures price > 0.0 ==> e >= price > 0.0
  {
    // one branch per fee setting keeps the price a linear term for the solver
    if includeFees then price * (1.0 + TradingFee) else price
  }

  /** JavaScript's `x || fallback` on an already parsed number: an empty
      field and a zero both fall back. */
  function OrElse(input: Option<real>, fallback: real): (r: real)
    ensures input.Some? && input.value != 0.0 ==> r == input.value
    ensures input.None? || input.value == 0.0 ==> r == fallback
  {
    match input
    case Some(v) => if v != 0.0 then v else fallback
    case None => fallback
  }

  /** The position guard that every reported result has passed. */
  predicate ValidPosition(shares: real, price: real): (valid: bool)
    ensures valid ==> shares * price > 0.0
  {
    shares > 0.0 && price > 0.0
  }

  /** The reverse solve runs only for a positive target, a positive buy price
      and a non-empty position. */
  predicate SolveApplies(shares: real, target: real, buyPrice: real): (applies: bool)
    ensures applies ==> target * shares > 0.0
    ensures applies ==> EffectivePrice(buyPrice, true) > 0.0 && EffectivePrice(buyPrice, false) > 0.0
  {
    target > 0.0 && buyPrice > 0.0 && shares > 0.0
  }

  /** The exact, unrounded share count that brings the average to `target`
      when buying at `effective` per share. */
  function UnroundedShares(shares: real, price: real, target: real, effective: real): (x: real)
    requires target != effective
    ensures x * (target - effective) == shares * price - target * shares
  {
    (shares * price - target * shares) / (target - effective)
  }

  /** Target mode's reverse solve: the whole number of shares to buy so that
      the average reaches the target, zero when the solve does not apply. */
  function ReverseSolve(shares: real, price: real, target: real, buyPrice: real, includeFees: bool): (r: Outcome<real>)
    ensures !SolveApplies(shares, target, buyPrice) ==> r == Ok(0.0)
    ensures r.Ok? || r.failure == PriceEqualsTarget || r.failure == TargetUnreachable
    ensures (r == Fail(PriceEqualsTarget)) <==>
              SolveApplies(shares, target, buyPrice) && target == EffectivePrice(buyPrice, includeFees)
    ensures (r == Fail(TargetUnreachable)) <==>
              && SolveApplies(shares, target, buyPrice)
              && target != EffectivePrice(buyPrice, includeFees)
              && UnroundedShares(shares, price, target, EffectivePrice(buyPrice, includeFees)) <= 0.0
    ensures r.Ok? && SolveApplies(shares, target, buyPrice) ==>
              && target != EffectivePrice(buyPrice, includeFees)
              && var x := UnroundedShares(shares, price, target, EffectivePrice(buyPrice, includeFees));
                 && r.value == r.value.Floor as real
                 && r.value >= x
                 && r.value - 1.0 < x
                 && r.value >= 1.0
  {
    if !SolveApplies(shares, target, buyPrice) then Ok(0.0)
    else
      var effective := EffectivePrice(buyPrice, includeFees);
      if target - effective == 0.0 then Fail(PriceEqualsTarget)
      else
        var x := UnroundedShares(shares, price, target, effective);
        if x <= 0.0 then Fail(TargetUnreachable)
        else Ok(Ceil(x) as real)
  }

  /** The purchase a request asks for: the typed-in one, or the solved one at
      the target buy price (the market price when that field is empty). */
  function ResolvePurchase(q: Request): (r: Outcome<Purchase>)
    ensures q.mode.Manual? ==> r == Ok(Purchase(q.mode.additionalShares, q.mode.additionalPrice))
    ensures q.mode.Target? ==>
              && var buyPrice := OrElse(q.mode.targetBuyPrice, q.marketPrice);
                 && var solved := ReverseSolve(q.currentShares, q.currentPrice, q.mode.targetAverage, buyPrice, q.includeFees);
                    && (r.Fail? <==> solved.Fail?)
                    && (r.Fail? ==> r.failure == solved.failure && r.failure != InvalidPosition)
                    && (r.Ok? ==> r.value == Purchase(solved.value, buyPrice))
  {
    match q.mode
    case Manual(a, b) => Ok(Purchase(a, b))
    case Target(t, input) =>
      var buyPrice := OrElse(input, q.marketPrice);
      match ReverseSolve(q.currentShares, q.currentPrice, t, buyPrice, q.includeFees)
      case Fail(f) => Fail(f)
      case Ok(n) => Ok(Purchase(n, buyPrice))
  }

  /** The exchange rates: the live rate and the original rate (defaulting to
      the live one) on the US tab, the identity on the Korean tab. */
  function ResolveRates(tab: Tab, liveRate: real, originalRateInput: Option<real>): (r: Rates)
    ensures tab == KrStock ==> r == Rates(1.0, 1.0)
    ensures tab == UsStock ==> r.exchange == liveRate
    ensures tab == UsStock && originalRateInput.Some? && originalRateInput.value != 0.0 ==>
              r.original == originalRateInput.value
    ensures tab == UsStock && (originalRateInput.None? || originalRateInput.value == 0.0) ==>
              r.original == liveRate
  {
    match tab
    case UsStock => Rates(liveRate, OrElse(originalRateInput, liveRate))
    case KrStock => Rates(1.0, 1.0)
  }

  /** The cost of the additional purchase, fee included (the existing
      position is never charged). */
  function AdditionalCost(p: Purchase, includeFees: bool): (c: real)
    ensures c == p.shares * EffectivePrice(p.price, includeFees)
  {
    var raw := p.shares * p.price;
    var fee := if includeFees then raw * TradingFee else 0.0;
    raw + fee
  }

  /** The new average cost: total cost over total shares, absent when the
      total share count is zero. */
  function AverageAfter(shares: real, price: real, p: Purchase, includeFees: bool): (r: Option<real>)
    ensures r.Some? <==> shares + p.shares != 0.0
    ensures r.Some? ==> r.value * (shares + p.shares) == shares * price + AdditionalCost(p, includeFees)
  {
    Quotient(shares * price + AdditionalCost(p, includeFees), shares + p.shares)
  }

  /** The forward projection of a valid position after `p`, with the fee charged
      on the purchase only. */
  function Project(shares: real, price: real, market: real, includeFees: bool, p: Purchase, rates: Rates): (r: Report)
    requires ValidPosition(shares, price)
    ensures r.additionalShares == p.shares && r.additionalPrice == p.price
    ensures r.totalSharesAfter == shares + p.shares
    ensures r.totalCostBefore == shares * price
    ensures r.totalAdditionalCost == p.shares * EffectivePrice(p.price, includeFees)
    ensures r.totalCostAfter == shares * price + p.shares * EffectivePrice(p.price, includeFees)
    ensures r.averageAfter == AverageAfter(shares, price, p, includeFees)
    ensures r.averageChangePct.Some? <==> r.averageAfter.Some?
    ensures r.recoveryPct.Some? <==> r.averageAfter.Some? && market != 0.0
    ensures r.returnPctAfter.Some? <==> r.totalCostAfter != 0.0
    ensures r.profitPctAtOldAverage.Some? <==> r.totalCostAfter != 0.0
  {
    var costBefore := shares * price;
    var additional := AdditionalCost(p, includeFees);
    var sharesAfter := shares + p.shares;
    var costAfter := costBefore + additional;
    var average := AverageAfter(shares, price, p, includeFees);
    var change := match average case Some(a) => Some(a - price) case None => None;
    var changePct := match change case Some(c) => Percent(c, price) case None => None;
    var recovery := match average case Some(a) => Percent(a - market, market) case None => None;
    var profit := price * sharesAfter - costAfter;
    assert costBefore > 0.0;
    Report(
      p.shares, p.price,
      costBefore, additional,
      sharesAfter, costAfter,
      average, change, changePct,
      Percent(shares * market - costBefore, costBefore).value,
      Percent(sharesAfter * market - costAfter, costAfter),
      recovery,
      additional * rates.exchange,
      costBefore * rates.original + additional * rates.exchange,
      profit,
      Percent(profit, costAfter)
    )
  }

  /** The whole of `calculate()`: resolve the purchase (its aborts come
      first), then the position guard, then the projection. */
  function Calculate(q: Request): (r: Outcome<Report>)
    ensures r.Ok? ==> ValidPosition(q.currentShares, q.currentPrice)
    ensures q.mode.Manual? ==> (r.Ok? <==> ValidPosition(q.currentShares, q.currentPrice))
    ensures r.Ok? <==> ResolvePurchase(q).Ok? && ValidPosition(q.currentShares, q.currentPrice)
    ensures r == Fail(InvalidPosition) <==>
              ResolvePurchase(q).Ok? && !ValidPosition(q.currentShares, q.currentPrice)
    ensures ResolvePurchase(q).Fail? ==> r == Fail(ResolvePurchase(q).failure)
    ensures r.Ok? ==> ResolvePurchase(q) == Ok(Purchase(r.value.additionalShares, r.value.additionalPrice))
    ensures r.Ok? ==> r.value.totalSharesAfter == q.currentShares + r.value.additionalShares
    ensures r.Ok? ==>
              r.value == Project(q.currentShares, q.currentPrice, q.marketPrice, q.includeFees,
                                 ResolvePurchase(q).value, ResolveRates(q.tab, q.liveRate, q.originalRateInput))
  {
    var resolved := ResolvePurchase(q);
    if resolved.Fail? then Fail(resolved.failure)
    else if q.currentShares <= 0.0 || q.currentPrice <= 0.0 then Fail(InvalidPosition)
    else
      var report := Project(q.currentShares, q.currentPrice, q.marketPrice, q.includeFees, resolved.value,
                            ResolveRates(q.tab, q.liveRate, q.originalRateInput));
      Ok(report)
  }
}
