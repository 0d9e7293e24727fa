/** Properties of the averaging arithmetic: the reverse solve's derivation
    and the minimality of its rounding, the weighted-mean bounds of the new
    average, the break-even and scenario figures, the currency conversions,
    and the order in which the aborts are reported. */
module AveragingLemmas {
  import opened Wrappers
  import opened RealArith
  import opened Averaging

  /** The unrounded count is exactly the quantity that satisfies the
      commented derivation `T*(S+X) = S*P + X*E`: it solves it, and nothing
      else does. */
  lemma UnroundedSharesSolveDerivation(shares: real, price: real, target: real, effective: real, y: real)
    requires target != effective
    ensures target * (shares + y) == shares * price + y * effective
            <==> y == UnroundedShares(shares, price, target, effective)
  {
  }

  /** Buying `added` shares at `effective` brings the mean to at most
      `target` exactly when `added` is at least the unrounded count (when the
      buy price is below the target), and at least `target` exactly when it is
      at least the count (when the buy price is above it). */
  lemma MeanVersusTarget(shares: real, price: real, target: real, effective: real, added: real, includeFees: bool, buyPrice: real)
    requires effective == EffectivePrice(buyPrice, includeFees)
    requires target != effective
    requires shares + added > 0.0
    ensures AverageAfter(shares, price, Purchase(added, buyPrice), includeFees).Some?
    ensures var mean := AverageAfter(shares, price, Purchase(added, buyPrice), includeFees).value;
            var x := UnroundedShares(shares, price, target, effective);
            && (target > effective ==> (mean <= target <==> added >= x))
            && (target < effective ==> (mean >= target <==> added >= x))
  {
    var mean := AverageAfter(shares, price, Purchase(added, buyPrice), includeFees).value;
    var n := shares * price - target * shares;
    var d := target - effective;
    var x := UnroundedShares(shares, price, target, effective);
    var k := shares + added;
    assert mean * k == shares * price + added * effective;
    assert x * d == n;
    var gap := mean - target;
    var surplus := added - x;
    assert gap * k == n - added * d;
    SignOfProduct(gap, k);
    if d > 0.0 {
      var shortfall := x - added;
      assert gap * k == shortfall * d;
      SignOfProduct(shortfall, d);
    } else {
      assert gap * k == surplus * (-d);
      SignOfProduct(surplus, -d);
    }
  }

  /** Averaging down (the buy price, fee included, is below the target): the
      rounded-up count reaches the target, and one share fewer does not. */
  lemma CeilingIsMinimalWhenAveragingDown(shares: real, price: real, target: real, buyPrice: real, includeFees: bool)
    requires SolveApplies(shares, target, buyPrice)
    requires target > EffectivePrice(buyPrice, includeFees)
    requires ReverseSolve(shares, price, target, buyPrice, includeFees).Ok?
    ensures var n := ReverseSolve(shares, price, target, buyPrice, includeFees).value;
            && n >= 1.0
            && AverageAfter(shares, price, Purchase(n, buyPrice), includeFees).Some?
            && AverageAfter(shares, price, Purchase(n, buyPrice), includeFees).value <= target
            && AverageAfter(shares, price, Purchase(n - 1.0, buyPrice), includeFees).Some?
            && AverageAfter(shares, price, Purchase(n - 1.0, buyPrice), includeFees).value > target
  {
    var e := EffectivePrice(buyPrice, includeFees);
    var n := ReverseSolve(shares, price, target, buyPrice, includeFees).value;
    MeanVersusTarget(shares, price, target, e, n, includeFees, buyPrice);
    MeanVersusTarget(shares, price, target, e, n - 1.0, includeFees, buyPrice);
  }

  /** A whole target-mode run that averages down: when the current average
      is above the target and the fee-adjusted buy price below it, the run
      succeeds, its new average is at or below the target, and it reports the
      least such count: with one share fewer the average would stay above the
      target. */
  lemma TargetRunReachesTarget(q: Request)
    requires q.mode.Target?
    requires ValidPosition(q.currentShares, q.currentPrice)
    requires SolveApplies(q.currentShares, q.mode.targetAverage, OrElse(q.mode.targetBuyPrice, q.marketPrice))
    requires q.mode.targetAverage > EffectivePrice(OrElse(q.mode.targetBuyPrice, q.marketPrice), q.includeFees)
    requires q.currentPrice > q.mode.targetAverage
    ensures Calculate(q).Ok?
    ensures var r := Calculate(q).value;
            var buyPrice := OrElse(q.mode.targetBuyPrice, q.marketPrice);
            && r.additionalPrice == buyPrice
            && r.additionalShares == ReverseSolve(q.currentShares, q.currentPrice, q.mode.targetAverage, buyPrice, q.includeFees).value
            && r.additionalShares >= 1.0
            && r.averageAfter.Some?
            && r.averageAfter.value <= q.mode.targetAverage
            && AverageAfter(q.currentShares, q.currentPrice, Purchase(r.additionalShares - 1.0, buyPrice), q.includeFees).Some?
            && AverageAfter(q.currentShares, q.currentPrice, Purchase(r.additionalShares - 1.0, buyPrice), q.includeFees).value
               > q.mode.targetAverage
  {
    var shares := q.currentShares;
    var target := q.mode.targetAverage;
    var buyPrice := OrElse(q.mode.targetBuyPrice, q.marketPrice);
    var e := EffectivePrice(buyPrice, q.includeFees);
    var x := UnroundedShares(shares, q.currentPrice, target, e);
    var drop := q.currentPrice - target;
    var margin := target - e;
    // x * (T - E) = S * (P - T), both factors on the right positive
    assert x * margin == drop * shares;
    SignOfProduct(drop, shares);
    SignOfProduct(x, margin);
    var solved := ReverseSolve(shares, q.currentPrice, target, buyPrice, q.includeFees);
    assert x > 0.0;
    assert solved.Ok?;
    CeilingIsMinimalWhenAveragingDown(shares, q.currentPrice, target, buyPrice, q.includeFees);
    assert ResolvePurchase(q) == Ok(Purchase(solved.value, buyPrice));
    assert Calculate(q).Ok?;
  }

  /** Averaging up (the buy price, fee included, is above the target yet the
      current average is below it): the source still solves, and the rounded-up
      count is the least whole count that lifts the average to the target. */
  lemma CeilingIsMinimalWhenAveragingUp(shares: real, price: real, target: real, buyPrice: real, includeFees: bool)
    requires SolveApplies(shares, target, buyPrice)
    requires target < EffectivePrice(buyPrice, includeFees)
    requires ReverseSolve(shares, price, target, buyPrice, includeFees).Ok?
    ensures price < target
    ensures var n := ReverseSolve(shares, price, target, buyPrice, includeFees).value;
            && n >= 1.0
            && AverageAfter(shares, price, Purchase(n, buyPrice), includeFees).Some?
            && AverageAfter(shares, price, Purchase(n, buyPrice), includeFees).value >= target
            && AverageAfter(shares, price, Purchase(n - 1.0, buyPrice), includeFees).Some?
            && AverageAfter(shares, price, Purchase(n - 1.0, buyPrice), includeFees).value < target
  {
    var e := EffectivePrice(buyPrice, includeFees);
    var n := ReverseSolve(shares, price, target, buyPrice, includeFees).value;
    var x := UnroundedShares(shares, price, target, e);
    assert x > 0.0;
    var rise := e - target;
    var below := target - price;
    // x * (target - e) = shares * (price - target), so x * rise = below * shares
    assert x * rise == below * shares;
    SignOfProduct(x, rise);
    SignOfProduct(below, shares);
    MeanVersusTarget(shares, price, target, e, n, includeFees, buyPrice);
    MeanVersusTarget(shares, price, target, e, n - 1.0, includeFees, buyPrice);
  }

  /** Buying nothing leaves the position as it was: average, cost, a zero
      change and no scenario profit. */
  lemma ProjectWithoutPurchase(shares: real, price: real, market: real, includeFees: bool, buyPrice: real, rates: Rates)
    requires ValidPosition(shares, price)
    ensures var r := Project(shares, price, market, includeFees, Purchase(0.0, buyPrice), rates);
            && r.totalSharesAfter == shares
            && r.totalCostAfter == shares * price
            && r.averageAfter == Some(price)
            && r.averageChange == Some(0.0)
            && r.averageChangePct == Some(0.0)
            && r.profitAtOldAverage == 0.0
  {
    var r := Project(shares, price, market, includeFees, Purchase(0.0, buyPrice), rates);
    PercentSign(r.averageChange.value, price);
  }

  /** When the reverse solve is skipped (target, buy price or current shares
      not positive), nothing is bought and a valid position is reported
      unchanged. */
  lemma SkippedSolveKeepsPosition(q: Request)
    requires q.mode.Target?
    requires !SolveApplies(q.currentShares, q.mode.targetAverage, OrElse(q.mode.targetBuyPrice, q.marketPrice))
    requires ValidPosition(q.currentShares, q.currentPrice)
    ensures Calculate(q).Ok?
    ensures var r := Calculate(q).value;
            && r.additionalShares == 0.0
            && r.totalCostAfter == q.currentShares * q.currentPrice
            && r.averageAfter == Some(q.currentPrice)
            && r.averageChangePct == Some(0.0)
  {
    var r := Calculate(q).value;
    PercentSign(r.averageChange.value, q.currentPrice);
  }

  /** With current shares and a non-negative purchase, the new average is a
      weighted mean: it lies between the old average and the fee-adjusted buy
      price, and strictly moves towards the buy price when shares are bought. */
  lemma AverageIsWeightedMean(shares: real, price: real, p: Purchase, includeFees: bool)
    requires shares > 0.0 && p.shares >= 0.0
    ensures var avg := AverageAfter(shares, price, p, includeFees);
            && avg.Some?
            && Between(avg.value, price, EffectivePrice(p.price, includeFees))
            && (p.shares > 0.0 && EffectivePrice(p.price, includeFees) < price ==> avg.value < price)
            && (p.shares > 0.0 && EffectivePrice(p.price, includeFees) > price ==> avg.value > price)
  {
    var avg := AverageAfter(shares, price, p, includeFees).value;
    WeightedMean(price, shares, EffectivePrice(p.price, includeFees), p.shares, avg);
  }

  /** After the guard, with a non-negative purchase: the old cost and the new
      share count are positive, and the badge is "good" (a negative change and
      a negative percentage) when buying below the old average, "bad" when
      buying above it. */
  lemma ChangeBadgeFollowsBuyPrice(shares: real, price: real, market: real, includeFees: bool, p: Purchase, rates: Rates)
    requires ValidPosition(shares, price)
    requires p.shares > 0.0
    ensures var r := Project(shares, price, market, includeFees, p, rates);
            && r.totalCostBefore > 0.0
            && r.totalSharesAfter > 0.0
            && (EffectivePrice(p.price, includeFees) < price ==>
                  r.averageChange.value < 0.0 && r.averageChangePct.value < 0.0)
            && (EffectivePrice(p.price, includeFees) > price ==>
                  r.averageChange.value > 0.0 && r.averageChangePct.value > 0.0)
  {
    SignOfProduct(price, shares);
    AverageIsWeightedMean(shares, price, p, includeFees);
  }

  /** A mean `m` of `a` and `b` with weights `wa > 0` and `wb >= 0` lies
      between them, and strictly moves towards `b` when `wb` is positive. */
  lemma WeightedMean(a: real, wa: real, b: real, wb: real, m: real)
    requires wa > 0.0 && wb >= 0.0
    requires m * (wa + wb) == wa * a + wb * b
    ensures Between(m, a, b)
    ensures wb > 0.0 && b < a ==> m < a
    ensures wb > 0.0 && b > a ==> m > a
  {
    var k := wa + wb;
    var up := m - a;
    var down := b - m;
    var span := b - a;
    assert up * k == span * wb;
    assert down * k == span * wa;
    SignOfProduct(up, k);
    SignOfProduct(down, k);
    SignOfProduct(span, wa);
    if wb > 0.0 {
      SignOfProduct(span, wb);
    } else {
      assert up * k == 0.0;
    }
  }

  /** The recovery percentage is positive exactly when the new average is
      above the market price (the position is under water), and zero exactly
      at break-even. */
  lemma RecoveryMeasuresDistanceToBreakEven(shares: real, price: real, market: real, includeFees: bool, p: Purchase, rates: Rates)
    requires ValidPosition(shares, price)
    requires market > 0.0
    requires shares + p.shares != 0.0
    ensures var r := Project(shares, price, market, includeFees, p, rates);
            && r.recoveryPct.Some?
            && (r.recoveryPct.value > 0.0 <==> r.averageAfter.value > market)
            && (r.recoveryPct.value == 0.0 <==> r.averageAfter.value == market)
            && r.recoveryPct.value * market == 100.0 * (r.averageAfter.value - market)
  {
  }

  /** The current return is positive exactly when the market price is above
      the old average, and negative exactly when it is below. */
  lemma CurrentReturnSign(shares: real, price: real, market: real, includeFees: bool, p: Purchase, rates: Rates)
    requires ValidPosition(shares, price)
    ensures var r := Project(shares, price, market, includeFees, p, rates);
            && (r.currentReturnPct > 0.0 <==> market > price)
            && (r.currentReturnPct < 0.0 <==> market < price)
  {
    var r := Project(shares, price, market, includeFees, p, rates);
    SignOfProduct(price, shares);
    assert shares * market - shares * price == (market - price) * shares;
    SignOfProduct(market - price, shares);
  }

  /** If the price returns to the old average, the profit is what the new
      shares gained against their fee-adjusted cost: A * (P - E). */
  lemma ScenarioProfitAtOldAverage(shares: real, price: real, market: real, includeFees: bool, p: Purchase, rates: Rates)
    requires ValidPosition(shares, price)
    ensures var r := Project(shares, price, market, includeFees, p, rates);
            r.profitAtOldAverage == p.shares * (price - EffectivePrice(p.price, includeFees))
  {
  }

  /** The fee-adjusted price and the purchase cost are the source's
      formulas in the checkbox's fee rate: price · (1 + rate), and the raw
      cost plus the raw cost times the rate. */
  lemma PricesFollowFeeRate(price: real, shares: real, includeFees: bool)
    ensures EffectivePrice(price, includeFees) == price * (1.0 + FeeRate(includeFees))
    ensures AdditionalCost(Purchase(shares, price), includeFees)
            == shares * price + shares * price * FeeRate(includeFees)
  {
  }

  /** The projection charges the fee (exactly 0.25% when fees are on,
      nothing when they are off) on the additional purchase only: the old
      position enters the total at its plain cost S * P. */
  lemma FeeOnlyOnPurchase(shares: real, price: real, market: real, includeFees: bool, p: Purchase, rates: Rates)
    requires ValidPosition(shares, price)
    ensures var r := Project(shares, price, market, includeFees, p, rates);
            && (includeFees ==> r.totalCostAfter == shares * price + p.shares * p.price * 1.0025)
            && (!includeFees ==> r.totalCostAfter == shares * price + p.shares * p.price)
  {
    assert EffectivePrice(p.price, includeFees) == p.price * (if includeFees then 1.0025 else 1.0);
  }

  /** The change figures: the average change is the new average less the old
      one and exists exactly when the new average does; its percentage and the
      recovery rate are those differences in percent of the old average and of
      the market price. */
  lemma ChangeFigures(shares: real, price: real, market: real, includeFees: bool, p: Purchase, rates: Rates)
    requires ValidPosition(shares, price)
    ensures var r := Project(shares, price, market, includeFees, p, rates);
            && (r.averageChange.Some? <==> r.averageAfter.Some?)
            && (r.averageChange.Some? ==> r.averageChange.value == r.averageAfter.value - price)
            && (r.averageChangePct.Some? ==> r.averageChangePct.value * price == 100.0 * r.averageChange.value)
            && (r.recoveryPct.Some? ==> r.recoveryPct.value * market == 100.0 * (r.averageAfter.value - market))
  {
  }

  /** The return figures: the current return and the return after buying
      are the market value's gain over the cost, in percent of that cost
      (S * P before the purchase, S * P plus the purchase cost after it). */
  lemma ReturnFigures(shares: real, price: real, market: real, includeFees: bool, p: Purchase, rates: Rates)
    requires ValidPosition(shares, price)
    ensures var r := Project(shares, price, market, includeFees, p, rates);
            r.currentReturnPct * (shares * price) == 100.0 * (shares * market - shares * price)
    ensures var r := Project(shares, price, market, includeFees, p, rates);
            r.returnPctAfter.Some? ==>
              r.returnPctAfter.value * (shares * price + AdditionalCost(p, includeFees))
              == 100.0 * ((shares + p.shares) * market - (shares * price + AdditionalCost(p, includeFees)))
  {
    var r := Project(shares, price, market, includeFees, p, rates);
    var before := shares * price;
    var after := before + AdditionalCost(p, includeFees);
    assert r.currentReturnPct == Percent(shares * market - before, before).value;
    assert r.returnPctAfter == Percent((shares + p.shares) * market - after, after);
  }

  /** If the price returns to the old average, the profit is what all the
      shares are worth at that price less their total cost, and its percentage
      is taken of that total cost. */
  lemma ProfitFigures(shares: real, price: real, market: real, includeFees: bool, p: Purchase, rates: Rates)
    requires ValidPosition(shares, price)
    ensures var r := Project(shares, price, market, includeFees, p, rates);
            r.profitAtOldAverage == price * (shares + p.shares) - (shares * price + AdditionalCost(p, includeFees))
    ensures var r := Project(shares, price, market, includeFees, p, rates);
            r.profitPctAtOldAverage.Some? ==>
              r.profitPctAtOldAverage.value * (shares * price + AdditionalCost(p, includeFees)) == 100.0 * r.profitAtOldAverage
  {
    var r := Project(shares, price, market, includeFees, p, rates);
    var after := shares * price + AdditionalCost(p, includeFees);
    assert r.profitAtOldAverage == price * (shares + p.shares) - after;
    assert r.profitPctAtOldAverage == Percent(r.profitAtOldAverage, after);
  }

  /** The won figures: the purchase cost is converted at the exchange rate,
      and the old position's cost S * P at the original rate. */
  lemma WonFigures(shares: real, price: real, market: real, includeFees: bool, p: Purchase, rates: Rates)
    requires ValidPosition(shares, price)
    ensures var r := Project(shares, price, market, includeFees, p, rates);
            r.requiredKrw == AdditionalCost(p, includeFees) * rates.exchange
    ensures var r := Project(shares, price, market, includeFees, p, rates);
            r.totalKrw == shares * price * rates.original + AdditionalCost(p, includeFees) * rates.exchange
  {
    var r := Project(shares, price, market, includeFees, p, rates);
    var added := AdditionalCost(p, includeFees);
    assert r.requiredKrw == added * rates.exchange;
    assert r.totalKrw == shares * price * rates.original + added * rates.exchange;
  }

  /** On the Korean tab the won figures are the plain costs: the purchase
      cost, and the total cost after it. */
  lemma WonOnKoreanTab(shares: real, price: real, market: real, includeFees: bool, p: Purchase,
                       liveRate: real, originalRateInput: Option<real>)
    requires ValidPosition(shares, price)
    ensures var r := Project(shares, price, market, includeFees, p, ResolveRates(KrStock, liveRate, originalRateInput));
            && r.requiredKrw == r.totalAdditionalCost
            && r.totalKrw == r.totalCostAfter
  {
    var rates := ResolveRates(KrStock, liveRate, originalRateInput);
    WonFigures(shares, price, market, includeFees, p, rates);
  }

  /** On the US tab the purchase is converted at the live rate. */
  lemma WonOnUsTab(shares: real, price: real, market: real, includeFees: bool, p: Purchase,
                   liveRate: real, originalRateInput: Option<real>)
    requires ValidPosition(shares, price)
    ensures var r := Project(shares, price, market, includeFees, p, ResolveRates(UsStock, liveRate, originalRateInput));
            r.requiredKrw == r.totalAdditionalCost * liveRate
  {
    WonFigures(shares, price, market, includeFees, p, ResolveRates(UsStock, liveRate, originalRateInput));
  }

  /** On the US tab with a non-zero original rate entered, the old position
      is converted at that rate and the purchase at the live rate. */
  lemma WonAtOriginalRate(shares: real, price: real, market: real, includeFees: bool, p: Purchase,
                          liveRate: real, originalRate: real)
    requires ValidPosition(shares, price)
    requires originalRate != 0.0
    ensures var r := Project(shares, price, market, includeFees, p, ResolveRates(UsStock, liveRate, Some(originalRate)));
            r.totalKrw == r.totalCostBefore * originalRate + r.totalAdditionalCost * liveRate
  {
    WonFigures(shares, price, market, includeFees, p, ResolveRates(UsStock, liveRate, Some(originalRate)));
  }

  /** On the US tab with no original rate entered (an empty or zero field),
      the whole position after the purchase is converted at the live rate. */
  lemma WonWithoutOriginalRate(shares: real, price: real, market: real, includeFees: bool, p: Purchase,
                               liveRate: real, originalRateInput: Option<real>)
    requires ValidPosition(shares, price)
    requires originalRateInput.None? || originalRateInput.value == 0.0
    ensures var r := Project(shares, price, market, includeFees, p, ResolveRates(UsStock, liveRate, originalRateInput));
            r.totalKrw == r.totalCostAfter * liveRate
  {
    var rates := ResolveRates(UsStock, liveRate, originalRateInput);
    var r := Project(shares, price, market, includeFees, p, rates);
    WonFigures(shares, price, market, includeFees, p, rates);
    var before := shares * price;
    var added := AdditionalCost(p, includeFees);
    assert r.totalKrw == before * liveRate + added * liveRate;
  }

  /** The reverse solve's aborts are reported before the position guard:
      an unsolvable target wins even when the current average is not
      positive. */
  lemma TargetAbortsPrecedePositionGuard(q: Request)
    requires q.mode.Target?
    requires SolveApplies(q.currentShares, q.mode.targetAverage, OrElse(q.mode.targetBuyPrice, q.marketPrice))
    ensures q.mode.targetAverage == EffectivePrice(OrElse(q.mode.targetBuyPrice, q.marketPrice), q.includeFees)
            ==> Calculate(q) == Fail(PriceEqualsTarget)
    ensures q.currentPrice <= 0.0 && q.mode.targetAverage > EffectivePrice(OrElse(q.mode.targetBuyPrice, q.marketPrice), q.includeFees)
            ==> Calculate(q) == Fail(TargetUnreachable)
  {
  }

  /** Ten shares at 100 plus ten bought at 80, no fees, market at 80: twenty
      shares costing 1800, a new average of 90 (down 10%), a 12.5% climb to
      break even, and a return of -100/9 % after the purchase. */
  lemma ManualScenario()
    ensures var q := Request(10.0, 100.0, 80.0, false, Manual(10.0, 80.0), KrStock, 1.0, None);
            && Calculate(q).Ok?
            && Calculate(q).value.totalSharesAfter == 20.0
            && Calculate(q).value.totalCostAfter == 1800.0
            && Calculate(q).value.averageAfter == Some(90.0)
            && Calculate(q).value.averageChangePct == Some(-10.0)
            && Calculate(q).value.recoveryPct == Some(12.5)
            && Calculate(q).value.returnPctAfter == Some(-100.0 / 9.0)
  {
  }

  /** A buy price whose fee-adjusted value is exactly the target cannot move
      the average to it: buying at the market price 400 with the fee on costs
      401 per share, the target. (400 · 1.0025 is 401 in double precision
      too, so the program's own comparison with zero fires here.) */
  lemma FeeAdjustedPriceEqualsTargetScenario()
    ensures Calculate(Request(10.0, 500.0, 400.0, true, Target(401.0, None), UsStock, 1300.0, None))
            == Fail(PriceEqualsTarget)
  {
    var q := Request(10.0, 500.0, 400.0, true, Target(401.0, None), UsStock, 1300.0, None);
    assert EffectivePrice(400.0, true) == 401.0;
    TargetAbortsPrecedePositionGuard(q);
  }

  /** A target above the current average cannot be reached by buying below
      it: the solved count is negative. */
  lemma TargetAboveAverageScenario()
    ensures Calculate(Request(10.0, 100.0, 80.0, false, Target(110.0, Some(90.0)), KrStock, 1.0, None))
            == Fail(TargetUnreachable)
  {
  }

  /** When the unrounded count is already a whole number, rounding up keeps
      it: the solve buys exactly that many shares. */
  lemma WholeCountIsBoughtExactly(shares: real, price: real, target: real, buyPrice: real, includeFees: bool, n: real)
    requires SolveApplies(shares, target, buyPrice)
    requires target != EffectivePrice(buyPrice, includeFees)
    requires UnroundedShares(shares, price, target, EffectivePrice(buyPrice, includeFees)) == n
    requires n > 0.0 && n == n.Floor as real
    ensures ReverseSolve(shares, price, target, buyPrice, includeFees) == Ok(n)
  {
    var solved := ReverseSolve(shares, price, target, buyPrice, includeFees);
    assert solved.Ok?;
    assert n <= solved.value < n + 1.0;
    // both are whole, so their floors are the same integer
    var k := solved.value.Floor;
    var m := n.Floor;
    assert m <= k < m + 1;
  }

  /** Ten shares at 100, target 90 buying at 80 without fees: exactly ten
      shares, since (1000 - 900) / (90 - 80) = 10 is already whole. */
  lemma TargetScenario()
    ensures var r := Calculate(Request(10.0, 100.0, 80.0, false, Target(90.0, None), KrStock, 1.0, None));
            && r.Ok?
            && r.value.additionalShares == 10.0
            && r.value.additionalPrice == 80.0
            && r.value.averageAfter == Some(90.0)
  {
    var shares, price, target, market := 10.0, 100.0, 90.0, 80.0;
    var q := Request(shares, price, market, false, Target(target, None), KrStock, 1.0, None);
    assert OrElse(None, market) == market;
    assert EffectivePrice(market, false) == market;
    var x := UnroundedShares(shares, price, target, market);
    assert x * (target - market) == shares * price - target * shares;
    assert x == 10.0;
    WholeCountIsBoughtExactly(shares, price, target, market, false, x);
    assert ResolvePurchase(q) == Ok(Purchase(x, market));
    var average := AverageAfter(shares, price, Purchase(x, market), false);
    assert AdditionalCost(Purchase(x, market), false) == x * market;
    assert average.value * (shares + x) == shares * price + x * market;
    assert average == Some(90.0);
  }
}
