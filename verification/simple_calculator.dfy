/** The fee-free calculator component (main.js `StockCalculator`): its
    forward average with a zero guard, and the currency symbol of its tabs. */
module SimpleCalculator {
  import opened Wrappers
  import opened RealArith
  import Averaging

  /** What the component displays: final average, total shares, total
      investment. */
  datatype Summary = Summary(finalAverage: real, totalShares: real, totalInvestment: real)

  /** `calculate()`: a position without shares or without an average price
      shows zeros; otherwise the totals and the average, which is zero
      rather than a division when the total share count is not positive. */
  function Calculate(shares: real, price: real, addedShares: real, addedPrice: real): (r: Summary)
    ensures shares <= 0.0 || price <= 0.0 ==> r == Summary(0.0, 0.0, 0.0)
    ensures shares > 0.0 && price > 0.0 ==>
              && r.totalShares == shares + addedShares
              && r.totalInvestment == shares * price + addedShares * addedPrice
    ensures r.totalShares > 0.0 ==> r.finalAverage * r.totalShares == r.totalInvestment
    ensures r.totalShares <= 0.0 ==> r.finalAverage == 0.0
  {
    if shares <= 0.0 || price <= 0.0 then Summary(0.0, 0.0, 0.0)
    else
      var totalShares := shares + addedShares;
      var totalInvestment := shares * price + addedShares * addedPrice;
      var finalAverage := if totalShares > 0.0 then totalInvestment / totalShares else 0.0;
      Summary(finalAverage, totalShares, totalInvestment)
  }

  /** Buying nothing keeps the average price and the investment of a valid
      position. */
  lemma NoPurchaseKeepsAverage(shares: real, price: real, addedPrice: real)
    requires shares > 0.0 && price > 0.0
    ensures var r := Calculate(shares, price, 0.0, addedPrice);
            && r.finalAverage == price
            && r.totalShares == shares
            && r.totalInvestment == shares * price
  {
  }

  /** For a valid position and a positive total, this component agrees with
      the full calculator's projection when fees are off: same total shares,
      same total cost, same average. */
  lemma AgreesWithFeeFreeProjection(shares: real, price: real, market: real, addedShares: real, addedPrice: real, rates: Averaging.Rates)
    requires Averaging.ValidPosition(shares, price)
    requires shares + addedShares > 0.0
    ensures var s := Calculate(shares, price, addedShares, addedPrice);
            var r := Averaging.Project(shares, price, market, false, Averaging.Purchase(addedShares, addedPrice), rates);
            && s.totalShares == r.totalSharesAfter
            && s.totalInvestment == r.totalCostAfter
            && r.averageAfter == Some(s.finalAverage)
  {
  }

  /** Where the two components part: with more shares sold than held, this
      one computes an average of zero while the full calculator divides the
      total cost by the negative total share count. */
  lemma NegativeTotalDiverges(shares: real, price: real, market: real, addedShares: real, addedPrice: real, rates: Averaging.Rates)
    requires Averaging.ValidPosition(shares, price)
    requires shares + addedShares < 0.0
    ensures Calculate(shares, price, addedShares, addedPrice).finalAverage == 0.0
    ensures var r := Averaging.Project(shares, price, market, false, Averaging.Purchase(addedShares, addedPrice), rates);
            && r.averageAfter.Some?
            && r.averageAfter.value * (shares + addedShares) == shares * price + addedShares * addedPrice
  {
  }

  /** One such input: 10 shares at 100 and -20 at 40 give an average of 0
      here and -20 in the full calculator. */
  lemma NegativeTotalExample()
    ensures Calculate(10.0, 100.0, -20.0, 40.0).finalAverage == 0.0
    ensures Averaging.Project(10.0, 100.0, 50.0, false, Averaging.Purchase(-20.0, 40.0), Averaging.Rates(1.0, 1.0)).averageAfter
            == Some(-20.0)
  {
  }

  /** The symbol shown beside a price for each currency tab; unknown codes get
      none. */
  function CurrencySymbol(code: string): (symbol: string)
    ensures |symbol| <= 1
    ensures symbol != "" <==> code == "KRW" || code == "USD" || code == "JPY"
    ensures code == "KRW" ==> symbol == "\U{20A9}"
    ensures code == "USD" ==> symbol == "$"
    ensures code == "JPY" ==> symbol == "\U{00A5}"
  {
    if code == "KRW" then "\U{20A9}"
    else if code == "USD" then "$"
    else if code == "JPY" then "\U{00A5}"
    else ""
  }

  /** Distinct known currencies get distinct symbols, so a symbol names its
      currency. */
  lemma SymbolIdentifiesCurrency(a: string, b: string)
    requires CurrencySymbol(a) != ""
    requires CurrencySymbol(a) == CurrencySymbol(b)
    ensures a == b
  {
  }
}
