# Share-averaging arithmetic of the stock "averaging down" calculator

This project models, in Dafny over exact `real` numbers, the arithmetic of a
browser calculator that helps an investor decide how many more shares to buy
to lower ("average down") the cost basis of a position.

It covers two entry points.

- `calculate()` in `js/calculator.js`, modelled by module `Averaging`. It
  has two modes.
  - Manual mode takes the additional purchase as typed.
  - Target mode solves in reverse for the whole number of shares that brings
    the average to a target price. The fee-adjusted buy price is
    E = B·(1 + fee), and the unrounded count is
    X = (S·P − T·S)/(T − E). The result is ⌈X⌉.

  After that comes the position guard, then the forward projection: total
  shares and cost (the fee of 0.25% is charged on the new purchase only),
  the new average and its change, the returns at the market price, the
  recovery percentage, the profit if the price returns to the old average,
  and the won conversions. Module `AveragingLemmas` proves its properties.
- `StockCalculator.calculate()` and `getCurrencySymbol()` in `main.js`,
  modelled by module `SimpleCalculator`. This is a fee-free forward average
  with a zero guard.

Modelling choices:

- The source's globals become explicit parameters: the calculation mode, the
  currency tab and the fee checkbox. The exchange rates become explicit
  parameters too; the live USD→KRW rate is a plain `real`.
- Each `alert(...); return;` becomes a tagged failure of `Averaging.Outcome`:
  - `PriceEqualsTarget` (js/calculator.js:124-127);
  - `TargetUnreachable` (:131-134);
  - `InvalidPosition` (:140-143).
- `x || d` on an already parsed number becomes `Averaging.OrElse`: an empty
  field and a zero both fall back to `d`. It is used for the target buy price
  (:98, which falls back to the market price) and for the original exchange
  rate (:149, which falls back to the live rate).
- The source divides without a guard in four places:
  - the new average (:162) divides by S + A;
  - the post-buy return and the scenario percentage (:175, :244) divide by the
    total cost after the purchase;
  - the recovery rate (:179) divides by the market price.

  These figures are `Option<real>`. Each is absent when its divisor is zero,
  which is where JavaScript would produce Infinity or NaN; the recovery rate
  is also absent whenever the new average is, since it is built from it. No guard
  is invented. The average change (:165) and its percentage (:166) are built
  from the new average, so they are `Option<real>` too and are absent
  whenever the new average is; the percentage then divides by P, which the
  position guard makes positive. The current return (:170) divides by S·P,
  also positive after the guard, so it is a plain value.
- The won figures are carried for both tabs. On the Korean tab both rates
  are 1 (:148-149), so they equal the plain costs. The source computes and
  displays them only on the US tab (the declarations sit inside
  `if (isUS)` at :205 and :218); the model computes them on both tabs.

Behaviour of the code that a reader might not expect:

- The alert at js/calculator.js:131-134 says the target is above the current
  average or cannot be reached at the buy price. It fires only when the
  unrounded count X is not positive. When the current average is below the
  target and the fee-adjusted buy price is above it (P < T < E), X is
  positive, so the code returns ⌈X⌉ shares, which raise the average to the
  target. `CeilingIsMinimalWhenAveragingUp` states what that result means.
- js/calculator.js:162 divides by the total share count with no guard, and
  :175, :179 and :244 divide without a guard too. `main.js:255` instead
  computes an average of 0 when the total share count is not positive (and
  :275 then displays '-'). `SimpleCalculator.NegativeTotalDiverges` states
  where the two differ.
- js/calculator.js:93 takes the typed additional share count as it is, so a
  negative count is accepted and lowers the total. The model accepts it as
  well; the bounds lemmas assume A ≥ 0 where they need it.

## Model

| member | source | states |
|---|---|---|
| RealArith.Ceil | js/calculator.js:136 | `Math.ceil`: the result is an integer no smaller than x, and one less is below x |
| RealArith.Quotient | js/calculator.js:162 | an unguarded division is absent exactly when the divisor is zero; otherwise quotient × divisor = dividend |
| RealArith.Percent | js/calculator.js:166-179 | (part/whole)·100 is absent exactly when whole = 0; otherwise percentage × whole = 100 × part |
| RealArith.PercentSign | js/calculator.js:166-179 | a percentage of a positive whole is positive (negative) exactly when its part is, and any percentage is zero exactly when its part is |
| Averaging.FeeRate | js/calculator.js:85-86 | the fee checkbox selects a rate of exactly 0.0025 when ticked and 0 otherwise |
| Averaging.EffectivePrice | js/calculator.js:113-114 | the price paid per share is B·1.0025 with fees on and B with them off, so never below a positive B |
| Averaging.OrElse | js/calculator.js:97-98 | `x \|\| d` on a parsed number: an entered non-zero value is kept; an empty field or a zero gives d |
| Averaging.ValidPosition | js/calculator.js:140-143 | a position that passes the guard has a positive cost S·P |
| Averaging.SolveApplies | js/calculator.js:101 | when the reverse solve runs, T·S > 0 and the buy price with or without the fee is positive |
| Averaging.UnroundedShares | js/calculator.js:108-129 | X satisfies X·(T − E) = S·P − T·S, the commented equation at :120 |
| Averaging.ResolveRates | js/calculator.js:146-149 | on the Korean tab both rates are 1; on the US tab the exchange rate is the live rate and the original rate is the one entered, or the live rate when that field is empty or zero |
| Averaging.ReverseSolve | js/calculator.js:97-137 | the solve gives 0 shares unless T, B and S are all positive; it fails with PriceEqualsTarget exactly when T = B·(1+fee), and with TargetUnreachable exactly when X ≤ 0; it never gives InvalidPosition; on success the count is a whole number with X ≤ n < X + 1 and n ≥ 1 |
| Averaging.ResolvePurchase | js/calculator.js:91-99 | manual mode takes the typed shares and price; target mode buys at the target buy price (the market price when that field is empty or zero), fails exactly when the reverse solve fails and with the same failure, and otherwise buys exactly the solved count |
| Averaging.AdditionalCost | js/calculator.js:154-157 | the raw cost plus the fee equals shares × fee-adjusted price |
| Averaging.AverageAfter | js/calculator.js:159-162 | the new average exists exactly when S + A ≠ 0, and average × (S + A) = S·P + A·B·(1+fee) |
| Averaging.Project | js/calculator.js:151-244 | total shares = S + A; total cost before = S·P; total cost after = S·P + A·B·(1+fee), with the fee on the purchase only; the new average exists exactly when S + A ≠ 0, the change percentage exactly when the new average does, the recovery rate exactly when the new average does and the market price is non-zero, and the post-buy return and the scenario percentage exactly when the total cost after is non-zero |
| Averaging.Calculate | js/calculator.js:78-179 | aborts of the solve come before the position guard; InvalidPosition exactly when the purchase resolves but S ≤ 0 or P ≤ 0; a run succeeds exactly when its purchase resolves (always in manual mode) and the position is valid, so a resolved target-mode purchase on a valid position always reaches the projection; every result has S > 0 and P > 0 and is the projection of the resolved purchase at the resolved rates |
| AveragingLemmas.UnroundedSharesSolveDerivation | js/calculator.js:116-129 | X satisfies T·(S+X) = S·P + X·E, and it is the only value that does |
| AveragingLemmas.MeanVersusTarget | js/calculator.js:116-136 | the mean after buying A shares is ≤ T exactly when A ≥ X (buy price below target), and ≥ T exactly when A ≥ X (buy price above target) |
| AveragingLemmas.CeilingIsMinimalWhenAveragingDown | js/calculator.js:117-136 | when T > E, buying ⌈X⌉ shares gives a new average ≤ T, and ⌈X⌉ − 1 shares gives one > T |
| AveragingLemmas.TargetRunReachesTarget | js/calculator.js:95-162 | in target mode, with a valid position whose average P is above the target T and T above the fee-adjusted buy price, the run succeeds: it buys the solved count (at least 1) at the target buy price, its reported new average is ≤ T, and one share fewer would leave the average above T |
| AveragingLemmas.CeilingIsMinimalWhenAveragingUp | js/calculator.js:117-136 | when T < E and the solve succeeds, P < T; ⌈X⌉ shares lift the average to at least T, and ⌈X⌉ − 1 leave it below T |
| AveragingLemmas.ProjectWithoutPurchase | js/calculator.js:152-166 | with A = 0 the average stays P, the cost stays S·P, the change and its percentage are 0, and the scenario profit is 0 |
| AveragingLemmas.SkippedSolveKeepsPosition | js/calculator.js:88-101 | a skipped solve (T, B or S not positive) on a valid position succeeds with 0 additional shares, average P, cost S·P and a 0% change |
| AveragingLemmas.AverageIsWeightedMean | js/calculator.js:159-162 | with S > 0 and A ≥ 0 (any buy price) the new average exists and lies between P and E; buying A > 0 with E below P lowers it, and with E above P raises it |
| AveragingLemmas.ChangeBadgeFollowsBuyPrice | js/calculator.js:152-200 | after the guard, with A > 0: cost before > 0 and total shares > 0; buying below P gives a negative change and percentage (the "good" badge), and buying above P a positive one |
| AveragingLemmas.WeightedMean | js/calculator.js:160-162 | a mean with weights S > 0 and A ≥ 0 lies between its two prices, and moves strictly toward the second one when A > 0 |
| AveragingLemmas.RecoveryMeasuresDistanceToBreakEven | js/calculator.js:177-179 | with a positive market price, the recovery percentage is positive exactly when the new average exceeds the market price (the red colour at :237), and zero exactly at break-even |
| AveragingLemmas.CurrentReturnSign | js/calculator.js:168-170 | the current return is positive exactly when the market price is above P, and negative exactly when it is below |
| AveragingLemmas.ScenarioProfitAtOldAverage | js/calculator.js:239-240 | the profit if the price returns to the old average is A·(P − E) |
| AveragingLemmas.PricesFollowFeeRate | js/calculator.js:86-156 | with the checkbox's rate r (FeeRate), the fee-adjusted price is B·(1 + r) as at :114, and the purchase cost is A·B + A·B·r as at :154-156 |
| AveragingLemmas.FeeOnlyOnPurchase | js/calculator.js:84-161 | the fee rate is exactly 0.0025 with fees on and 0 with them off, and it is charged on the purchase only: total cost after = S·P + A·B·1.0025, or S·P + A·B |
| AveragingLemmas.ChangeFigures | js/calculator.js:164-179 | the average change exists exactly when the new average does and equals it less P; change % × P = 100 × change; recovery % × market price = 100 × (new average − market price) |
| AveragingLemmas.ReturnFigures | js/calculator.js:168-175 | current return % × S·P = 100 × (S·M − S·P); return after % × (S·P + purchase cost) = 100 × ((S + A)·M − (S·P + purchase cost)) |
| AveragingLemmas.ProfitFigures | js/calculator.js:239-244 | the scenario profit is P·(S + A) − (S·P + purchase cost), and its percentage × that total cost = 100 × profit |
| AveragingLemmas.WonFigures | js/calculator.js:205-222 | required won = purchase cost × exchange rate; total won = S·P × original rate + purchase cost × exchange rate |
| AveragingLemmas.WonOnKoreanTab | js/calculator.js:146-149 | the source computes no won figures on the Korean tab (both sit inside `if (isUS)` at :205 and :218); the model computes them on every tab, and at the Korean tab's rates (1, 1) they equal the purchase cost and the total cost after |
| AveragingLemmas.WonOnUsTab | js/calculator.js:146-206 | on the US tab the won needed for the purchase is its cost at the live rate |
| AveragingLemmas.WonAtOriginalRate | js/calculator.js:146-222 | on the US tab with a non-zero original rate v entered, total won = total cost before × v + purchase cost × live rate |
| AveragingLemmas.WonWithoutOriginalRate | js/calculator.js:146-222 | on the US tab with the original-rate field empty or zero, total won = total cost after × live rate |
| AveragingLemmas.TargetAbortsPrecedePositionGuard | js/calculator.js:124-143 | when the solve applies, T = E gives PriceEqualsTarget, and P ≤ 0 with T > E gives TargetUnreachable, even though the position guard would also reject |
| AveragingLemmas.ManualScenario | js/calculator.js:151-179 | 10 at 100 plus 10 at 80, no fees, market 80: 20 shares, cost 1800, average 90, change −10%, recovery 12.5%, return after −100/9 % |
| AveragingLemmas.FeeAdjustedPriceEqualsTargetScenario | js/calculator.js:114-127 | target 401 while buying at the market price 400 with fees on (401 per share, exactly, in double precision as well) is rejected with PriceEqualsTarget |
| AveragingLemmas.TargetAboveAverageScenario | js/calculator.js:129-134 | target 110 above an average of 100, buying at 90, is rejected with TargetUnreachable |
| AveragingLemmas.WholeCountIsBoughtExactly | js/calculator.js:129-136 | when the unrounded count X is already a positive whole number, rounding up keeps it: the solve buys exactly X shares |
| AveragingLemmas.TargetScenario | js/calculator.js:97-136 | target 90 from 10 at 100, buying at the market price 80 (field empty), resolves to exactly 10 shares and an average of 90 |
| SimpleCalculator.Calculate | main.js:240-258 | with S ≤ 0 or P ≤ 0 the result is (0, 0, 0); otherwise total shares = S + A and investment = S·P + A·B, with no fee; average × total shares = investment when that total is positive, and the average is 0 otherwise |
| SimpleCalculator.NoPurchaseKeepsAverage | main.js:251-255 | with A = 0 the final average is P and the investment is S·P |
| SimpleCalculator.AgreesWithFeeFreeProjection | main.js:251-255 | for a valid position with S + A > 0, the totals and the average equal those of the calculator.js projection with fees off |
| SimpleCalculator.NegativeTotalDiverges | main.js:251-255 | for a valid position with S + A < 0, main.js computes an average of 0, while the calculator.js projection (fees off) has an average a with a·(S + A) = S·P + A·B, the cost divided by the negative total, whose sign depends on the cost |
| SimpleCalculator.NegativeTotalExample | main.js:251-255 | 10 at 100 plus −20 at 40: main.js computes 0, calculator.js −20 |
| SimpleCalculator.CurrencySymbol | main.js:148-155 | KRW shows ₩, USD shows $ and JPY shows ¥; every other code gets the empty string |
| SimpleCalculator.SymbolIdentifiesCurrency | main.js:148-155 | known currencies have distinct symbols (₩, $, ¥), so a non-empty symbol determines its currency |

## Left out

- DOM reads and writes, element visibility and colours, `scrollIntoView`, and the target action card text (js/calculator.js:183-192): presentation only.
- Chart rendering (`renderCharts`) and image export (`saveAsImage`): thin wrappers over third-party libraries.
- The exchange-rate fetch in js/dashboard.js and `getExchangeRate` (js/calculator.js:70-76): network I/O and DOM-text parsing. The rate is a parameter; its failure default of 1 is the caller's choice.
- `parseFloat(...) || 0` coercion of empty or non-numeric fields: the model takes parsed reals. The fallbacks of the target buy price and the original rate are kept, via `OrElse`.
- Display formatting: `toFixed`, `toLocaleString`, `Intl.NumberFormat`, `Math.round` of won amounts, and the '-' of `displayResult` in main.js.
- IEEE-754 behaviour: rounding, `=== 0` on floats, Infinity and NaN. Arithmetic is exact, and the unguarded divisions are absent values instead of Infinity or NaN.
- The unused `denominator` at js/calculator.js:110: it is computed and never read.
- Custom-element lifecycle, shadow DOM, tab and mode switching, `reset`, `resetCalculator`, and the Enter-key listeners: UI state.
