# Loan amortization engine of the credit simulator

A Dafny model of the calculation core of the credit simulator's `CreditService`: the rule that exactly one
interest rate (annual or monthly, in percent) is supplied, the default debt capacity of 30 %, the fixed
monthly payment of the French (annuity) system rounded half-up to cents, the affordability test against
`income × capacity / 100`, and the month-by-month schedule whose last row absorbs the rounding residue so
that the balance closes at exactly zero.

Money is exact (`real`, as `BigDecimal` is exact decimal); the only rounding is `Money.Round2HalfUp`, the
nearest cent with ties away from zero, which is what `RoundingMode.HALF_UP` does at scale 2. The monthly
rate r and both percent conversions are binary floating point in the source (`Math.pow`), so they enter the
model as the caller-supplied functions of `RateRules.FloatConversions`; today's date enters as a parameter.

Modules, in dependency order:

- `Wrappers` — `Option` (nullable fields) and `Result` (exceptions).
- `Money` — half-up rounding to cents and `BigDecimal.pow`.
- `Calendar` — ISO dates and `LocalDate.plusMonths(1)` (the day of the month is clamped to the target month).
- `RateRules` — the rate-specification rule, the default debt capacity, the derived rate pair.
- `Annuity` — `calculateMonthlyPayment` with its `ArithmeticException` cases, and the exact annuity it rounds.
- `Schedule` — `generateSchedule` as a loop over a sequence, and the properties of the table it builds.
- `CreditService` — `processAndSaveSimulation`: validation, payment, affordability, the saved entity.

Behaviour of the code that the model keeps as written:

- The entity's `debtCapacityPercentage` is never set by `processAndSaveSimulation` (lines 111-124), so the
  saved simulation carries Java's default 0.0, not the capacity that was applied.
- The principals sum to the loan amount exactly, not merely within a cent.
- The balance is not necessarily non-increasing: the code does not prevent a month whose interest exceeds
  the payment. No such claim is made.
- Each payment date is one `plusMonths(1)` step after the previous one; after a clamped month-end the day
  stays clamped (`Calendar.EndOfMonthDrift`), so row k is not always `start.plusMonths(k)`.
- With a monthly rate supplied, the payment uses the rate re-derived from the derived annual rate (lines 94
  and 134), not the supplied one; `CreditService.MonthlyRateOf` follows that path.

## Model

| member | source | states |
|---|---|---|
| `Money.Round2HalfUp` | src/main/java/com/yefersoncm/simulador_api/service/CreditService.java:162 | the result is a whole number of cents within half a cent of the input, and a tie goes away from zero |
| `Money.Round2HalfUpIsNearest` | src/main/java/com/yefersoncm/simulador_api/service/CreditService.java:146 | no whole number of cents is strictly closer to the input than the rounded value |
| `Money.Round2HalfUpUnique` | src/main/java/com/yefersoncm/simulador_api/service/CreditService.java:138 | the three facts of the rounding contract determine the rounded value uniquely |
| `Money.Pow` | src/main/java/com/yefersoncm/simulador_api/service/CreditService.java:142 | every power of one is one, and every power of a non-negative base is non-negative |
| `Calendar.LengthOfMonth` | src/main/java/com/yefersoncm/simulador_api/service/CreditService.java:160 | months have 28 to 31 days, and 29 exactly for February of an ISO leap year |
| `Calendar.PlusOneMonth` | src/main/java/com/yefersoncm/simulador_api/service/CreditService.java:160 | the next date is in the next calendar month (December rolls into January of the next year); the day is never raised, is kept exactly when it fits, and otherwise becomes the month's last day |
| `Calendar.PlusMonthsStepwise` | src/main/java/com/yefersoncm/simulador_api/service/CreditService.java:157-160 | k successive one-month steps advance the month index by exactly k and never raise the day |
| `Calendar.EndOfMonthDrift` | src/main/java/com/yefersoncm/simulador_api/service/CreditService.java:160 | from 31 January 2024 the steps give 29 February and then 29 March |
| `RateRules.ValidateRates` | src/main/java/com/yefersoncm/simulador_api/service/CreditService.java:74-79 | accepted exactly when one of the two rates is present; the accepted specification names that rate and its value; both or neither is InvalidRateSpecification |
| `RateRules.ValidateSuppliedRates` | src/main/java/com/yefersoncm/simulador_api/service/CreditService.java:74-79 | every rate specification is accepted back from the request fields it stands for |
| `RateRules.DebtCapacity` | src/main/java/com/yefersoncm/simulador_api/service/CreditService.java:66-68 | a supplied capacity is used unchanged, an absent one is 30.0 |
| `RateRules.DeriveRates` | src/main/java/com/yefersoncm/simulador_api/service/CreditService.java:85-95 | the rate the caller supplied is stored exactly as given and the other is its floating-point conversion; there is no pair exactly when the annual rate converted from a monthly one is not a finite double |
| `Annuity.MonthlyPayment` | src/main/java/com/yefersoncm/simulador_api/service/CreditService.java:133-147 | succeeds exactly when none of the modelled error conditions holds (zero rate: a term of 0 divides by zero; otherwise an exponent outside 0..999999999, or (1+r)^n equal to 1); the payment is whole cents within half a cent of the exact annuity payment; the exponent error only for a nonzero rate |
| `Annuity.AnnuityPayment` | src/main/java/com/yefersoncm/simulador_api/service/CreditService.java:137-146 | at a zero rate n payments make up the loan; otherwise the payment times ((1+r)^n − 1) is the loan times r(1+r)^n |
| `Annuity.MonthlyPaymentRoundsAnnuity` | src/main/java/com/yefersoncm/simulador_api/service/CreditService.java:137-146 | whenever it is computable, the payment is the annuity payment (loan / n at a zero rate, loan × r(1+r)^n / ((1+r)^n − 1) otherwise) rounded half-up to cents |
| `Annuity.ZeroRatePayment` | src/main/java/com/yefersoncm/simulador_api/service/CreditService.java:137-139 | with a zero rate the payment is loan / n rounded half-up to cents |
| `Annuity.ComputableTerms` | src/main/java/com/yefersoncm/simulador_api/service/CreditService.java:141-146 | for any rate r ≥ −1, no term from 1 to 999999999 months meets a modelled error condition |
| `Annuity.ExactBalanceClosedForm` | src/main/java/com/yefersoncm/simulador_api/service/CreditService.java:141-146 | after k exact months, balance × r = loan × r(1+r)^k − a((1+r)^k − 1) |
| `Annuity.ExactBalanceZeroRate` | src/main/java/com/yefersoncm/simulador_api/service/CreditService.java:138 | at a zero rate the exact balance after k months is loan − k × a |
| `Annuity.AnnuityPaymentAmortizes` | src/main/java/com/yefersoncm/simulador_api/service/CreditService.java:137-146 | the unrounded payment is the one and only constant installment that leaves an exact balance of zero after n months |
| `Schedule.InterestOn` | src/main/java/com/yefersoncm/simulador_api/service/CreditService.java:162 | a month's interest is whole cents within half a cent of balance × r, and a tie is rounded away from zero |
| `Schedule.GenerateSchedule` | src/main/java/com/yefersoncm/simulador_api/service/CreditService.java:152-182 | the table has max(n, 0) rows, each following from the previous one as IsSchedule says; for n > 0 the principals sum to the loan and the last balance is 0 |
| `Schedule.BalanceIsUnpaidPrincipal` | src/main/java/com/yefersoncm/simulador_api/service/CreditService.java:163-164 | before each row the balance is the loan less the principal of the rows before it |
| `Schedule.PrincipalsSumToLoan` | src/main/java/com/yefersoncm/simulador_api/service/CreditService.java:164-169 | in any schedule of n > 0 rows the principals add up to exactly the loan amount |
| `Schedule.FinalRowClosesLoan` | src/main/java/com/yefersoncm/simulador_api/service/CreditService.java:166-169 | the last row leaves a balance of 0 and its principal is the whole balance owed before it |
| `Schedule.PaymentDatesStepMonthly` | src/main/java/com/yefersoncm/simulador_api/service/CreditService.java:157-174 | row k is numbered k + 1 and dated k + 1 one-month steps after the start, in month index start + k + 1 |
| `Schedule.ZeroRateSchedule` | src/main/java/com/yefersoncm/simulador_api/service/CreditService.java:162-164 | at a zero rate every row's interest is 0 and every row but the last repays exactly the payment |
| `Schedule.ScheduleUnique` | src/main/java/com/yefersoncm/simulador_api/service/CreditService.java:159-180 | the row-by-row description IsSchedule admits exactly one table for given inputs |
| `CreditService.MaxAllowedPayment` | src/main/java/com/yefersoncm/simulador_api/service/CreditService.java:104-105 | the limit times 100 is the income times the capacity percentage |
| `CreditService.IsAffordable` | src/main/java/com/yefersoncm/simulador_api/service/CreditService.java:106 | a payment is affordable exactly when it times 100 does not exceed income × capacity (a payment equal to the limit is affordable) |
| `CreditService.MonthlyRateOf` | src/main/java/com/yefersoncm/simulador_api/service/CreditService.java:134-135 | whenever the rate pair exists, r is the conversion of its annual rate: the supplied one, or the one derived from the monthly rate at line 94; there is none exactly when one of these doubles is not finite |
| `CreditService.ProcessAndSaveSimulation` | src/main/java/com/yefersoncm/simulador_api/service/CreditService.java:64-128 | rejected exactly when the rate rule fails; NonFiniteRate exactly when a rate on the way is not a finite double; failed exactly when a modelled error condition of the payment holds; not viable exactly when the payment exceeds income × capacity / 100 (equal is viable); otherwise the saved entity copies income, loan and term, holds the payment and the derived rates, capacity 0.0, and a schedule that amortizes the loan to 0 |
| `CreditService.DefaultCapacityExamples` | src/main/java/com/yefersoncm/simulador_api/service/CreditService.java:104-108 | examples of the affordability limit on constant figures: with the default capacity 888.49 is affordable on 5000.00 (limit 1500.00, itself affordable) and not on 2000.00; 1500.01 is not affordable on 5000.00 |

## Left out

- The floating-point rate conversions with `Math.pow` (lines 88, 94, 134, 155) and `BigDecimal.valueOf(double)` (line 135): modelled only as the functions of `RateRules.FloatConversions`, whose values are unconstrained; a `None` stands for a NaN or infinite double, which `BigDecimal.valueOf` rejects with a `NumberFormatException`.
- Annuity.MonthlyPayment: the `ArithmeticException`s that `BigDecimal.pow` (line 142) and `multiply` (lines 143, 146) raise for very long terms are not modelled: a result scale outside the `int` range, and an unscaled `BigInteger` beyond its supported magnitude. The model's rate is a real without a decimal scale or representation size, so for such terms the model computes a payment where the source throws.
- Annuity.ComputableTerms: rules out only the modelled error conditions, not the overflow for very long terms above.
- CreditService.ProcessAndSaveSimulation: its Failed outcome covers only the modelled error conditions, not the overflow for very long terms above.
- The affordability limit uses `BigDecimal.valueOf(debtCapacity / 100.0)`, a double division; the model divides exactly. The request's rate and capacity fields are modelled as finite values, so a capacity beyond the double range, whose quotient makes `BigDecimal.valueOf` throw a `NumberFormatException`, cannot be expressed.
- `LocalDate.now()` is the `today` parameter; the `DateTimeException` of `plusMonths` beyond year ±999999999 is not modelled.
- Persistence: `creditRepository.save`, the generated ids, the creation timestamp, the row-to-simulation back reference, and `getScheduleForSimulation` (paging done by Spring Data).
- `CreditController`, the response DTO and the application bootstrap: HTTP and framework code.
- A `null` income or loan amount (a NullPointerException in the source): the model's request always has both.
- `termMonths` is a Java `int`; the model uses an unbounded integer. With a zero rate and a term of 2^31 − 1, the Java loop counter would wrap (the list runs out of memory first); the model does not capture that.
- No claim that the remaining balance never increases: the code does not enforce it.
