/**
 * Interest-rate input rules of the credit service: exactly one of the annual
 * and the monthly rate (both in percent) is supplied, and the debt-capacity
 * percentage defaults to 30.
 */
module RateRules {
  import opened Wrappers

  /** The one rate the caller supplied, in percent. */
  datatype RateSpec = AnnualRate(annualPercent: real) | MonthlyRate(monthlyPercent: real)

  /** The `IllegalArgumentException` raised for both rates or neither. */
  datatype ValidationError = InvalidRateSpecification

  /** The request's two nullable rate fields that a rate specification stands for. */
  function SuppliedRates(spec: RateSpec): (Option<real>, Option<real>)
  {
    match spec
    case AnnualRate(a) => (Some(a), None)
    case MonthlyRate(m) => (None, Some(m))
  }

  /**
   * Accepts the two nullable rate fields when exactly one is present, and
   * reports which one and its value; rejects both-present and both-absent.
   */
  function ValidateRates(annual: Option<real>, monthly: Option<real>): (res: Result<RateSpec, ValidationError>)
    ensures res.Success? <==> annual.Some? != monthly.Some?
    ensures res.Success? ==> SuppliedRates(res.value) == (annual, monthly)
    ensures res.Failure? ==> res.error == InvalidRateSpecification
  {
    if annual.Some? == monthly.Some? then Failure(InvalidRateSpecification)
    else if annual.Some? then Success(AnnualRate(annual.value))
    else Success(MonthlyRate(monthly.value))
  }

  /** Every rate specification is accepted back from the fields it stands for. */
  lemma ValidateSuppliedRates(spec: RateSpec)
    ensures ValidateRates(SuppliedRates(spec).0, SuppliedRates(spec).1) == Success(spec)
  {
  }

  const DefaultDebtCapacity: real := 30.0

  /** The debt-capacity percentage applied: the supplied one, else 30. */
  function DebtCapacity(supplied: Option<real>): (capacity: real)
    ensures supplied.Some? ==> capacity == supplied.value
    ensures supplied.None? ==> capacity == DefaultDebtCapacity
  {
    if supplied.Some? then supplied.value else DefaultDebtCapacity
  }

  /**
   * The binary floating-point conversions the service computes with
   * `Math.pow` and `BigDecimal.valueOf(double)`. They are not modelled; a
   * caller supplies them, which fixes only that each is a function of its input.
   * `None` stands for a double that is not finite (NaN or an infinity): the
   * annual rate derived from a monthly one can overflow to infinity, and the
   * monthly decimal rate is NaN for an annual rate below -100%.
   */
  datatype FloatConversions = FloatConversions(
    monthlyPercentOfAnnual: real -> real,          // ((1 + a/100)^(1/12) - 1) * 100
    annualPercentOfMonthly: real -> Option<real>,  // ((1 + m/100)^12 - 1) * 100
    monthlyDecimalOfAnnual: real -> Option<real>)  // (1 + a/100)^(1/12) - 1, the rate r

  /** The annual and monthly percentages stored on the simulation. */
  datatype Rates = Rates(annualPercent: real, monthlyPercent: real)

  /**
   * Completes the pair from the one rate supplied: that rate is kept exactly,
   * the other is the floating-point conversion of it. There is no finite pair
   * when the annual rate converted from a monthly one is not finite.
   */
  function DeriveRates(spec: RateSpec, conv: FloatConversions): (rates: Option<Rates>)
    ensures rates.None? <==> spec.MonthlyRate? && conv.annualPercentOfMonthly(spec.monthlyPercent).None?
    ensures rates.Some? && spec.AnnualRate? ==> rates.value.annualPercent == spec.annualPercent
    ensures spec.AnnualRate? ==> rates == Some(Rates(spec.annualPercent, conv.monthlyPercentOfAnnual(spec.annualPercent)))
    ensures rates.Some? && spec.MonthlyRate? ==>
      rates.value == Rates(conv.annualPercentOfMonthly(spec.monthlyPercent).value, spec.monthlyPercent)
  {
    match spec
    case AnnualRate(a) => Some(Rates(a, conv.monthlyPercentOfAnnual(a)))
    case MonthlyRate(m) =>
      match conv.annualPercentOfMonthly(m)
      case None => None
      case Some(a) => Some(Rates(a, m))
  }
}
