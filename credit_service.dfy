/**
 * `CreditService.processAndSaveSimulation`: validate the request, compute the
 * fixed payment, test it against the client's debt capacity and, when it is
 * affordable, build the simulation with its amortization schedule.
 */
module CreditService {
  import opened Wrappers
  import opened Calendar
  import opened RateRules
  import opened Annuity
  import opened Schedule

  /** `CreditRequestDTO`: the nullable fields are options. */
  datatype CreditRequest = CreditRequest(
    clientIncome: real,
    loanAmount: real,
    termMonths: int,
    annualInterestRate: Option<real>,
    monthlyInterestRate: Option<real>,
    debtCapacityPercentage: Option<real>)

  /** `CreditSimulation` as handed to the repository (before it assigns the id and timestamp). */
  datatype CreditSimulation = CreditSimulation(
    clientIncome: real,
    loanAmount: real,
    termMonths: int,
    monthlyPayment: real,
    annualInterestRate: real,
    monthlyInterestRate: real,
    debtCapacityPercentage: real,
    schedule: seq<Entry>)

  /**
   * What a call ends in: the simulation to save, `null` for a credit that is
   * not viable, the `IllegalArgumentException` for a bad rate specification,
   * the `NumberFormatException` `BigDecimal.valueOf` raises for a rate that is
   * not a finite double, or an `ArithmeticException` from BigDecimal.
   */
  datatype Outcome =
    | Saved(simulation: CreditSimulation)
    | NotViable
    | Rejected(validation: ValidationError)
    | NonFiniteRate
    | Failed(fault: ArithmeticFault)

  /** The largest affordable payment: `capacity` percent of the income. */
  function MaxAllowedPayment(clientIncome: real, debtCapacity: real): (limit: real)
    ensures limit * 100.0 == clientIncome * debtCapacity
  {
    clientIncome * (debtCapacity / 100.0)
  }

  /** A payment is affordable when it does not exceed the limit; one equal to it is. */
  predicate IsAffordable(payment: real, clientIncome: real, debtCapacity: real): (affordable: bool)
    ensures affordable <==> payment * 100.0 <= clientIncome * debtCapacity
  {
    payment <= MaxAllowedPayment(clientIncome, debtCapacity)
  }

  /**
   * The monthly decimal rate r the payment and the schedule are computed with:
   * the conversion of the annual rate, supplied or derived; none when a double
   * on the way is not finite.
   */
  function MonthlyRateOf(spec: RateSpec, conv: FloatConversions): (rate: Option<real>)
    ensures rate.Some? ==> DeriveRates(spec, conv).Some?
    ensures DeriveRates(spec, conv).Some? ==> rate == conv.monthlyDecimalOfAnnual(DeriveRates(spec, conv).value.annualPercent)
    ensures spec.AnnualRate? ==> rate == conv.monthlyDecimalOfAnnual(spec.annualPercent)
    ensures spec.MonthlyRate? ==>
      (rate.Some? <==>
        conv.annualPercentOfMonthly(spec.monthlyPercent).Some? &&
        conv.monthlyDecimalOfAnnual(conv.annualPercentOfMonthly(spec.monthlyPercent).value).Some?)
  {
    match DeriveRates(spec, conv)
    case None => None
    case Some(rates) => conv.monthlyDecimalOfAnnual(rates.annualPercent)
  }

  /**
   * `processAndSaveSimulation`, with the floating-point rate conversions and
   * today's date (`LocalDate.now()`) as parameters. The result says exactly
   * when each outcome happens, and what a saved simulation holds.
   */
  method ProcessAndSaveSimulation(request: CreditRequest, conv: FloatConversions, today: Date) returns (outcome: Outcome)
    ensures outcome.Rejected? <==> ValidateRates(request.annualInterestRate, request.monthlyInterestRate).Failure?
    ensures outcome.Rejected? ==> outcome.validation == InvalidRateSpecification
    ensures ValidateRates(request.annualInterestRate, request.monthlyInterestRate).Success? ==>
      var spec := ValidateRates(request.annualInterestRate, request.monthlyInterestRate).value;
      var rate := MonthlyRateOf(spec, conv);
      (outcome.NonFiniteRate? <==> rate.None?) &&
      (rate.Some? ==>
        var r := rate.value;
        var payment := MonthlyPayment(request.loanAmount, r, request.termMonths);
        (outcome.Failed? <==> payment.Failure?) &&
        (outcome.Failed? ==> outcome.fault == payment.error) &&
        (payment.Success? ==>
          (outcome.NotViable? <==> !IsAffordable(payment.value, request.clientIncome, DebtCapacity(request.debtCapacityPercentage))) &&
          (outcome.Saved? <==> IsAffordable(payment.value, request.clientIncome, DebtCapacity(request.debtCapacityPercentage))) &&
          (outcome.Saved? ==>
            var sim := outcome.simulation;
            sim.clientIncome == request.clientIncome &&
            sim.loanAmount == request.loanAmount &&
            sim.termMonths == request.termMonths &&
            sim.monthlyPayment == payment.value &&
            Some(Rates(sim.annualInterestRate, sim.monthlyInterestRate)) == DeriveRates(spec, conv) &&
            sim.debtCapacityPercentage == 0.0 &&
            IsSchedule(sim.schedule, request.loanAmount, payment.value, r, request.termMonths, today) &&
            (request.termMonths > 0 ==>
              SumPrincipal(sim.schedule) == request.loanAmount &&
              sim.schedule[request.termMonths - 1].remainingBalance == 0.0))))
  {
    var debtCapacity := DebtCapacity(request.debtCapacityPercentage);

    var validated := ValidateRates(request.annualInterestRate, request.monthlyInterestRate);
    if validated.Failure? {
      return Rejected(validated.error);
    }

    // a derived annual rate or a monthly decimal rate that is not finite makes BigDecimal.valueOf throw
    var derived := DeriveRates(validated.value, conv);
    if derived.None? {
      return NonFiniteRate;
    }
    var rates := derived.value;
    var converted := conv.monthlyDecimalOfAnnual(rates.annualPercent);
    if converted.None? {
      return NonFiniteRate;
    }
    var r := converted.value;
    var computed := MonthlyPayment(request.loanAmount, r, request.termMonths);
    if computed.Failure? {
      return Failed(computed.error);
    }
    var monthlyPayment := computed.value;

    if monthlyPayment > MaxAllowedPayment(request.clientIncome, debtCapacity) {
      return NotViable;
    }

    // the service never sets debtCapacityPercentage, so the entity keeps Java's default 0.0
    var schedule := GenerateSchedule(request.loanAmount, monthlyPayment, r, request.termMonths, today);
    outcome := Saved(CreditSimulation(
      request.clientIncome, request.loanAmount, request.termMonths, monthlyPayment,
      rates.annualPercent, rates.monthlyPercent, 0.0, schedule));
  }

  /** The default debt capacity on the worked figures: 30% of 5000.00 is 1500.00, of 2000.00 is 600.00. */
  lemma DefaultCapacityExamples()
    ensures MaxAllowedPayment(5000.0, DebtCapacity(None)) == 1500.0
    ensures IsAffordable(888.49, 5000.0, DebtCapacity(None))
    ensures IsAffordable(1500.0, 5000.0, DebtCapacity(None))
    ensures !IsAffordable(888.49, 2000.0, DebtCapacity(None))
    ensures !IsAffordable(1500.01, 5000.0, DebtCapacity(Some(30.0)))
  {
  }
}
