/**
 * The fixed installment of the French (annuity) system, as
 * `calculateMonthlyPayment` computes it with BigDecimal arithmetic, and the
 * exact amortization it approximates.
 */
module Annuity {
  import opened Wrappers
  import opened Money

  /** The largest exponent `BigDecimal.pow(int)` accepts. */
  const MaxPowExponent: int := 999_999_999

  /** The `ArithmeticException`s BigDecimal raises on the way. */
  datatype ArithmeticFault = DivisionByZero | ExponentOutOfRange

  /** The monthly rate r and the term n for which no ArithmeticException arises. */
  predicate PaymentComputable(r: real, n: int)
  {
    if r == 0.0 then n != 0
    else 0 <= n <= MaxPowExponent && Pow(1.0 + r, n) != 1.0
  }

  /** loan·r·(1+r)^n / ((1+r)^n − 1), with q standing for (1+r)^n. */
  function AnnuityFormula(loan: real, r: real, q: real): (a: real)
    requires q != 1.0
    ensures a * (q - 1.0) == loan * (r * q)
  {
    var x := loan * (r * q);
    DivisionCancels(x, q - 1.0);
    x / (q - 1.0)
  }

  /**
   * The annuity payment before rounding: n of them repay the loan at a zero
   * rate; otherwise it times ((1+r)^n − 1) is the loan times r·(1+r)^n.
   */
  function AnnuityPayment(loan: real, r: real, n: int): (a: real)
    requires PaymentComputable(r, n)
    ensures r == 0.0 ==> a * n as real == loan
    ensures r != 0.0 ==> a * (Pow(1.0 + r, n) - 1.0) == loan * (r * Pow(1.0 + r, n))
  {
    if r == 0.0 then
      DivisionCancels(loan, n as real);
      loan / n as real
    else AnnuityFormula(loan, r, Pow(1.0 + r, n))
  }

  /**
   * `calculateMonthlyPayment`, given the monthly decimal rate r: plain
   * division by the term when r is zero, the annuity formula otherwise,
   * rounded half-up to cents.
   */
  function MonthlyPayment(loan: real, r: real, n: int): (res: Result<real, ArithmeticFault>)
    ensures res.Success? <==> PaymentComputable(r, n)
    ensures res.Success? ==> IsCents(res.value) && Abs(res.value - AnnuityPayment(loan, r, n)) <= 0.005
    ensures res.Failure? ==> (res.error == ExponentOutOfRange <==> r != 0.0 && !(0 <= n <= MaxPowExponent))
  {
    if r == 0.0 then
      if n == 0 then Failure(DivisionByZero)
      else Success(Round2HalfUp(AnnuityPayment(loan, r, n)))
    else if !(0 <= n <= MaxPowExponent) then Failure(ExponentOutOfRange)
    else if Pow(1.0 + r, n) - 1.0 == 0.0 then Failure(DivisionByZero)
    else Success(Round2HalfUp(AnnuityPayment(loan, r, n)))
  }

  /** The payment is the annuity payment rounded half-up to cents. */
  lemma MonthlyPaymentRoundsAnnuity(loan: real, r: real, n: int)
    requires PaymentComputable(r, n)
    ensures MonthlyPayment(loan, r, n) == Success(Round2HalfUp(AnnuityPayment(loan, r, n)))
  {
  }

  /** With a zero rate the payment is the loan divided evenly, rounded half-up. */
  lemma ZeroRatePayment(loan: real, n: int)
    requires n != 0
    ensures MonthlyPayment(loan, 0.0, n) == Success(Round2HalfUp(loan / n as real))
  {
  }

  /** For any monthly rate the conversion can produce (r >= -1), no term from 1 to the exponent limit meets a modelled error condition. */
  lemma ComputableTerms(r: real, n: int)
    requires r >= -1.0
    requires 1 <= n <= MaxPowExponent
    ensures PaymentComputable(r, n)
  {
    if r > 0.0 {
      PowAboveOne(1.0 + r, n);
    } else if r < 0.0 {
      PowBelowOne(1.0 + r, n);
    }
  }

  /** The balance after k months of exact (unrounded) amortization at rate r with installment a. */
  function ExactBalance(loan: real, r: real, a: real, k: nat): real
  {
    if k == 0 then loan else ExactBalance(loan, r, a, k - 1) * (1.0 + r) - a
  }

  /** The closed form of the exact balance b after some months, with p standing for (1+r) to that number of months. */
  predicate ClosedFormHolds(loan: real, r: real, a: real, b: real, p: real)
  {
    b * r == loan * r * p - a * (p - 1.0)
  }

  /** One month of the closed form's induction, as a polynomial identity. */
  lemma ClosedFormStep(loan: real, r: real, a: real, b: real, p: real)
    requires ClosedFormHolds(loan, r, a, b, p)
    ensures ClosedFormHolds(loan, r, a, b * (1.0 + r) - a, (1.0 + r) * p)
  {
    assert (b * (1.0 + r) - a) * r == (1.0 + r) * (b * r) - a * r;
  }

  /** Closed form of the exact balance: B(k)·r = P·r·(1+r)^k − a·((1+r)^k − 1). */
  lemma {:induction false} ExactBalanceClosedForm(loan: real, r: real, a: real, k: nat)
    ensures ClosedFormHolds(loan, r, a, ExactBalance(loan, r, a, k), Pow(1.0 + r, k))
  {
    if k > 0 {
      ExactBalanceClosedForm(loan, r, a, k - 1);
      ClosedFormStep(loan, r, a, ExactBalance(loan, r, a, k - 1), Pow(1.0 + r, k - 1));
    }
  }

  /** At a zero rate the exact balance falls by the installment each month. */
  lemma {:induction false} ExactBalanceZeroRate(loan: real, a: real, k: nat)
    ensures ExactBalance(loan, 0.0, a, k) == loan - k as real * a
  {
    if k > 0 {
      ExactBalanceZeroRate(loan, a, k - 1);
    }
  }

  lemma ZeroProduct(x: real, y: real)
    ensures x * y == 0.0 <==> x == 0.0 || y == 0.0
  {
  }

  lemma DivisionCancels(x: real, d: real)
    requires d != 0.0
    ensures x / d * d == x
  {
  }

  /** Solving the closed form at month n for the installment. */
  lemma SolveInstallment(loan: real, r: real, q: real, a: real, b: real)
    requires r != 0.0 && q != 1.0
    requires ClosedFormHolds(loan, r, a, b, q)
    ensures b == 0.0 <==> a == AnnuityFormula(loan, r, q)
  {
    var d := q - 1.0;
    var x := loan * (r * q);
    var annuity := x / d;
    DivisionCancels(x, d);
    assert loan * r * q == x;
    assert b * r == (annuity - a) * d;
    ZeroProduct(b, r);
    ZeroProduct(annuity - a, d);
  }

  lemma AmortizesAtNonzeroRate(loan: real, r: real, n: nat, a: real, q: real, b: real)
    requires r != 0.0 && q != 1.0
    requires q == Pow(1.0 + r, n) && b == ExactBalance(loan, r, a, n)
    ensures b == 0.0 <==> a == AnnuityFormula(loan, r, q)
  {
    ExactBalanceClosedForm(loan, r, a, n);
    SolveInstallment(loan, r, q, a, b);
  }

  lemma AmortizesAtZeroRate(loan: real, n: nat, a: real)
    requires n >= 1
    ensures ExactBalance(loan, 0.0, a, n) == 0.0 <==> a == loan / n as real
  {
    ExactBalanceZeroRate(loan, a, n);
    var m := n as real;
    assert loan - m * a == 0.0 <==> a == loan / m;
  }

  /**
   * The annuity payment is the one constant installment that pays the loan
   * off exactly in n months: the exact balance after n months is zero for it
   * and for no other installment.
   */
  lemma AnnuityPaymentAmortizes(loan: real, r: real, n: nat, a: real)
    requires n >= 1 && PaymentComputable(r, n)
    ensures ExactBalance(loan, r, a, n) == 0.0 <==> a == AnnuityPayment(loan, r, n)
  {
    if r == 0.0 {
      AmortizesAtZeroRate(loan, n, a);
    } else {
      var q := Pow(1.0 + r, n);
      AmortizesAtNonzeroRate(loan, r, n, a, q, ExactBalance(loan, r, a, n));
    }
  }
}
