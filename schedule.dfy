/**
 * `generateSchedule`: the month-by-month amortization table. Each row's
 * interest is the running balance times the monthly rate, rounded half-up
 * to cents; its principal is the fixed payment less that interest; the last
 * row takes whatever balance is left, so the table closes at exactly zero.
 */
module Schedule {
  import opened Money
  import opened Calendar

  /** One installment (`AmortizationEntry`, without its identity and parent link). */
  datatype Entry = Entry(
    paymentNumber: int,
    paymentDate: Date,
    principalAmount: real,
    interestAmount: real,
    remainingBalance: real)

  /** A month's interest: Round2HalfUp(balance × r), in cents. */
  function InterestOn(balance: real, r: real): (interest: real)
    ensures IsCents(interest)
    ensures Abs(interest - balance * r) <= 0.005
    ensures Abs(interest - balance * r) == 0.005 ==> Abs(interest) > Abs(balance * r)
  {
    Round2HalfUp(balance * r)
  }

  /** The balance still owed before row k (0-based) is paid. */
  function BalanceBefore(rows: seq<Entry>, loan: real, k: nat): real
    requires k <= |rows|
  {
    if k == 0 then loan else rows[k - 1].remainingBalance
  }

  /** The date row k (0-based) is one month after. */
  function DateBefore(rows: seq<Entry>, start: Date, k: nat): Date
    requires k <= |rows|
  {
    if k == 0 then start else rows[k - 1].paymentDate
  }

  /**
   * Row k (0-based) is the one the loop produces for installment k + 1 of n,
   * given the row before it: numbered k + 1, dated one month after the
   * previous date, interest on the previous balance; a non-final row splits
   * the payment into interest and principal and reduces the balance by the
   * principal; the final row adds the leftover balance to its principal and
   * leaves the balance at zero.
   */
  ghost predicate RowFollows(rows: seq<Entry>, k: nat, loan: real, payment: real, r: real, n: int, start: Date)
    requires k < |rows|
  {
    var before := BalanceBefore(rows, loan, k);
    var e := rows[k];
    e.paymentNumber == k + 1 &&
    e.paymentDate == PlusOneMonth(DateBefore(rows, start, k)) &&
    e.interestAmount == InterestOn(before, r) &&
    if k + 1 == n then
      var residual := before - (payment - e.interestAmount);
      e.principalAmount == payment - e.interestAmount + residual && e.remainingBalance == 0.0
    else
      e.principalAmount + e.interestAmount == payment && e.remainingBalance == before - e.principalAmount
  }

  /** The amortization table for a loan with fixed payment, monthly rate r and n installments. */
  ghost predicate IsSchedule(rows: seq<Entry>, loan: real, payment: real, r: real, n: int, start: Date)
  {
    |rows| == (if n > 0 then n else 0) &&
    forall k :: 0 <= k < |rows| ==> RowFollows(rows, k, loan, payment, r, n, start)
  }

  /** Whether a row follows depends only on the rows up to it. */
  lemma RowFollowsExtended(rows: seq<Entry>, more: seq<Entry>, k: nat, loan: real, payment: real, r: real, n: int, start: Date)
    requires k < |rows|
    ensures RowFollows(rows + more, k, loan, payment, r, n, start) == RowFollows(rows, k, loan, payment, r, n, start)
  {
    assert (rows + more)[k] == rows[k];
    assert BalanceBefore(rows + more, loan, k) == BalanceBefore(rows, loan, k);
    assert DateBefore(rows + more, start, k) == DateBefore(rows, start, k);
  }

  function SumPrincipal(rows: seq<Entry>): real
  {
    if rows == [] then 0.0 else SumPrincipal(rows[..|rows| - 1]) + rows[|rows| - 1].principalAmount
  }

  /** `generateSchedule`, with the simulation's fields and the start date (`LocalDate.now()`) as parameters. */
  method GenerateSchedule(loan: real, payment: real, r: real, n: int, start: Date) returns (schedule: seq<Entry>)
    ensures IsSchedule(schedule, loan, payment, r, n, start)
    ensures n > 0 ==> SumPrincipal(schedule) == loan && schedule[n - 1].remainingBalance == 0.0
  {
    schedule := [];
    var remainingBalance := loan;
    var paymentDate := start;
    var i := 1;
    while i <= n
      invariant 1 <= i <= (if n > 0 then n else 0) + 1
      invariant |schedule| == i - 1
      invariant remainingBalance == BalanceBefore(schedule, loan, i - 1)
      invariant paymentDate == DateBefore(schedule, start, i - 1)
      invariant forall k :: 0 <= k < |schedule| ==> RowFollows(schedule, k, loan, payment, r, n, start)
      invariant SumPrincipal(schedule) == loan - remainingBalance
    {
      ghost var before := remainingBalance;
      paymentDate := PlusOneMonth(paymentDate);
      var interestAmount := InterestOn(remainingBalance, r);
      var principalAmount := payment - interestAmount;
      remainingBalance := remainingBalance - principalAmount;
      if i == n {
        principalAmount := principalAmount + remainingBalance;
        remainingBalance := 0.0;
      }
      var entry := Entry(i, paymentDate, principalAmount, interestAmount, remainingBalance);
      ghost var previous := schedule;
      schedule := schedule + [entry];
      assert BalanceBefore(schedule, loan, i - 1) == before;
      assert RowFollows(schedule, i - 1, loan, payment, r, n, start);
      forall k | 0 <= k < |previous|
        ensures RowFollows(schedule, k, loan, payment, r, n, start)
      {
        RowFollowsExtended(previous, [entry], k, loan, payment, r, n, start);
      }
      i := i + 1;
    }
    if n > 0 {
      assert RowFollows(schedule, n - 1, loan, payment, r, n, start);
    }
  }

  /** Before each row, the balance is the loan less the principal repaid so far. */
  lemma {:induction false} BalanceIsUnpaidPrincipal(rows: seq<Entry>, loan: real, payment: real, r: real, n: int, start: Date, j: nat)
    requires IsSchedule(rows, loan, payment, r, n, start)
    requires j <= |rows|
    ensures SumPrincipal(rows[..j]) == loan - BalanceBefore(rows, loan, j)
  {
    if j > 0 {
      BalanceIsUnpaidPrincipal(rows, loan, payment, r, n, start, j - 1);
      assert rows[..j][..j - 1] == rows[..j - 1];
      assert RowFollows(rows, j - 1, loan, payment, r, n, start);
    }
  }

  /** The principal of all rows adds up to exactly the loan amount. */
  lemma PrincipalsSumToLoan(rows: seq<Entry>, loan: real, payment: real, r: real, n: int, start: Date)
    requires IsSchedule(rows, loan, payment, r, n, start)
    requires n > 0
    ensures SumPrincipal(rows) == loan
  {
    BalanceIsUnpaidPrincipal(rows, loan, payment, r, n, start, |rows|);
    assert rows[..|rows|] == rows;
    assert RowFollows(rows, n - 1, loan, payment, r, n, start);
  }

  /** The final row closes the loan: its principal is the whole balance left before it, and nothing remains. */
  lemma FinalRowClosesLoan(rows: seq<Entry>, loan: real, payment: real, r: real, n: int, start: Date)
    requires IsSchedule(rows, loan, payment, r, n, start)
    requires n > 0
    ensures rows[n - 1].remainingBalance == 0.0
    ensures rows[n - 1].principalAmount == BalanceBefore(rows, loan, n - 1)
  {
    assert RowFollows(rows, n - 1, loan, payment, r, n, start);
  }

  /** Row k is due k + 1 successive one-month steps after the start date. */
  lemma {:induction false} PaymentDatesStepMonthly(rows: seq<Entry>, loan: real, payment: real, r: real, n: int, start: Date, k: nat)
    requires IsSchedule(rows, loan, payment, r, n, start)
    requires k < |rows|
    ensures rows[k].paymentNumber == k + 1
    ensures rows[k].paymentDate == PlusMonthsStepwise(start, k + 1)
    ensures MonthIndex(rows[k].paymentDate) == MonthIndex(start) + k + 1
  {
    assert RowFollows(rows, k, loan, payment, r, n, start);
    if k > 0 {
      PaymentDatesStepMonthly(rows, loan, payment, r, n, start, k - 1);
    }
  }

  /** At a zero rate no row charges interest, and every row but the last repays exactly the payment. */
  lemma ZeroRateSchedule(rows: seq<Entry>, loan: real, payment: real, n: int, start: Date, k: nat)
    requires IsSchedule(rows, loan, payment, 0.0, n, start)
    requires k < |rows|
    ensures rows[k].interestAmount == 0.0
    ensures k + 1 < n ==> rows[k].principalAmount == payment
  {
    assert RowFollows(rows, k, loan, payment, 0.0, n, start);
    Round2HalfUpOfCents(0.0);
  }

  /** Two tables that both satisfy IsSchedule agree on their first j rows. */
  lemma {:induction false} SchedulePrefixUnique(a: seq<Entry>, b: seq<Entry>, loan: real, payment: real, r: real, n: int, start: Date, j: nat)
    requires IsSchedule(a, loan, payment, r, n, start)
    requires IsSchedule(b, loan, payment, r, n, start)
    requires j <= |a|
    ensures a[..j] == b[..j]
  {
    if j > 0 {
      SchedulePrefixUnique(a, b, loan, payment, r, n, start, j - 1);
      assert RowFollows(a, j - 1, loan, payment, r, n, start);
      assert RowFollows(b, j - 1, loan, payment, r, n, start);
      assert BalanceBefore(a, loan, j - 1) == BalanceBefore(b, loan, j - 1);
      assert DateBefore(a, start, j - 1) == DateBefore(b, start, j - 1);
      assert a[..j] == a[..j - 1] + [a[j - 1]];
      assert b[..j] == b[..j - 1] + [b[j - 1]];
    }
  }

  /** The schedule is determined by its inputs: IsSchedule admits exactly one table. */
  lemma ScheduleUnique(a: seq<Entry>, b: seq<Entry>, loan: real, payment: real, r: real, n: int, start: Date)
    requires IsSchedule(a, loan, payment, r, n, start)
    requires IsSchedule(b, loan, payment, r, n, start)
    ensures a == b
  {
    SchedulePrefixUnique(a, b, loan, payment, r, n, start, |a|);
    assert a[..|a|] == a && b[..|b|] == b;
  }
}
