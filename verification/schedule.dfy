/**
 * The amortization planner: splitting a principal into `terms` installments,
 * the remainder of the integer division going to the last one.
 */
module Schedule {
  import opened PaymentStatus
  import opened Models

  /**
   * The per-installment payment and the remainder left over by the division.
   * The quotient is truncated toward zero, as `intval` truncates, so for a
   * negative term count it is the negated quotient by the magnitude; either way
   * the remainder lies in 0 .. |terms| - 1.
   */
  function CalculateScheduledRepayment(amount: nat, terms: int): (r: (int, nat))
    requires terms != 0
    ensures r.0 * terms + r.1 == amount
    ensures r.1 < (if terms > 0 then terms else -terms)
    ensures terms > 0 ==> r.0 >= 0
    ensures terms < 0 ==> r.0 <= 0
  {
    var payment := if terms > 0 then amount / terms else -(amount / -terms);
    (payment, amount - payment * terms)
  }

  /**
   * Originates a loan: the loan itself starts with its whole principal outstanding
   * and status DUE (the column default), and gets one installment per month
   * 1..terms, each at the base payment except the last, which also takes the
   * remainder. Installments start fully outstanding with status PAID, the column
   * default, since origination never sets a status. A negative term count is
   * accepted: the month loop runs zero times and the loan has no installments at
   * all, so its balance is not covered by any schedule.
   */
  method CreateLoan(amount: nat, currency: Currency, terms: int, processedAt: Timestamp)
    returns (loan: Loan)
    requires terms != 0
    ensures loan.amount == amount && loan.outstanding == amount
    ensures loan.currency == currency && loan.terms == terms && loan.processedAt == processedAt
    ensures loan.status == Due && loan.received == []
    ensures |loan.scheduled| == if terms > 0 then terms else 0
    ensures forall i :: 0 <= i < |loan.scheduled| ==>
      loan.scheduled[i].amount == CalculateScheduledRepayment(amount, terms).0
        + (if i == terms - 1 then CalculateScheduledRepayment(amount, terms).1 else 0)
    ensures forall i :: 0 <= i < |loan.scheduled| ==>
      && loan.scheduled[i].outstanding == loan.scheduled[i].amount
      && loan.scheduled[i].currency == currency
      && loan.scheduled[i].due == i + 1
      && loan.scheduled[i].status == Paid
    ensures terms > 0 ==> TotalAmount(loan.scheduled) == amount && WellFormed(loan)
    ensures terms < 0 ==> Reconciled(loan) && (Balanced(loan) <==> amount == 0)
  {
    var (payment, leftover) := CalculateScheduledRepayment(amount, terms);
    var scheduled := ScheduleInstallments(payment, leftover, terms, currency);
    assert terms > 0 ==> payment * terms + leftover == amount;
    loan := Loan(amount, amount, currency, terms, processedAt, Due, scheduled, []);
  }

  /**
   * The month loop of origination: one installment per month 1..terms, the base
   * payment each, plus the leftover on the last. Runs zero times when `terms` is
   * not positive.
   */
  method ScheduleInstallments(payment: int, leftover: nat, terms: int, currency: Currency)
    returns (scheduled: seq<ScheduledRepayment>)
    requires terms > 0 ==> payment >= 0
    ensures |scheduled| == if terms > 0 then terms else 0
    ensures forall i :: 0 <= i < |scheduled| ==>
      scheduled[i] == Installment(payment + (if i == terms - 1 then leftover else 0), currency, i + 1)
    ensures TotalAmount(scheduled) == TotalOutstanding(scheduled)
    ensures terms > 0 ==> TotalAmount(scheduled) == payment * terms + leftover
  {
    ghost var n := if terms > 0 then terms else 0;
    scheduled := [];
    var i := 1;
    while i <= terms
      invariant 1 <= i <= n + 1
      invariant |scheduled| == i - 1
      invariant forall j :: 0 <= j < i - 1 ==>
        scheduled[j] == Installment(payment + (if j == terms - 1 then leftover else 0), currency, j + 1)
      invariant TotalAmount(scheduled) == TotalOutstanding(scheduled)
      invariant TotalAmount(scheduled) == payment * (i - 1) + (if 0 < terms < i then leftover else 0)
    {
      var scheduledAmount := payment + (if i == terms then leftover else 0);
      var next := Installment(scheduledAmount, currency, i);
      TotalsAppend(scheduled, next);
      assert payment * (i - 1) + payment == payment * i;
      scheduled := scheduled + [next];
      i := i + 1;
    }
  }

  /** A freshly scheduled installment: fully outstanding, status PAID by column default. */
  function Installment(amount: nat, currency: Currency, due: nat): ScheduledRepayment
  {
    ScheduledRepayment(amount, amount, currency, due, Paid)
  }
}
