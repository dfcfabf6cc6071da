/**
 * Loan-level repayment: two guards, then the waterfall over the installments,
 * then the loan's own balance and two-valued status.
 */
module Repayment {
  import opened Wrappers
  import opened PaymentStatus
  import opened Models
  import opened Waterfall

  /** The two ways a repayment is refused. */
  datatype RepayError = AlreadyRepaid | AmountHigherThanOutstandingAmount

  /**
   * The state change of an accepted repayment, as one atomic step: the receipt is
   * recorded, the waterfall runs over the installments, and the loan balance drops
   * by the full amount received, whatever the waterfall managed to place.
   */
  function Receive(loan: Loan, amount: nat, currency: Currency, receivedAt: Timestamp): (r: Loan)
    ensures r.received == loan.received + [ReceivedRepayment(amount, currency, receivedAt)]
    ensures r.outstanding + amount == loan.outstanding
    ensures r.outstanding == 0 ==> r.status == Repaid
    ensures r.outstanding != 0 ==> r.status == Due
    ensures r.scheduled == PayScheduledRepayment(loan.scheduled, amount)
    ensures TotalOutstanding(r.scheduled) == TotalOutstanding(loan.scheduled)
      - (if amount <= TotalOutstanding(loan.scheduled) then amount else TotalOutstanding(loan.scheduled))
    ensures r.amount == loan.amount && r.currency == loan.currency
    ensures r.terms == loan.terms && r.processedAt == loan.processedAt
  {
    PayConserves(loan.scheduled, amount);
    var outstanding := loan.outstanding - amount;
    loan.(
      received := loan.received + [ReceivedRepayment(amount, currency, receivedAt)],
      scheduled := PayScheduledRepayment(loan.scheduled, amount),
      outstanding := outstanding,
      status := if outstanding == 0 then Repaid else Due)
  }

  /**
   * Repays a loan. A loan already REPAID is refused first; then an amount above
   * the loan's original principal is refused. Everything else is accepted, even
   * an amount above the current balance.
   */
  function RepayLoan(loan: Loan, amount: nat, currency: Currency, receivedAt: Timestamp)
    : (r: Result<Loan, RepayError>)
    ensures loan.status == Repaid ==> r == Failure(AlreadyRepaid)
    ensures loan.status != Repaid && amount > loan.amount ==> r == Failure(AmountHigherThanOutstandingAmount)
    ensures r.Success? <==> loan.status != Repaid && amount <= loan.amount
    ensures r.Success? ==> r.value == Receive(loan, amount, currency, receivedAt)
  {
    if loan.status == Repaid then Failure(AlreadyRepaid)
    else if amount > loan.amount then Failure(AmountHigherThanOutstandingAmount)
    else Success(Receive(loan, amount, currency, receivedAt))
  }

  /**
   * Repays a loan with the over-payment guard measured against the current
   * balance instead of the original principal.
   */
  function RepayLoanCorrected(loan: Loan, amount: nat, currency: Currency, receivedAt: Timestamp)
    : (r: Result<Loan, RepayError>)
    ensures loan.status == Repaid ==> r == Failure(AlreadyRepaid)
    ensures loan.status != Repaid && amount > loan.outstanding ==> r == Failure(AmountHigherThanOutstandingAmount)
    ensures r.Success? <==> loan.status != Repaid && amount <= loan.outstanding
    ensures r.Success? ==> r.value == Receive(loan, amount, currency, receivedAt)
  {
    if loan.status == Repaid then Failure(AlreadyRepaid)
    else if amount > loan.outstanding then Failure(AmountHigherThanOutstandingAmount)
    else Success(Receive(loan, amount, currency, receivedAt))
  }

  /** Every accepted repayment keeps the balance equal to principal minus receipts. */
  lemma RepayLoanKeepsReconciled(loan: Loan, amount: nat, currency: Currency, receivedAt: Timestamp)
    requires Reconciled(loan)
    ensures RepayLoan(loan, amount, currency, receivedAt).Success? ==>
      Reconciled(RepayLoan(loan, amount, currency, receivedAt).value)
  {
    var rec := ReceivedRepayment(amount, currency, receivedAt);
    assert (loan.received + [rec])[..|loan.received|] == loan.received;
  }

  /**
   * While the amount does not exceed the current balance, an accepted repayment
   * keeps the loan balance equal to the sum of the installment balances.
   */
  lemma RepayLoanKeepsBalanced(loan: Loan, amount: nat, currency: Currency, receivedAt: Timestamp)
    requires Balanced(loan)
    requires amount <= loan.outstanding
    ensures RepayLoan(loan, amount, currency, receivedAt).Success? ==>
      Balanced(RepayLoan(loan, amount, currency, receivedAt).value)
  {
  }

  /**
   * The loose guard lets an amount between the current balance and the principal
   * through: it is accepted, the installments are all settled, yet the loan
   * balance goes negative, stays DUE, and no longer matches the installments.
   */
  lemma RepayLoanCanOverdraw(loan: Loan, amount: nat, currency: Currency, receivedAt: Timestamp)
    requires WellFormed(loan)
    requires loan.status != Repaid
    requires loan.outstanding < amount <= loan.amount
    ensures RepayLoan(loan, amount, currency, receivedAt).Success?
    ensures RepayLoan(loan, amount, currency, receivedAt).value.outstanding < 0
    ensures RepayLoan(loan, amount, currency, receivedAt).value.status == Due
    ensures TotalOutstanding(RepayLoan(loan, amount, currency, receivedAt).value.scheduled) == 0
    ensures !Balanced(RepayLoan(loan, amount, currency, receivedAt).value)
  {
  }

  /**
   * A loan whose balance went negative can never become REPAID again: every
   * later repayment is accepted and pushes the balance further down.
   */
  lemma OverdrawnLoanNeverRepaid(loan: Loan, amount: nat, currency: Currency, receivedAt: Timestamp)
    requires loan.outstanding < 0
    requires loan.status == Due
    ensures RepayLoan(loan, amount, currency, receivedAt).Success? <==> amount <= loan.amount
    ensures RepayLoan(loan, amount, currency, receivedAt).Success? ==>
      && RepayLoan(loan, amount, currency, receivedAt).value.outstanding < 0
      && RepayLoan(loan, amount, currency, receivedAt).value.status == Due
  {
  }

  /**
   * A concrete run: a loan of 100 in one installment, repaid 70 and then 50.
   * Both repayments are accepted and the balance ends at -20 with status DUE.
   */
  lemma OverpaymentExample(c: Currency)
    ensures var loan := Loan(100, 100, c, 1, 0, Due, [ScheduledRepayment(100, 100, c, 1, Paid)], []);
      && WellFormed(loan)
      && RepayLoan(loan, 70, c, 1).Success?
      && RepayLoan(loan, 70, c, 1).value.outstanding == 30
      && RepayLoan(RepayLoan(loan, 70, c, 1).value, 50, c, 2).Success?
      && RepayLoan(RepayLoan(loan, 70, c, 1).value, 50, c, 2).value.outstanding == -20
      && RepayLoan(RepayLoan(loan, 70, c, 1).value, 50, c, 2).value.status == Due
  {
    var loan := Loan(100, 100, c, 1, 0, Due, [ScheduledRepayment(100, 100, c, 1, Paid)], []);
    assert loan.scheduled[..0] == [];
    assert TotalAmount(loan.scheduled) == TotalAmount(loan.scheduled[..0]) + 100 == 100;
    assert TotalOutstanding(loan.scheduled) == TotalOutstanding(loan.scheduled[..0]) + 100 == 100;
    assert WellFormed(loan);
  }

  /**
   * With the corrected guard, every accepted repayment keeps a well-formed loan
   * well-formed, and the loan is REPAID exactly when every installment is settled.
   */
  lemma RepayLoanCorrectedKeepsWellFormed(loan: Loan, amount: nat, currency: Currency, receivedAt: Timestamp)
    requires WellFormed(loan)
    ensures RepayLoanCorrected(loan, amount, currency, receivedAt).Success? ==>
      && WellFormed(RepayLoanCorrected(loan, amount, currency, receivedAt).value)
      && (RepayLoanCorrected(loan, amount, currency, receivedAt).value.status == Repaid <==>
          forall i :: 0 <= i < |loan.scheduled| ==>
            RepayLoanCorrected(loan, amount, currency, receivedAt).value.scheduled[i].outstanding == 0)
  {
    var r := RepayLoanCorrected(loan, amount, currency, receivedAt);
    if r.Success? {
      var after := r.value;
      RepayLoanKeepsReconciled(loan, amount, currency, receivedAt);
      SameAmountsSameTotal(after.scheduled, loan.scheduled);
      TotalOutstandingZeroIffSettled(after.scheduled);
    }
  }
}
