/**
 * The records the loan engine works on: a loan, the repayments scheduled for it
 * and the repayments received against it, plus the totals and invariants that
 * tie them together.
 */
module Models {
  import opened PaymentStatus

  /** A currency code is an opaque tag: it is copied from record to record, never inspected. */
  type Currency = string

  /** Points in time are opaque values supplied by the caller. */
  type Timestamp = nat

  /**
   * One installment of a loan. `due` is the month index k of the k-th installment;
   * the calendar date it stands for is origination + k months.
   */
  datatype ScheduledRepayment = ScheduledRepayment(
    amount: nat,
    outstanding: nat,
    currency: Currency,
    due: nat,
    status: Status)

  /** An append-only record of money received against a loan. */
  datatype ReceivedRepayment = ReceivedRepayment(
    amount: nat,
    currency: Currency,
    receivedAt: Timestamp)

  /**
   * A loan together with the two collections it owns. `outstanding` is an `int`:
   * the balance is computed by a plain subtraction that nothing keeps above zero.
   */
  datatype Loan = Loan(
    amount: nat,
    outstanding: int,
    currency: Currency,
    terms: int,
    processedAt: Timestamp,
    status: Status,
    scheduled: seq<ScheduledRepayment>,
    received: seq<ReceivedRepayment>)

  /** Sum of the outstanding amounts of the installments. */
  function TotalOutstanding(s: seq<ScheduledRepayment>): nat
  {
    if |s| == 0 then 0 else TotalOutstanding(s[..|s| - 1]) + s[|s| - 1].outstanding
  }

  /** Sum of the scheduled amounts of the installments. */
  function TotalAmount(s: seq<ScheduledRepayment>): nat
  {
    if |s| == 0 then 0 else TotalAmount(s[..|s| - 1]) + s[|s| - 1].amount
  }

  /** Number of installments that still have something outstanding. */
  function CountOutstanding(s: seq<ScheduledRepayment>): nat
  {
    if |s| == 0 then 0
    else CountOutstanding(s[..|s| - 1]) + (if s[|s| - 1].outstanding > 0 then 1 else 0)
  }

  /** Sum of the amounts received. */
  function TotalReceived(r: seq<ReceivedRepayment>): nat
  {
    if |r| == 0 then 0 else TotalReceived(r[..|r| - 1]) + r[|r| - 1].amount
  }

  /** Installments are listed in strictly increasing due order. */
  predicate ByDueDate(s: seq<ScheduledRepayment>)
  {
    forall i, j :: 0 <= i < j < |s| ==> s[i].due < s[j].due
  }

  /** The loan balance equals the principal minus everything received so far. */
  predicate Reconciled(loan: Loan)
  {
    loan.outstanding == loan.amount - TotalReceived(loan.received)
  }

  /** The loan balance equals the sum of the installment balances. */
  predicate Balanced(loan: Loan)
  {
    loan.outstanding == TotalOutstanding(loan.scheduled)
  }

  /** Everything a loan built by the engine satisfies, and that a sound repayment must keep. */
  predicate WellFormed(loan: Loan)
  {
    && Reconciled(loan)
    && Balanced(loan)
    && TotalAmount(loan.scheduled) == loan.amount
    && ByDueDate(loan.scheduled)
    && (forall i :: 0 <= i < |loan.scheduled| ==>
          loan.scheduled[i].outstanding <= loan.scheduled[i].amount)
  }

  /** Appending an installment adds its amount and its balance to the totals. */
  lemma TotalsAppend(s: seq<ScheduledRepayment>, x: ScheduledRepayment)
    ensures TotalAmount(s + [x]) == TotalAmount(s) + x.amount
    ensures TotalOutstanding(s + [x]) == TotalOutstanding(s) + x.outstanding
  {
    assert (s + [x])[..|s|] == s;
  }

  /** Replacing one installment changes the total outstanding by the difference of the two balances. */
  lemma {:induction false} TotalOutstandingUpdate(s: seq<ScheduledRepayment>, k: nat, x: ScheduledRepayment)
    requires k < |s|
    ensures TotalOutstanding(s[k := x]) + s[k].outstanding == TotalOutstanding(s) + x.outstanding
    decreases |s|
  {
    var n := |s| - 1;
    if k == n {
      assert s[k := x][..n] == s[..n];
    } else {
      assert s[k := x][..n] == s[..n][k := x];
      TotalOutstandingUpdate(s[..n], k, x);
    }
  }

  /** Replacing one installment changes the outstanding count only through the two balances. */
  lemma {:induction false} CountOutstandingUpdate(s: seq<ScheduledRepayment>, k: nat, x: ScheduledRepayment)
    requires k < |s|
    ensures CountOutstanding(s[k := x]) + (if s[k].outstanding > 0 then 1 else 0)
         == CountOutstanding(s) + (if x.outstanding > 0 then 1 else 0)
    decreases |s|
  {
    var n := |s| - 1;
    if k == n {
      assert s[k := x][..n] == s[..n];
    } else {
      assert s[k := x][..n] == s[..n][k := x];
      CountOutstandingUpdate(s[..n], k, x);
    }
  }

  /** A longer prefix never has a smaller outstanding total. */
  lemma {:induction false} PrefixTotalMonotone(s: seq<ScheduledRepayment>, i: nat, j: nat)
    requires i <= j <= |s|
    ensures TotalOutstanding(s[..i]) <= TotalOutstanding(s[..j])
    decreases j - i
  {
    if i < j {
      assert s[..j][..j - 1] == s[..j - 1];
      PrefixTotalMonotone(s, i, j - 1);
    }
  }

  /** A prefix that ends after installment k carries at least k's outstanding amount. */
  lemma PrefixTotalCovers(s: seq<ScheduledRepayment>, k: nat, j: nat)
    requires k < j <= |s|
    ensures TotalOutstanding(s[..k]) + s[k].outstanding <= TotalOutstanding(s[..j])
  {
    assert s[..k + 1][..k] == s[..k];
    PrefixTotalMonotone(s, k + 1, j);
  }

  /** A prefix of settled installments has nothing outstanding. */
  lemma {:induction false} SettledPrefixTotal(s: seq<ScheduledRepayment>, i: nat)
    requires i <= |s|
    requires forall j :: 0 <= j < i ==> s[j].outstanding == 0
    ensures TotalOutstanding(s[..i]) == 0
    decreases i
  {
    if i > 0 {
      assert s[..i][..i - 1] == s[..i - 1];
      SettledPrefixTotal(s, i - 1);
    }
  }

  /** Nothing is outstanding in total exactly when every installment is settled. */
  lemma TotalOutstandingZeroIffSettled(s: seq<ScheduledRepayment>)
    ensures TotalOutstanding(s) == 0 <==> forall i :: 0 <= i < |s| ==> s[i].outstanding == 0
  {
    assert s[..|s|] == s;
    if forall i :: 0 <= i < |s| ==> s[i].outstanding == 0 {
      SettledPrefixTotal(s, |s|);
    } else {
      var i :| 0 <= i < |s| && s[i].outstanding > 0;
      PrefixTotalCovers(s, i, |s|);
    }
  }

  /** Installments with the same scheduled amounts have the same scheduled total. */
  lemma {:induction false} SameAmountsSameTotal(s: seq<ScheduledRepayment>, t: seq<ScheduledRepayment>)
    requires |s| == |t|
    requires forall i :: 0 <= i < |s| ==> s[i].amount == t[i].amount
    ensures TotalAmount(s) == TotalAmount(t)
    decreases |s|
  {
    if |s| > 0 {
      SameAmountsSameTotal(s[..|s| - 1], t[..|t| - 1]);
    }
  }
}
