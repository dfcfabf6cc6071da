# Installment-loan engine

A Dafny model of the loan engine of the tarfin-card service (`LoanService`):

- the **amortization planner** (`createLoan`, `calculateScheduledRepayment`), which splits a principal into `terms` installments, each at the integer quotient, the last one also taking the remainder;
- the **repayment waterfall** (`payScheduledRepayment`), which puts a received amount against the earliest-due installment that still has a balance, floors that balance at zero, and carries any excess on to the next outstanding installment;
- the **status resolver** (`detectStatus`), a three-way first-match rule;
- **loan-level repayment** (`repayLoan`), with two guards, then the waterfall, then the loan's own balance and its two-valued status.

Files and modules:

| file | module | contents |
|---|---|---|
| `wrappers.dfy` | `Wrappers` | `Option`, `Result` |
| `payment_status.dfy` | `PaymentStatus` | the `DUE`/`PAID`/`REPAID`/`PARTIAL` enumeration, shared by loans and installments as in the code |
| `models.dfy` | `Models` | `Loan`, `ScheduledRepayment`, `ReceivedRepayment`; totals over installments and receipts; the invariants `Reconciled` (balance = principal − receipts), `Balanced` (balance = sum of installment balances) and `WellFormed` |
| `schedule.dfy` | `Schedule` | the planner |
| `waterfall.dfy` | `Waterfall` | the status resolver, the waterfall, and `Allocation`, a closed-form definition of the waterfall proved equal to the recursive one |
| `repayment.dfy` | `Repayment` | `repayLoan` as written, and a corrected guard (see Findings) |

Installments are a sequence in due order. `createLoan` gives the k-th installment the date origination + k months, so the model keys installments by the month index k. Initial statuses come from the column defaults, because `createLoan` never sets one: a loan starts `DUE` (database/migrations/2022_08_28_181527_create_loans_table.php:23) and an installment starts `PAID` (database/migrations/2022_08_28_182653_create_scheduled_repayments_table.php:25).

The waterfall is a pure function from installments to installments. It recurses while a payment overshoots the current installment. Its `decreases` measure is the number of outstanding installments: each recursive step clears one installment, and the carried amount also shrinks. A rejected repayment returns `Failure` and leaves the loan value as it was. An accepted repayment is one atomic transition of the loan value.

The loan balance is an `int`. The code computes it as `outstanding_amount - amount`, and nothing keeps that value at or above zero.

The status field is one enumeration shared by loans and installments. `repayLoan` only ever sets a loan to `DUE` or `REPAID`. The loan balance can go negative (see Findings).

## Model

| member | source | states |
|---|---|---|
| `Schedule.CalculateScheduledRepayment` | app/Services/LoanService.php:53-58 | payment and leftover are the quotient truncated toward zero and the remainder of the principal by any nonzero term count: `payment * terms + leftover == amount` and `0 <= leftover < abs(terms)`. The payment is non-negative for a positive term count and non-positive for a negative one |
| `Schedule.CreateLoan` | app/Services/LoanService.php:29-48 | the loan starts with its whole principal outstanding, status DUE and no receipts. For a positive term count there are exactly `terms` installments, due in months 1..terms. Each is at the base payment, and the last also carries the leftover. Each starts fully outstanding with status PAID, and together they sum to the principal. The new loan is `WellFormed`: balanced, reconciled and ordered by due date. For a negative term count there are no installments, so the loan is balanced only when its principal is 0 |
| `Schedule.ScheduleInstallments` | app/Services/LoanService.php:40-48 | the month loop yields one installment per month 1..terms, or none when `terms` is not positive. Each installment is fully outstanding, and the amounts total `payment * terms + leftover` |
| `Waterfall.DetectStatus` | app/Services/LoanService.php:128-135 | the resolver never yields PAID |
| `Waterfall.DetectStatusAfterPayment` | app/Services/LoanService.php:128-135 | read against the balance an installment had before the payment: REPAID iff the payment clears it or is zero; DUE iff the payment is exactly half the balance; PARTIAL otherwise |
| `Waterfall.FirstOutstanding` | app/Services/LoanService.php:103-106 | returns the first installment with a positive balance, with every earlier one settled, or none exactly when no installment has a balance |
| `Waterfall.FirstOutstandingIsEarliestDue` | app/Services/LoanService.php:103-106 | on installments ordered by due date, the installment picked has the earliest due date among those with a balance |
| `Waterfall.PayScheduledRepayment` | app/Services/LoanService.php:100-122 | only balances and statuses change. No balance grows. Installments already settled are untouched |
| `Waterfall.Visits` | app/Services/LoanService.php:103-120 | the number of installments one call visits is at most the number outstanding and at most one more than the amount. It is zero exactly when nothing is outstanding |
| `Waterfall.VisitsCountsReached` | app/Services/LoanService.php:103-120 | the number of installments one call visits equals the number the closed form `Allocation` reaches |
| `Waterfall.NothingOutstandingIsNoOp` | app/Services/LoanService.php:108-121 | when no installment has a balance, a payment changes nothing |
| `Waterfall.PayConserves` | app/Services/LoanService.php:111-119 | one call lowers the total installment balance by exactly `min(amount, total)` |
| `Waterfall.PayMatchesAllocation` | app/Services/LoanService.php:100-122 | the recursive waterfall equals the closed form on every input. An installment is reached iff it has a balance and either all earlier balances are zero or the payment exceeds their sum. A reached installment is settled with the payment minus that sum. Every other installment is unchanged |
| `Waterfall.EarlierReachedAreRepaid` | app/Services/LoanService.php:111-120 | every reached installment except the last one reached ends at balance 0 with status REPAID |
| `Waterfall.ZeroPaymentMarksRepaid` | app/Services/LoanService.php:111-116 | a zero payment marks the first outstanding installment REPAID and leaves its balance and everything else unchanged |
| `Waterfall.CascadeExample` | app/Services/LoanService.php:100-122 | installments of 30, 30 and 40 receiving 50 become 0/REPAID, 10/PARTIAL and untouched |
| `Repayment.Receive` | app/Services/LoanService.php:77-92 | exactly one receipt carrying the amount is appended. The installment total drops by `min(amount, total)`. The loan balance drops by the full amount. The status is REPAID when the new balance is 0 and DUE otherwise. Principal, currency and terms are kept |
| `Repayment.RepayLoan` | app/Services/LoanService.php:64-98 | a REPAID loan is refused with AlreadyRepaid, checked first. Otherwise an amount above the original principal is refused with AmountHigherThanOutstandingAmount. The call succeeds iff neither guard fires, and then it is `Receive` |
| `Repayment.RepayLoanKeepsReconciled` | app/Services/LoanService.php:78-92 | every accepted repayment keeps the balance equal to the principal minus all receipts |
| `Repayment.RepayLoanKeepsBalanced` | app/Services/LoanService.php:85-92 | when the amount is at most the current balance, the balance still equals the sum of the installment balances afterwards |
| `Repayment.RepayLoanCanOverdraw` | app/Services/LoanService.php:70-92 | on a well-formed loan, an amount above the current balance but within the principal is accepted. All installments end settled. The balance goes negative, the status stays DUE, and the loan is no longer balanced |
| `Repayment.OverdrawnLoanNeverRepaid` | app/Services/LoanService.php:67-91 | a DUE loan with a negative balance accepts every amount within the principal, stays negative and stays DUE |
| `Repayment.OverpaymentExample` | app/Services/LoanService.php:70-92 | a one-installment loan of 100, repaid 70 and then 50, ends at balance -20 with status DUE |
| `Repayment.RepayLoanCorrected` | app/Services/LoanService.php:67-72 | the same guards, except that the over-payment guard compares with the current balance |
| `Repayment.RepayLoanCorrectedKeepsWellFormed` | app/Services/LoanService.php:67-92 | with the corrected guard, every accepted repayment keeps a well-formed loan well-formed, and the loan is REPAID iff every installment is settled |

## Findings

| source | as written | input that shows it | evidently intended | confidence | as-written member | corrected member |
|---|---|---|---|---|---|---|
| app/Services/LoanService.php:70 | the over-payment guard rejects `amount > loan.amount`, which is the original principal | a loan of 100 in one installment, repaid 70 and then 50: both are accepted and the computed balance is -20 with status DUE. Whether that value is stored depends on how the database treats a negative value in the unsigned balance column, which is not modelled. From then on no repayment can make the loan REPAID | reject an amount above the current balance `outstanding_amount`, as the exception's name `AmountHigherThanOutstandingAmount` says | medium, not executed | `Repayment.RepayLoan` (shown by `Repayment.OverpaymentExample`, `Repayment.RepayLoanCanOverdraw`, `Repayment.OverdrawnLoanNeverRepaid`) | `Repayment.RepayLoanCorrected` (proved by `Repayment.RepayLoanCorrectedKeepsWellFormed`) |

## Left out

- Persistence, queries and the transaction (app/Services/LoanService.php:75, 95) are left out. `repayLoan` is one atomic transition of an in-memory loan value. The code has no explicit rollback path.
- Calendar dates are left out. The Carbon `addMonths($i)` due date becomes the month index `i`, because the date library's month-overflow rules are not part of this model. The loan's `processed_at` and a receipt's `received_at` are opaque values supplied by the caller.
- Ties in due date are left out. The database query orders by due date only, and the planner never produces two equal due dates. The model takes the first outstanding installment in sequence order.
- Float arithmetic is left out. `intval($amount / $terms)` goes through floating-point division, and the model uses exact natural-number division. The two agree while amounts stay within a double's 53-bit mantissa.
- Column types are left out. The installment balance column is an unsigned float, and the model uses a natural number. The loan balance column is an unsigned integer, and the model uses an integer. What the database does when asked to store a negative balance is not modelled.
- A zero term count is left out. PHP raises a division error there, so `terms != 0` is a precondition of the planner. Negative term counts are modelled.
- Negative amounts are left out. Amounts are natural numbers, although a PHP `int` parameter would accept a negative one.
- The currency code is an opaque tag that is copied. `repayLoan` never compares the receipt's currency with the loan's, and neither does the model.
- The user reference of a loan is left out. Nothing in the engine reads it.
- The in-memory status of a freshly created loan is left out. `Loan::create` leaves the status attribute unset until the record is reloaded, and the model uses the stored default DUE instead. Both values pass the AlreadyRepaid guard.
- The `HasPaymentStatus` query scopes, `LoanServiceProvider` and `LoanFacade` are left out. They are framework wiring.
- The card-controller feature tests are left out. They test HTTP endpoints unrelated to loans.
