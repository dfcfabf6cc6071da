/** The payment status enumeration, shared by loans and their scheduled repayments. */
module PaymentStatus {

  /** DUE, PAID, REPAID and PARTIAL, in the order the enumeration declares them. */
  datatype Status = Due | Paid | Repaid | Partial
}
