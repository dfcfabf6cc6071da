/**
 * The repayment waterfall: a received amount is put against the earliest-due
 * installment that still has something outstanding, and whatever that
 * installment cannot absorb is carried on to the next one.
 */
module Waterfall {
  import opened Wrappers
  import opened PaymentStatus
  import opened Models

  /**
   * Status of an installment after `applied` was put against it, leaving
   * `outstanding`; the first matching rule wins.
   */
  function DetectStatus(applied: nat, outstanding: nat): (r: Status)
    ensures r != Paid
  {
    if (if outstanding <= applied then outstanding else applied) == 0 then Repaid
    else if outstanding == applied then Due
    else Partial
  }

  /**
   * Read against the balance `before` an installment had when `applied` reached
   * it: a payment that clears it, and also a payment of zero, gives REPAID;
   * a payment of exactly half gives DUE; any other partial payment gives PARTIAL.
   */
  lemma DetectStatusAfterPayment(before: nat, applied: nat)
    requires before > 0
    ensures var after := if applied >= before then 0 else before - applied;
      && (DetectStatus(applied, after) == Repaid <==> applied == 0 || applied >= before)
      && (DetectStatus(applied, after) == Due <==> 0 < applied && before == 2 * applied)
      && (DetectStatus(applied, after) == Partial <==> 0 < applied < before && before != 2 * applied)
  {
  }

  /** Index of the earliest-due installment whose outstanding amount is positive, if any. */
  function FirstOutstanding(s: seq<ScheduledRepayment>): (r: Option<nat>)
    ensures r.Some? ==> r.value < |s| && s[r.value].outstanding > 0
    ensures r.Some? ==> forall j :: 0 <= j < r.value ==> s[j].outstanding == 0
    ensures r.None? ==> forall j :: 0 <= j < |s| ==> s[j].outstanding == 0
  {
    FirstOutstandingFrom(s, 0)
  }

  function FirstOutstandingFrom(s: seq<ScheduledRepayment>, i: nat): (r: Option<nat>)
    requires i <= |s|
    requires forall j :: 0 <= j < i ==> s[j].outstanding == 0
    ensures r.Some? ==> i <= r.value < |s| && s[r.value].outstanding > 0
    ensures r.Some? ==> forall j :: 0 <= j < r.value ==> s[j].outstanding == 0
    ensures r.None? ==> forall j :: 0 <= j < |s| ==> s[j].outstanding == 0
    decreases |s| - i
  {
    if i == |s| then None
    else if s[i].outstanding > 0 then Some(i)
    else FirstOutstandingFrom(s, i + 1)
  }

  /** When installments are listed by due date, the first outstanding one is the earliest due. */
  lemma FirstOutstandingIsEarliestDue(s: seq<ScheduledRepayment>)
    requires ByDueDate(s)
    requires FirstOutstanding(s).Some?
    ensures forall j :: 0 <= j < |s| && s[j].outstanding > 0 ==>
      s[FirstOutstanding(s).value].due <= s[j].due
  {
  }

  /** One step of the waterfall: put `applied` against installment `r`, floored at zero. */
  function Settle(r: ScheduledRepayment, applied: nat): ScheduledRepayment
  {
    var rest := if applied >= r.outstanding then 0 else r.outstanding - applied;
    r.(outstanding := rest, status := DetectStatus(applied, rest))
  }

  /**
   * Applies `received` to the installments: the first outstanding one absorbs
   * what it can, and any excess is applied again to what remains. Only balances
   * and statuses change, no balance grows, and settled installments are left alone.
   */
  function PayScheduledRepayment(s: seq<ScheduledRepayment>, received: nat): (r: seq<ScheduledRepayment>)
    ensures |r| == |s|
    ensures forall i :: 0 <= i < |s| ==>
      && r[i].amount == s[i].amount
      && r[i].currency == s[i].currency
      && r[i].due == s[i].due
      && r[i].outstanding <= s[i].outstanding
    ensures forall i :: 0 <= i < |s| && s[i].outstanding == 0 ==> r[i] == s[i]
    decreases CountOutstanding(s)
  {
    match FirstOutstanding(s)
    case None => s
    case Some(k) =>
      var next := s[k := Settle(s[k], received)];
      if received > s[k].outstanding then
        CountOutstandingUpdate(s, k, Settle(s[k], received));
        PayScheduledRepayment(next, received - s[k].outstanding)
      else
        next
  }

  /**
   * How many installments one waterfall call visits: at most the number of
   * outstanding installments, at most one more than the amount received, and
   * none exactly when nothing is outstanding.
   */
  function Visits(s: seq<ScheduledRepayment>, received: nat): (n: nat)
    ensures n <= CountOutstanding(s)
    ensures n <= received + 1
    ensures n == 0 <==> FirstOutstanding(s).None?
    decreases CountOutstanding(s)
  {
    match FirstOutstanding(s)
    case None => 0
    case Some(k) =>
      if received > s[k].outstanding then
        CountOutstandingUpdate(s, k, Settle(s[k], received));
        1 + Visits(s[k := Settle(s[k], received)], received - s[k].outstanding)
      else
        CountOutstandingUpdate(s, k, s[k].(outstanding := 0));
        1
  }

  /** With nothing outstanding, a payment leaves every installment as it was. */
  lemma NothingOutstandingIsNoOp(s: seq<ScheduledRepayment>, received: nat)
    requires CountOutstanding(s) == 0
    ensures PayScheduledRepayment(s, received) == s
  {
    if FirstOutstanding(s).Some? {
      var k := FirstOutstanding(s).value;
      CountOutstandingUpdate(s, k, s[k].(outstanding := 0));
    }
  }

  /**
   * Conservation: one waterfall call lowers the total outstanding by exactly the
   * amount received, or by everything outstanding when that is smaller.
   */
  lemma {:induction false} PayConserves(s: seq<ScheduledRepayment>, received: nat)
    ensures TotalOutstanding(PayScheduledRepayment(s, received))
         == TotalOutstanding(s) - (if received <= TotalOutstanding(s) then received else TotalOutstanding(s))
    decreases CountOutstanding(s)
  {
    assert s[..|s|] == s;
    match FirstOutstanding(s)
    case None =>
      SettledPrefixTotal(s, |s|);
    case Some(k) =>
      var x := Settle(s[k], received);
      var next := s[k := x];
      TotalOutstandingUpdate(s, k, x);
      PrefixTotalCovers(s, k, |s|);
      if received > s[k].outstanding {
        CountOutstandingUpdate(s, k, x);
        PayConserves(next, received - s[k].outstanding);
      }
  }

  /** What the first `i` installments had outstanding before the payment. */
  function Before(s: seq<ScheduledRepayment>, i: nat): nat
    requires i <= |s|
  {
    TotalOutstanding(s[..i])
  }

  /**
   * Whether the waterfall reaches installment `i`: it must still have something
   * outstanding, and either everything before it is settled (so it is the first
   * outstanding one) or the payment exceeds what the earlier ones absorb.
   */
  predicate Reached(s: seq<ScheduledRepayment>, received: nat, i: nat)
    requires i < |s|
  {
    s[i].outstanding > 0 && (Before(s, i) == 0 || received > Before(s, i))
  }

  /**
   * The waterfall in closed form: every reached installment is settled with what
   * is left of the payment after the earlier installments took their balances;
   * every other installment is unchanged.
   */
  function Allocation(s: seq<ScheduledRepayment>, received: nat): (r: seq<ScheduledRepayment>)
    ensures |r| == |s|
  {
    seq(|s|, i requires 0 <= i < |s| =>
      if Reached(s, received, i) then Settle(s[i], received - Before(s, i)) else s[i])
  }

  /** The recursive waterfall and its closed form agree on every input. */
  lemma {:induction false} PayMatchesAllocation(s: seq<ScheduledRepayment>, received: nat)
    ensures PayScheduledRepayment(s, received) == Allocation(s, received)
    decreases CountOutstanding(s)
  {
    match FirstOutstanding(s)
    case None =>
      AllocationWhenSettled(s, received);
    case Some(k) =>
      if received > s[k].outstanding {
        var x := Settle(s[k], received);
        CountOutstandingUpdate(s, k, x);
        PayMatchesAllocation(s[k := x], received - s[k].outstanding);
        AllocationCarriesOver(s, received, k);
      } else {
        AllocationStopsAtFirst(s, received, k);
      }
  }

  /** With nothing outstanding the closed form changes nothing. */
  lemma AllocationWhenSettled(s: seq<ScheduledRepayment>, received: nat)
    requires FirstOutstanding(s).None?
    ensures Allocation(s, received) == s
  {
    var a := Allocation(s, received);
    forall i | 0 <= i < |s|
      ensures a[i] == s[i]
    {
    }
  }

  /** Every installment after the first outstanding one sits behind that one's balance. */
  lemma BehindFirst(s: seq<ScheduledRepayment>, k: nat, i: nat)
    requires FirstOutstanding(s) == Some(k)
    requires k < i <= |s|
    ensures Before(s, i) >= s[k].outstanding
  {
    SettledPrefixTotal(s, k);
    PrefixTotalCovers(s, k, i);
  }

  /** A payment the first outstanding installment absorbs reaches no other installment. */
  lemma AllocationStopsAtFirst(s: seq<ScheduledRepayment>, received: nat, k: nat)
    requires FirstOutstanding(s) == Some(k)
    requires received <= s[k].outstanding
    ensures Allocation(s, received) == s[k := Settle(s[k], received)]
  {
    var a := Allocation(s, received);
    var next := s[k := Settle(s[k], received)];
    forall i | 0 <= i < |s|
      ensures a[i] == next[i]
    {
      if i == k {
        SettledPrefixTotal(s, k);
      } else if i > k {
        BehindFirst(s, k, i);
      }
    }
  }

  /**
   * Once the first outstanding installment is cleared, the closed form of the
   * carried-over excess against the updated installments is the closed form of
   * the whole payment against the original ones.
   */
  lemma AllocationCarriesOver(s: seq<ScheduledRepayment>, received: nat, k: nat)
    requires FirstOutstanding(s) == Some(k)
    requires received > s[k].outstanding
    ensures Allocation(s[k := Settle(s[k], received)], received - s[k].outstanding)
         == Allocation(s, received)
  {
    var x := Settle(s[k], received);
    var next := s[k := x];
    var rest := received - s[k].outstanding;
    var a := Allocation(s, received);
    var b := Allocation(next, rest);
    forall i | 0 <= i < |s|
      ensures b[i] == a[i]
    {
      CarriesOverAt(s, received, k, i);
    }
  }

  /** The pointwise step of AllocationCarriesOver. */
  lemma CarriesOverAt(s: seq<ScheduledRepayment>, received: nat, k: nat, i: nat)
    requires FirstOutstanding(s) == Some(k)
    requires received > s[k].outstanding
    requires i < |s|
    ensures Allocation(s[k := Settle(s[k], received)], received - s[k].outstanding)[i]
         == Allocation(s, received)[i]
  {
    var x := Settle(s[k], received);
    var next := s[k := x];
    var rest := received - s[k].outstanding;
    if i <= k {
      assert next[..i] == s[..i];
      SettledPrefixTotal(s, i);
    } else {
      CarriesOverBeyond(s, received, k, i);
    }
  }

  /** CarriesOverAt for an installment after the first outstanding one. */
  lemma CarriesOverBeyond(s: seq<ScheduledRepayment>, received: nat, k: nat, i: nat)
    requires FirstOutstanding(s) == Some(k)
    requires received > s[k].outstanding
    requires k < i < |s|
    ensures Allocation(s[k := Settle(s[k], received)], received - s[k].outstanding)[i]
         == Allocation(s, received)[i]
  {
    ReachedBeyond(s, received, k, i);
  }

  /**
   * Past the first outstanding installment, clearing it and carrying the excess
   * reaches the same installments with the same remaining amounts.
   */
  lemma ReachedBeyond(s: seq<ScheduledRepayment>, received: nat, k: nat, i: nat)
    requires FirstOutstanding(s) == Some(k)
    requires received > s[k].outstanding
    requires k < i < |s|
    ensures var next := s[k := Settle(s[k], received)];
      && Before(next, i) + s[k].outstanding == Before(s, i)
      && Reached(next, received - s[k].outstanding, i) == Reached(s, received, i)
  {
    var x := Settle(s[k], received);
    var next := s[k := x];
    var rest := received - s[k].outstanding;
    assert x.outstanding == 0;
    assert next[..i] == s[..i][k := x];
    TotalOutstandingUpdate(s[..i], k, x);
    BehindFirst(s, k, i);
    assert Before(next, i) + s[k].outstanding == Before(s, i);
    assert rest - Before(next, i) == received - Before(s, i);
  }

  /**
   * Every reached installment except the last one reached ends fully settled with
   * status REPAID: money only moves on once the earlier installment is cleared.
   */
  lemma EarlierReachedAreRepaid(s: seq<ScheduledRepayment>, received: nat, i: nat, j: nat)
    requires i < j < |s|
    requires Reached(s, received, i) && Reached(s, received, j)
    ensures PayScheduledRepayment(s, received)[i].outstanding == 0
    ensures PayScheduledRepayment(s, received)[i].status == Repaid
  {
    PrefixTotalCovers(s, i, j);
    assert Before(s, j) > 0;
    var applied := received - Before(s, i);
    assert applied > s[i].outstanding;
    var settled := Settle(s[i], applied);
    assert settled.outstanding == 0 && settled.status == Repaid;
    assert Allocation(s, received)[i] == settled;
    PayMatchesAllocation(s, received);
  }

  /**
   * A payment of zero still visits the first outstanding installment and marks
   * it REPAID, although its balance does not move.
   */
  lemma ZeroPaymentMarksRepaid(s: seq<ScheduledRepayment>, k: nat)
    requires FirstOutstanding(s) == Some(k)
    ensures PayScheduledRepayment(s, 0) == s[k := s[k].(status := Repaid)]
  {
  }

  /**
   * Installments of 30, 30 and 40, all outstanding, receiving 50: the first is
   * cleared and REPAID, the second takes the remaining 20 and is PARTIAL at 10,
   * the third is untouched.
   */
  lemma CascadeExample(c: Currency, st: Status)
    ensures var s := [ScheduledRepayment(30, 30, c, 1, st), ScheduledRepayment(30, 30, c, 2, st),
                      ScheduledRepayment(40, 40, c, 3, st)];
      PayScheduledRepayment(s, 50)
        == [ScheduledRepayment(30, 0, c, 1, Repaid), ScheduledRepayment(30, 10, c, 2, Partial),
            ScheduledRepayment(40, 40, c, 3, st)]
  {
    var s := [ScheduledRepayment(30, 30, c, 1, st), ScheduledRepayment(30, 30, c, 2, st),
              ScheduledRepayment(40, 40, c, 3, st)];
    assert FirstOutstanding(s) == Some(0);
    var next := s[0 := Settle(s[0], 50)];
    assert next[0].outstanding == 0 && next[1].outstanding == 30;
    assert FirstOutstandingFrom(next, 1) == Some(1);
    assert FirstOutstanding(next) == Some(1);
  }

  /** Number of installments among the first `n` that the waterfall reaches. */
  function ReachedBelow(s: seq<ScheduledRepayment>, received: nat, n: nat): nat
    requires n <= |s|
  {
    if n == 0 then 0
    else ReachedBelow(s, received, n - 1) + (if Reached(s, received, n - 1) then 1 else 0)
  }

  /** Counting reached installments when exactly one extra index `k` is reached in `s`. */
  lemma {:induction false} ReachedBelowStep(
    s: seq<ScheduledRepayment>, received: nat, t: seq<ScheduledRepayment>, rest: nat, k: nat, n: nat)
    requires |t| == |s| && k < |s| && n <= |s|
    requires forall i :: 0 <= i < |s| ==> (Reached(s, received, i) <==> i == k || Reached(t, rest, i))
    requires !Reached(t, rest, k)
    ensures ReachedBelow(s, received, n) == ReachedBelow(t, rest, n) + (if k < n then 1 else 0)
    decreases n
  {
    if n > 0 {
      ReachedBelowStep(s, received, t, rest, k, n - 1);
    }
  }

  /** Counting reached installments when only index `k` is reached. */
  lemma {:induction false} ReachedBelowSingle(s: seq<ScheduledRepayment>, received: nat, k: nat, n: nat)
    requires n <= |s|
    requires forall i :: 0 <= i < |s| ==> (Reached(s, received, i) <==> i == k)
    ensures ReachedBelow(s, received, n) == (if k < n then 1 else 0)
    decreases n
  {
    if n > 0 {
      ReachedBelowSingle(s, received, k, n - 1);
    }
  }

  /** Counting reached installments when none is reached. */
  lemma {:induction false} ReachedBelowNone(s: seq<ScheduledRepayment>, received: nat, n: nat)
    requires n <= |s|
    requires forall i :: 0 <= i < |s| ==> !Reached(s, received, i)
    ensures ReachedBelow(s, received, n) == 0
    decreases n
  {
    if n > 0 {
      ReachedBelowNone(s, received, n - 1);
    }
  }

  /** The visit count of one waterfall call is the number of installments the closed form reaches. */
  lemma {:induction false} VisitsCountsReached(s: seq<ScheduledRepayment>, received: nat)
    ensures Visits(s, received) == ReachedBelow(s, received, |s|)
    decreases CountOutstanding(s)
  {
    match FirstOutstanding(s)
    case None =>
      ReachedBelowNone(s, received, |s|);
    case Some(k) =>
      SettledPrefixTotal(s, k);
      if received > s[k].outstanding {
        var x := Settle(s[k], received);
        var next := s[k := x];
        var rest := received - s[k].outstanding;
        CountOutstandingUpdate(s, k, x);
        VisitsCountsReached(next, rest);
        forall i | 0 <= i < |s|
          ensures Reached(s, received, i) <==> i == k || Reached(next, rest, i)
        {
          if i < k {
            assert next[i] == s[i];
          } else if i > k {
            ReachedBeyond(s, received, k, i);
          }
        }
        ReachedBelowStep(s, received, next, rest, k, |s|);
      } else {
        forall i | 0 <= i < |s|
          ensures Reached(s, received, i) <==> i == k
        {
          if i > k {
            BehindFirst(s, k, i);
          }
        }
        ReachedBelowSingle(s, received, k, |s|);
      }
  }
}
