/**
 * What the engine's schedule achieves over the whole term, in exact
 * arithmetic: the level payment alone retires a loan at exactly the last
 * month; and, although principal paid is capped only from above, for a
 * non-negative loan and extra payment no month pays negative principal and
 * the loan is repaid within the term.
 *
 * Both results compare the running balance with the level balance, the
 * balance the level payment alone would leave after each month.
 */
module Payoff {
  import opened Payment
  import opened Amortization

  /**
   * The balance the level payment alone leaves after k of the `months`
   * payments: the annuity's closed form at a positive rate, and straight-line
   * repayment principal * (months - k) / months otherwise.
   */
  function LevelBalance(principal: real, r: real, months: nat, k: nat): (owed: real)
    requires months >= 1 && k <= months
  {
    if r > 0.0 then ClosedBalance(principal, r, months, k)
    else principal * ((months - k) as real) / (months as real)
  }

  /** The level balances after 0, 1, ..., `months` payments. */
  function LevelBalances(principal: real, r: real, months: nat): (b: seq<real>)
    requires months >= 1
    ensures |b| == months + 1
    ensures forall k | 0 <= k <= months :: b[k] == LevelBalance(principal, r, months, k)
  {
    seq(months + 1, k requires 0 <= k <= months => LevelBalance(principal, r, months, k))
  }

  /**
   * One month of level payments takes bound b down to bound b1 >= 0: at a
   * positive rate b grown by a month's interest less the payment, otherwise
   * b less a non-negative payment.
   */
  predicate StepsDown(b: real, b1: real, r: real, pmt: real)
  {
    && 0.0 <= b1 <= b
    && (if r > 0.0 then Accrue(b, r) - pmt == b1 else b - pmt == b1 && pmt >= 0.0)
  }

  /** The level payment steps bound k of the sequence down to bound k + 1. */
  predicate StepsDownAt(bounds: seq<real>, k: nat, r: real, pmt: real)
    requires k + 1 < |bounds|
  {
    StepsDown(bounds[k], bounds[k + 1], r, pmt)
  }

  /** Before any payment the level balance is the principal, and after the last one it is zero. */
  lemma LevelBalanceEnds(principal: real, r: real, months: nat)
    requires months >= 1
    ensures LevelBalance(principal, r, months, 0) == principal
    ensures LevelBalance(principal, r, months, months) == 0.0
  {
    if r > 0.0 {
      ClosedBalanceEnds(principal, r, months);
    } else {
      QuotientTimesDivisor(principal, months as real, principal / (months as real));
    }
  }

  /** For a non-negative principal, each level payment steps the level balance down to the next one. */
  lemma LevelBalanceStepsDown(principal: real, r: real, months: nat, k: nat)
    requires months >= 1 && principal >= 0.0 && k < months
    ensures StepsDown(LevelBalance(principal, r, months, k), LevelBalance(principal, r, months, k + 1),
                      r, BasePayment(principal, r, months))
  {
    if r > 0.0 {
      ClosedBalanceStep(principal, r, months, k);
      ClosedBalanceDecreasing(principal, r, months, k);
      ClosedBalanceSign(principal, r, months, k + 1);
    } else {
      var n := months as real;
      BasePaymentShape(principal, r, months);
      assert BasePayment(principal, r, months) == principal / n;
      StraightLineStep(principal, n, (months - (k + 1)) as real, BasePayment(principal, r, months),
                       LevelBalance(principal, r, months, k), LevelBalance(principal, r, months, k + 1));
    }
  }

  /**
   * With a positive rate and principal and no extra payment, the schedule
   * runs the full term, every payment is the level payment, and after
   * month k + 1 the balance is the closed-form balance after k + 1 level
   * payments: positive before the last month and zero after it.
   */
  lemma LevelPaymentRetiresLoan(principal: real, r: real, months: nat)
    requires r > 0.0 && principal > 0.0 && months >= 1
    ensures var s := Schedule(principal, r, BasePayment(principal, r, months), 0.0, months);
            && |s| == months
            && (forall k | 0 <= k < |s| ::
                  && s[k].payment == BasePayment(principal, r, months)
                  && s[k].remainingBalance == ClosedBalance(principal, r, months, k + 1))
            && (forall k | 0 <= k < |s| - 1 :: s[k].remainingBalance > 0.0)
            && s[|s| - 1].remainingBalance == 0.0
  {
    var pmt := BasePayment(principal, r, months);
    var bounds := LevelBalances(principal, r, months);
    LevelBalanceEnds(principal, r, months);
    forall k | 0 <= k < months ensures StepsDownAt(bounds, k, r, pmt) {
      LevelBalanceStepsDown(principal, r, months, k);
    }
    forall k | 1 <= k < months ensures bounds[k] > 0.0 {
      ClosedBalanceSign(principal, r, months, k);
    }
    RunAlongBounds(months, 1, principal, 0.0, r, pmt, bounds);
    assert Schedule(principal, r, pmt, 0.0, months) == Run(1, months, principal, 0.0, r, pmt, 0.0);
  }

  /**
   * At a positive rate with no extra payment, a run opened at bound m - 1
   * of a sequence the level payment steps down exactly, positive up to the
   * last and zero at the end, pays the level payment every month, closes
   * each month m + j at bound m + j, and lasts until the end of the term.
   */
  lemma {:induction false} RunAlongBounds(months: nat, m: nat, balance: real, cumInterest: real,
                                          r: real, pmt: real, bounds: seq<real>)
    requires r > 0.0 && |bounds| == months + 1 && bounds[months] == 0.0
    requires 1 <= m <= months && balance == bounds[m - 1]
    requires forall k | m - 1 <= k < months :: StepsDownAt(bounds, k, r, pmt)
    requires forall k | m <= k < months :: bounds[k] > 0.0
    ensures var rows := Run(m, months, balance, cumInterest, r, pmt, 0.0);
            && |rows| == months + 1 - m
            && forall j | 0 <= j < |rows| :: rows[j].payment == pmt && rows[j].remainingBalance == bounds[m + j]
    decreases months - m
  {
    var rows := Run(m, months, balance, cumInterest, r, pmt, 0.0);
    var next := bounds[m];
    assert StepsDownAt(bounds, m - 1, r, pmt);
    RunHead(m, months, balance, cumInterest, r, pmt, 0.0);
    LevelStep(balance, r, pmt, next, rows[0].interest);
    if m < months {
      assert next > 0.0;
      var rest := Run(m + 1, months, next, rows[0].cumulativeInterest, r, pmt, 0.0);
      RunAlongBounds(months, m + 1, next, rows[0].cumulativeInterest, r, pmt, bounds);
      ShiftAlong(rows, rest, bounds, m, pmt);
    } else {
      assert |rows| == 1;
    }
  }

  /** Rows behind a first row, each paying pmt and closing at the bound one place further on. */
  lemma ShiftAlong(rows: seq<Record>, rest: seq<Record>, bounds: seq<real>, m: nat, pmt: real)
    requires |rows| >= 1 && rows == [rows[0]] + rest && m + |rows| <= |bounds|
    requires forall i | 0 <= i < |rest| :: rest[i].payment == pmt && rest[i].remainingBalance == bounds[(m + 1) + i]
    ensures forall j | 1 <= j < |rows| :: rows[j].payment == pmt && rows[j].remainingBalance == bounds[m + j]
  {}

  /**
   * One level-payment month from balance B: when B grown by a month's
   * interest covers the payment, the uncapped principal is what is paid,
   * the payment is the level payment, and what is left is B * (1 + r) - pmt.
   */
  lemma LevelStep(balance: real, r: real, pmt: real, next: real, interest: real)
    requires interest == balance * r
    requires Accrue(balance, r) - pmt == next && next >= 0.0
    ensures (pmt - interest) + 0.0 <= balance
    ensures Min(balance, (pmt - interest) + 0.0) == pmt - interest
    ensures balance - (pmt - interest) == next
  {
    assert Accrue(balance, r) == balance + interest;
  }

  /**
   * For a non-negative principal and extra payment, at any rate: no month
   * pays negative principal, no month raises the balance, and the last row
   * leaves nothing owing, so the loan is repaid within the term. The engine
   * caps principal only from above; these are why no lower cap is needed.
   */
  lemma PaidOffWithinTerm(principal: real, rate: real, years: nat, extra: real)
    requires years >= 1 && principal >= 0.0 && extra >= 0.0
    ensures var r := MonthlyRate(rate);
            var s := Schedule(principal, r, BasePayment(principal, r, years * 12), extra, years * 12);
            && (forall k | 0 <= k < |s| ::
                  && s[k].principal >= 0.0
                  && s[k].remainingBalance <= BalanceBefore(s, principal, k))
            && s[|s| - 1].remainingBalance == 0.0
  {
    var r, months := MonthlyRate(rate), years * 12;
    var pmt := BasePayment(principal, r, months);
    var bounds := LevelBalances(principal, r, months);
    LevelBalanceEnds(principal, r, months);
    forall k | 0 <= k < months ensures StepsDownAt(bounds, k, r, pmt) {
      LevelBalanceStepsDown(principal, r, months, k);
    }
    RunWithinBounds(months, 1, principal, 0.0, r, pmt, extra, bounds);
    RunEndsAtZero(months, 1, principal, 0.0, r, pmt, extra, bounds);
    assert Schedule(principal, r, pmt, extra, months) == Run(1, months, principal, 0.0, r, pmt, extra);
  }

  /**
   * A run opened at a balance between zero and bound m - 1 of a sequence
   * that the payment steps down to zero pays non-negative principal every
   * month and never raises the balance.
   */
  lemma {:induction false} RunWithinBounds(months: nat, m: nat, balance: real, cumInterest: real,
                                           r: real, pmt: real, extra: real, bounds: seq<real>)
    requires extra >= 0.0 && |bounds| == months + 1 && bounds[months] == 0.0
    requires 1 <= m <= months && 0.0 <= balance <= bounds[m - 1]
    requires forall k | m - 1 <= k < months :: StepsDownAt(bounds, k, r, pmt)
    ensures var rows := Run(m, months, balance, cumInterest, r, pmt, extra);
            forall j | 0 <= j < |rows| ::
              && rows[j].principal >= 0.0
              && rows[j].remainingBalance <= BalanceBefore(rows, balance, j)
    decreases months - m
  {
    var rows := Run(m, months, balance, cumInterest, r, pmt, extra);
    RunHead(m, months, balance, cumInterest, r, pmt, extra);
    assert StepsDownAt(bounds, m - 1, r, pmt);
    MonthWithinBound(balance, bounds[m - 1], bounds[m], r, pmt, extra, rows[0]);
    var after := rows[0].remainingBalance;
    if after > 0.0 {
      var rest := Run(m + 1, months, after, rows[0].cumulativeInterest, r, pmt, extra);
      RunWithinBounds(months, m + 1, after, rows[0].cumulativeInterest, r, pmt, extra, bounds);
      ShiftRows(rows, rest, balance);
    } else {
      assert |rows| == 1;
    }
  }

  /**
   * The same run ends at exactly zero: either it stops once nothing is
   * owing, or it reaches the last bound, which is zero.
   */
  lemma {:induction false} RunEndsAtZero(months: nat, m: nat, balance: real, cumInterest: real,
                                         r: real, pmt: real, extra: real, bounds: seq<real>)
    requires extra >= 0.0 && |bounds| == months + 1 && bounds[months] == 0.0
    requires 1 <= m <= months && 0.0 <= balance <= bounds[m - 1]
    requires forall k | m - 1 <= k < months :: StepsDownAt(bounds, k, r, pmt)
    ensures var rows := Run(m, months, balance, cumInterest, r, pmt, extra);
            rows[|rows| - 1].remainingBalance == 0.0
    decreases months - m
  {
    var rows := Run(m, months, balance, cumInterest, r, pmt, extra);
    RunHead(m, months, balance, cumInterest, r, pmt, extra);
    assert StepsDownAt(bounds, m - 1, r, pmt);
    MonthWithinBound(balance, bounds[m - 1], bounds[m], r, pmt, extra, rows[0]);
    var after := rows[0].remainingBalance;
    if after > 0.0 {
      var rest := Run(m + 1, months, after, rows[0].cumulativeInterest, r, pmt, extra);
      RunEndsAtZero(months, m + 1, after, rows[0].cumulativeInterest, r, pmt, extra, bounds);
      assert rows[|rows| - 1] == rest[|rest| - 1];
    } else {
      assert |rows| == 1;
    }
  }

  /**
   * A month opened at a balance between zero and bound b, where the payment
   * steps b down to b1, pays non-negative principal and closes within b1.
   */
  lemma MonthWithinBound(balance: real, b: real, b1: real, r: real, pmt: real, extra: real, rec: Record)
    requires extra >= 0.0 && 0.0 <= balance <= b && StepsDown(b, b1, r, pmt)
    requires rec.interest == balance * r
    requires rec.principal == Min(balance, (pmt - rec.interest) + extra)
    requires rec.remainingBalance == balance - rec.principal
    ensures rec.principal >= 0.0 && rec.remainingBalance <= b1
  {
    if r > 0.0 {
      CappedStep(balance, b, b1, r, pmt, extra, rec.interest);
    } else {
      UncappedStep(balance, b, b1, r, pmt, extra, rec.interest);
    }
  }

  /**
   * A month at a positive rate whose opening balance lies between zero and
   * the bound C pays non-negative principal and closes at or below the next
   * bound C * (1 + r) - pmt.
   */
  lemma CappedStep(balance: real, bound: real, nextBound: real, r: real, pmt: real, extra: real, interest: real)
    requires r > 0.0 && extra >= 0.0 && interest == balance * r
    requires 0.0 <= balance <= bound
    requires Accrue(bound, r) - pmt == nextBound && 0.0 <= nextBound <= bound
    ensures 0.0 <= Min(balance, (pmt - interest) + extra)
    ensures balance - Min(balance, (pmt - interest) + extra) <= nextBound
  {}

  /**
   * A month at a rate that is not positive, opened between zero and the
   * bound: interest never eats into the payment, so principal paid is
   * non-negative and the balance closes within the next bound.
   */
  lemma UncappedStep(balance: real, bound: real, nextBound: real, r: real, pmt: real, extra: real, interest: real)
    requires r <= 0.0 && extra >= 0.0 && pmt >= 0.0 && interest == balance * r
    requires 0.0 <= balance <= bound && bound - pmt == nextBound && 0.0 <= nextBound
    ensures 0.0 <= Min(balance, (pmt - interest) + extra)
    ensures balance - Min(balance, (pmt - interest) + extra) <= nextBound
  {}

  /** Straight-line repayment: one payment of principal / n takes principal * (j + 1) / n down to principal * j / n. */
  lemma StraightLineStep(principal: real, n: real, j: real, pmt: real, bound: real, nextBound: real)
    requires n > 0.0 && j >= 0.0 && principal >= 0.0 && pmt == principal / n
    requires bound == principal * (j + 1.0) / n && nextBound == principal * j / n
    ensures bound - pmt == nextBound && 0.0 <= nextBound <= bound && pmt >= 0.0
  {}

}
