/**
 * The amortization loop: month by month it charges interest on the running
 * balance, pays principal capped from above by the balance, accumulates the
 * interest, appends one ledger record, and stops once the balance is no
 * longer positive or the term is over.
 *
 * `Run` is the loop written as a recursive function, one call per month;
 * `GetAmortization` is the loop itself, proved to build exactly `Schedule`.
 * The lemmas state the ledger's invariants for every input.
 */
module Amortization {
  import opened Payment

  /** One row of the amortization table. */
  datatype Record = Record(
    month: nat,
    payment: real,
    principal: real,
    interest: real,
    remainingBalance: real,
    cumulativeInterest: real)

  /** The smaller of two amounts (the engine's `min`). */
  function Min(a: real, b: real): (m: real)
    ensures m <= a && m <= b && (m == a || m == b)
  {
    if b < a then b else a
  }

  /** The larger of two amounts (the engine's `max`). */
  function Max(a: real, b: real): (m: real)
    ensures m >= a && m >= b && (m == a || m == b)
  {
    if b > a then b else a
  }

  /** Principal paid in a month that opens at `balance`: the level payment less interest plus the extra, but never more than the balance. */
  function PrincipalPaid(balance: real, r: real, basePmt: real, extra: real): (paid: real)
    ensures paid <= balance && paid <= (basePmt - balance * r) + extra
    ensures paid == balance || paid == (basePmt - balance * r) + extra
  {
    Min(balance, (basePmt - balance * r) + extra)
  }

  /** The balance a month closes with, before the Remaining Balance column clamps it at zero. */
  function Closing(balance: real, r: real, basePmt: real, extra: real): (closing: real)
    ensures closing == Max(0.0, balance - ((basePmt - balance * r) + extra))
  {
    balance - PrincipalPaid(balance, r, basePmt, extra)
  }

  /** The record a month emits, given the balance it opens with and the interest accumulated before it. */
  function MonthRecord(month: nat, balance: real, cumInterest: real, r: real, basePmt: real, extra: real): (rec: Record)
  {
    var paid := PrincipalPaid(balance, r, basePmt, extra);
    Record(month, paid + balance * r, paid, balance * r,
           Max(0.0, Closing(balance, r, basePmt, extra)), cumInterest + balance * r)
  }

  /**
   * The ledger from month `month` to month `months`, for a balance and a
   * cumulative interest carried in from the months before. Each month
   * emits one record; the run ends after the first month that leaves a
   * non-positive balance, or after month `months`.
   */
  function Run(month: nat, months: nat, balance: real, cumInterest: real,
               r: real, basePmt: real, extra: real): (rows: seq<Record>)
    ensures month > months ==> rows == []
    ensures month <= months ==> 1 <= |rows| <= months + 1 - month
    decreases months + 1 - month
  {
    if month > months then []
    else
      var rec := MonthRecord(month, balance, cumInterest, r, basePmt, extra);
      var after := Closing(balance, r, basePmt, extra);
      if after <= 0.0 then [rec]
      else [rec] + Run(month + 1, months, after, cumInterest + balance * r, r, basePmt, extra)
  }

  /**
   * One pass of the loop body, stated over its local variables: the record
   * it appends is Run's first record, and Run continues from the balance and
   * interest total it leaves, unless that balance is no longer positive.
   */
  lemma LoopBody(month: nat, months: nat, balance: real, cumInterest: real, r: real, basePmt: real, extra: real,
                 rec: Record, nextBalance: real)
    requires month <= months
    requires rec.month == month && rec.interest == balance * r
    requires rec.principal == Min(balance, (basePmt - rec.interest) + extra)
    requires rec.payment == rec.principal + rec.interest
    requires nextBalance == balance - rec.principal
    requires rec.remainingBalance == Max(0.0, nextBalance)
    requires rec.cumulativeInterest == cumInterest + rec.interest
    ensures nextBalance <= 0.0 ==> Run(month, months, balance, cumInterest, r, basePmt, extra) == [rec]
    ensures nextBalance > 0.0 ==>
              Run(month, months, balance, cumInterest, r, basePmt, extra)
              == [rec] + Run(month + 1, months, nextBalance, rec.cumulativeInterest, r, basePmt, extra)
  {}

  lemma AppendThenConcat(rows: seq<Record>, rec: Record, rest: seq<Record>)
    ensures (rows + [rec]) + rest == rows + ([rec] + rest)
  {}

  /**
   * One unfolding of Run: its first row is the record of the opening month,
   * stated in that row's own fields, and the run either ends there or
   * continues from that row's remaining balance and cumulative interest.
   */
  lemma RunHead(month: nat, months: nat, balance: real, cumInterest: real, r: real, basePmt: real, extra: real)
    requires month <= months
    ensures var rows := Run(month, months, balance, cumInterest, r, basePmt, extra);
            && rows[0] == MonthRecord(month, balance, cumInterest, r, basePmt, extra)
            && rows[0].interest == balance * r
            && rows[0].principal == Min(balance, (basePmt - rows[0].interest) + extra)
            && rows[0].payment == rows[0].principal + rows[0].interest
            && rows[0].remainingBalance == balance - rows[0].principal
            && rows[0].remainingBalance >= 0.0
            && rows[0].cumulativeInterest == cumInterest + rows[0].interest
            && (rows[0].remainingBalance == 0.0 ==> |rows| == 1)
            && (rows[0].remainingBalance > 0.0 ==>
                  rows == [rows[0]] + Run(month + 1, months, rows[0].remainingBalance, rows[0].cumulativeInterest,
                                          r, basePmt, extra))
  {
    MonthRecordFacts(month, balance, cumInterest, r, basePmt, extra);
  }

  /** The whole ledger for a loan of `principal`: the loop started at month 1 with no interest paid yet. */
  function Schedule(principal: real, r: real, basePmt: real, extra: real, months: nat): (rows: seq<Record>)
  {
    Run(1, months, principal, 0.0, r, basePmt, extra)
  }

  /** The sum of the Interest column. */
  function TotalInterest(rows: seq<Record>): (total: real)
  {
    if rows == [] then 0.0 else TotalInterest(rows[..|rows| - 1]) + rows[|rows| - 1].interest
  }

  /** The balance a month opens with: the principal for the first, the previous row's remaining balance after that. */
  function BalanceBefore(rows: seq<Record>, principal: real, k: nat): (opening: real)
    requires k <= |rows|
  {
    if k == 0 then principal else rows[k - 1].remainingBalance
  }

  /** Rows behind a first row: each is the tail's row one place earlier, opening at the balance that row opened with. */
  lemma ShiftRows(rows: seq<Record>, rest: seq<Record>, balance: real)
    requires |rows| >= 1 && rest != [] && rows == [rows[0]] + rest
    ensures forall j | 1 <= j < |rows| ::
              rows[j] == rest[j - 1] && BalanceBefore(rows, balance, j) == BalanceBefore(rest, rows[0].remainingBalance, j - 1)
    ensures rows[|rows| - 1] == rest[|rest| - 1]
  {}

  /** Prepending a row adds its interest to the total. */
  lemma {:induction false} TotalInterestPrepend(rec: Record, rows: seq<Record>)
    ensures TotalInterest([rec] + rows) == rec.interest + TotalInterest(rows)
    decreases |rows|
  {
    if rows != [] {
      var init := rows[..|rows| - 1];
      assert ([rec] + rows)[..|rows|] == [rec] + init;
      TotalInterestPrepend(rec, init);
    }
  }

  /**
   * The record a month emits, against the balance it opens with: interest is
   * that balance times the rate, principal is the level payment less
   * interest plus the extra capped at the balance, payment is principal plus
   * interest, and the remaining balance is the opening balance less
   * principal, which is never negative; when it is positive, the uncapped
   * principal was paid.
   */
  lemma MonthRecordFacts(month: nat, balance: real, cumInterest: real, r: real, basePmt: real, extra: real)
    ensures var rec := MonthRecord(month, balance, cumInterest, r, basePmt, extra);
            && rec.month == month
            && rec.interest == balance * r
            && rec.principal == Min(balance, (basePmt - rec.interest) + extra)
            && rec.payment == rec.principal + rec.interest
            && rec.remainingBalance == balance - rec.principal
            && rec.remainingBalance == Closing(balance, r, basePmt, extra)
            && rec.remainingBalance >= 0.0
            && rec.cumulativeInterest == cumInterest + rec.interest
            && (rec.remainingBalance > 0.0 ==> rec.principal == (basePmt - rec.interest) + extra)
  {}

  /**
   * Every row of a run, read against the balance its month opens with:
   * numbered consecutively from `month`, interest is that balance times the
   * rate, principal is the level payment less interest plus the extra capped
   * at that balance, payment is principal plus interest, and the remaining
   * balance is the opening balance less principal, never negative (so the
   * zero clamp in the Remaining Balance column never changes it). Every row
   * but the last leaves a positive balance and pays the uncapped principal.
   */
  lemma {:induction false} RunRow(month: nat, months: nat, balance: real, cumInterest: real,
                                  r: real, basePmt: real, extra: real, k: nat)
    requires k < |Run(month, months, balance, cumInterest, r, basePmt, extra)|
    ensures var rows := Run(month, months, balance, cumInterest, r, basePmt, extra);
            && rows[k].month == month + k
            && rows[k] == MonthRecord(month + k, BalanceBefore(rows, balance, k), rows[k].cumulativeInterest - rows[k].interest, r, basePmt, extra)
            && (k < |rows| - 1 ==> rows[k].remainingBalance > 0.0)
    decreases k
  {
    var rows := Run(month, months, balance, cumInterest, r, basePmt, extra);
    var rec := MonthRecord(month, balance, cumInterest, r, basePmt, extra);
    var after := Closing(balance, r, basePmt, extra);
    MonthRecordFacts(month, balance, cumInterest, r, basePmt, extra);
    RunHead(month, months, balance, cumInterest, r, basePmt, extra);
    if after > 0.0 {
      var rest := Run(month + 1, months, after, cumInterest + balance * r, r, basePmt, extra);
      if k > 0 {
        RunRow(month + 1, months, after, cumInterest + balance * r, r, basePmt, extra, k - 1);
        assert rows[k] == rest[k - 1];
        assert BalanceBefore(rows, balance, k) == BalanceBefore(rest, after, k - 1);
      }
    }
  }

  /** Each row's Cumulative Interest is the interest carried in plus the Interest column summed up to that row. */
  lemma {:induction false} RunCumulative(month: nat, months: nat, balance: real, cumInterest: real,
                                         r: real, basePmt: real, extra: real, k: nat)
    requires k < |Run(month, months, balance, cumInterest, r, basePmt, extra)|
    ensures var rows := Run(month, months, balance, cumInterest, r, basePmt, extra);
            rows[k].cumulativeInterest == cumInterest + TotalInterest(rows[..k + 1])
    decreases k
  {
    var rows := Run(month, months, balance, cumInterest, r, basePmt, extra);
    var rec := MonthRecord(month, balance, cumInterest, r, basePmt, extra);
    var after := Closing(balance, r, basePmt, extra);
    assert rows[0] == rec;
    if k == 0 {
      assert rows[..1] == [rec];
      assert TotalInterest([rec]) == TotalInterest([]) + rec.interest;
    } else {
      assert after > 0.0;
      var carried := cumInterest + balance * r;
      var rest := Run(month + 1, months, after, carried, r, basePmt, extra);
      assert rows == [rec] + rest;
      RunCumulative(month + 1, months, after, carried, r, basePmt, extra, k - 1);
      assert rows[..k + 1] == [rec] + rest[..k];
      TotalInterestPrepend(rec, rest[..k]);
    }
  }

  /** A run that stops before its last month stops because the balance reached exactly zero. */
  lemma {:induction false} RunStopsAtZero(month: nat, months: nat, balance: real, cumInterest: real,
                                          r: real, basePmt: real, extra: real)
    requires month <= months
    requires |Run(month, months, balance, cumInterest, r, basePmt, extra)| < months + 1 - month
    ensures var rows := Run(month, months, balance, cumInterest, r, basePmt, extra);
            rows[|rows| - 1].remainingBalance == 0.0
    decreases months - month
  {
    var rows := Run(month, months, balance, cumInterest, r, basePmt, extra);
    var after := Closing(balance, r, basePmt, extra);
    assert after >= 0.0;
    if after > 0.0 {
      var rest := Run(month + 1, months, after, cumInterest + balance * r, r, basePmt, extra);
      assert rows == [MonthRecord(month, balance, cumInterest, r, basePmt, extra)] + rest;
      RunStopsAtZero(month + 1, months, after, cumInterest + balance * r, r, basePmt, extra);
      assert rows[|rows| - 1] == rest[|rest| - 1];
    }
  }

  /** Row k of the schedule is the record of month k + 1, opened at the previous row's remaining balance. */
  lemma ScheduleRow(principal: real, r: real, basePmt: real, extra: real, months: nat, k: nat)
    requires k < |Schedule(principal, r, basePmt, extra, months)|
    ensures var s := Schedule(principal, r, basePmt, extra, months);
            var opening := BalanceBefore(s, principal, k);
            && s[k].month == k + 1
            && s[k].interest == opening * r
            && s[k].principal == Min(opening, (basePmt - s[k].interest) + extra)
            && s[k].payment == s[k].principal + s[k].interest
            && s[k].remainingBalance == opening - s[k].principal
            && s[k].remainingBalance >= 0.0
            && (k < |s| - 1 ==> s[k].remainingBalance > 0.0)
            && (k < |s| - 1 ==> s[k].principal == (basePmt - s[k].interest) + extra)
  {
    var s := Schedule(principal, r, basePmt, extra, months);
    RunRow(1, months, principal, 0.0, r, basePmt, extra, k);
    MonthRecordFacts(k + 1, BalanceBefore(s, principal, k), s[k].cumulativeInterest - s[k].interest, r, basePmt, extra);
  }

  /** With at least one month in the term there are between one and `months` rows, numbered 1, 2, ... consecutively. */
  lemma ScheduleMonthsConsecutive(principal: real, r: real, basePmt: real, extra: real, months: nat)
    requires months >= 1
    ensures var s := Schedule(principal, r, basePmt, extra, months);
            && 1 <= |s| <= months
            && forall k | 0 <= k < |s| :: s[k].month == k + 1
  {
    var s := Schedule(principal, r, basePmt, extra, months);
    forall k | 0 <= k < |s| ensures s[k].month == k + 1 {
      ScheduleRow(principal, r, basePmt, extra, months, k);
    }
  }

  /** Every row's interest is the balance the month opened with times the monthly rate, and its payment is principal plus interest. */
  lemma SchedulePaymentSplit(principal: real, r: real, basePmt: real, extra: real, months: nat)
    ensures var s := Schedule(principal, r, basePmt, extra, months);
            forall k | 0 <= k < |s| ::
              && s[k].interest == BalanceBefore(s, principal, k) * r
              && s[k].payment == s[k].principal + s[k].interest
  {
    var s := Schedule(principal, r, basePmt, extra, months);
    forall k | 0 <= k < |s|
      ensures s[k].interest == BalanceBefore(s, principal, k) * r
      ensures s[k].payment == s[k].principal + s[k].interest
    {
      ScheduleRow(principal, r, basePmt, extra, months, k);
    }
  }

  /**
   * Whatever the principal, every remaining balance is non-negative and is
   * exactly the opening balance less the principal paid: the zero clamp of
   * the Remaining Balance column never changes a value.
   */
  lemma ScheduleBalanceNonNegative(principal: real, r: real, basePmt: real, extra: real, months: nat)
    ensures var s := Schedule(principal, r, basePmt, extra, months);
            forall k | 0 <= k < |s| ::
              && s[k].remainingBalance >= 0.0
              && s[k].remainingBalance == BalanceBefore(s, principal, k) - s[k].principal
  {
    var s := Schedule(principal, r, basePmt, extra, months);
    forall k | 0 <= k < |s|
      ensures s[k].remainingBalance >= 0.0
      ensures s[k].remainingBalance == BalanceBefore(s, principal, k) - s[k].principal
    {
      ScheduleRow(principal, r, basePmt, extra, months, k);
    }
  }

  /**
   * The loop stops right after the first month that leaves nothing owing:
   * every row but the last has a positive remaining balance (and paid the
   * uncapped principal), and a schedule shorter than the term ends at
   * exactly zero.
   */
  lemma ScheduleStopsAtPayoff(principal: real, r: real, basePmt: real, extra: real, months: nat)
    requires months >= 1
    ensures var s := Schedule(principal, r, basePmt, extra, months);
            && (forall k | 0 <= k < |s| - 1 ::
                  s[k].remainingBalance > 0.0 && s[k].principal == (basePmt - s[k].interest) + extra)
            && (|s| < months ==> s[|s| - 1].remainingBalance == 0.0)
  {
    var s := Schedule(principal, r, basePmt, extra, months);
    forall k | 0 <= k < |s| - 1
      ensures s[k].remainingBalance > 0.0 && s[k].principal == (basePmt - s[k].interest) + extra
    {
      ScheduleRow(principal, r, basePmt, extra, months, k);
    }
    if |s| < months {
      RunStopsAtZero(1, months, principal, 0.0, r, basePmt, extra);
    }
  }

  /**
   * Each row's Cumulative Interest is the sum of the Interest column up to
   * and including that row, so the last row's equals the total interest.
   */
  lemma ScheduleCumulativeInterest(principal: real, r: real, basePmt: real, extra: real, months: nat)
    ensures var s := Schedule(principal, r, basePmt, extra, months);
            && (forall k | 0 <= k < |s| :: s[k].cumulativeInterest == TotalInterest(s[..k + 1]))
            && (s != [] ==> s[|s| - 1].cumulativeInterest == TotalInterest(s))
  {
    var s := Schedule(principal, r, basePmt, extra, months);
    forall k | 0 <= k < |s| ensures s[k].cumulativeInterest == TotalInterest(s[..k + 1]) {
      RunCumulative(1, months, principal, 0.0, r, basePmt, extra, k);
    }
    if s != [] {
      assert s[..|s|] == s;
    }
  }

  /**
   * A month does not raise the balance exactly when it opens with a
   * non-negative balance and its uncapped principal (level payment less
   * interest plus extra) is non-negative; such a month also pays
   * non-negative principal. Otherwise, with no lower cap on principal, the
   * balance rises.
   */
  lemma ScheduleBalanceNonIncreasing(principal: real, r: real, basePmt: real, extra: real, months: nat)
    ensures var s := Schedule(principal, r, basePmt, extra, months);
            forall k | 0 <= k < |s| ::
              && (BalanceBefore(s, principal, k) >= 0.0 && (basePmt - s[k].interest) + extra >= 0.0
                  ==> 0.0 <= s[k].principal)
              && (s[k].remainingBalance <= BalanceBefore(s, principal, k)
                  <==> BalanceBefore(s, principal, k) >= 0.0 && (basePmt - s[k].interest) + extra >= 0.0)
  {
    var s := Schedule(principal, r, basePmt, extra, months);
    forall k | 0 <= k < |s|
      ensures BalanceBefore(s, principal, k) >= 0.0 && (basePmt - s[k].interest) + extra >= 0.0
              ==> 0.0 <= s[k].principal
      ensures s[k].remainingBalance <= BalanceBefore(s, principal, k)
              <==> BalanceBefore(s, principal, k) >= 0.0 && (basePmt - s[k].interest) + extra >= 0.0
    {
      ScheduleRow(principal, r, basePmt, extra, months, k);
    }
  }

  /** At a zero rate no month charges interest, so the total interest is zero. */
  lemma ZeroRateNoInterest(principal: real, basePmt: real, extra: real, months: nat)
    ensures var s := Schedule(principal, 0.0, basePmt, extra, months);
            && (forall k | 0 <= k < |s| :: s[k].interest == 0.0)
            && TotalInterest(s) == 0.0
  {
    var s := Schedule(principal, 0.0, basePmt, extra, months);
    forall k | 0 <= k < |s| ensures s[k].interest == 0.0 {
      ScheduleRow(principal, 0.0, basePmt, extra, months, k);
    }
    NoInterestTotal(s);
  }

  lemma {:induction false} NoInterestTotal(rows: seq<Record>)
    requires forall k | 0 <= k < |rows| :: rows[k].interest == 0.0
    ensures TotalInterest(rows) == 0.0
    decreases |rows|
  {
    if rows != [] {
      NoInterestTotal(rows[..|rows| - 1]);
    }
  }

  /**
   * A zero principal with a non-negative extra payment yields exactly one
   * all-zero row: the level payment is zero, so the first month pays
   * nothing, charges nothing and leaves nothing owing.
   */
  lemma ZeroPrincipalOneRow(r: real, extra: real, months: nat)
    requires months >= 1 && extra >= 0.0
    ensures Schedule(0.0, r, BasePayment(0.0, r, months), extra, months) == [Record(1, 0.0, 0.0, 0.0, 0.0, 0.0)]
  {
    var basePmt := BasePayment(0.0, r, months);
    BasePaymentShape(0.0, r, months);
    RunHead(1, months, 0.0, 0.0, r, basePmt, extra);
  }

  /**
   * The engine: derives the monthly rate and the month count, computes the
   * level payment, and runs the month loop. Returns the level payment, the
   * total interest and the ledger. A zero month count divides by zero in the
   * engine, so at least one year is required.
   */
  method GetAmortization(principal: real, rate: real, years: nat, extra: real)
    returns (basePmt: real, totalInterest: real, data: seq<Record>)
    requires years >= 1
    ensures basePmt == BasePayment(principal, MonthlyRate(rate), years * 12)
    ensures data == Schedule(principal, MonthlyRate(rate), basePmt, extra, years * 12)
    ensures 1 <= |data| <= years * 12
    ensures totalInterest == TotalInterest(data)
    ensures totalInterest == data[|data| - 1].cumulativeInterest
  {
    var monthlyRate := MonthlyRate(rate);
    var months := years * 12;
    basePmt := BasePayment(principal, monthlyRate, months);
    totalInterest, data := Amortize(principal, monthlyRate, months, basePmt, extra);
    ScheduleCumulativeInterest(principal, monthlyRate, basePmt, extra, months);
  }

  /**
   * The month loop: each month charges interest on the running balance,
   * pays principal capped at the balance, accumulates interest and appends
   * one record; it breaks out once the balance is no longer positive.
   */
  method Amortize(principal: real, monthlyRate: real, months: nat, basePmt: real, extra: real)
    returns (totalInterest: real, data: seq<Record>)
    requires months >= 1
    ensures data == Schedule(principal, monthlyRate, basePmt, extra, months)
    ensures 1 <= |data| <= months
    ensures totalInterest == data[|data| - 1].cumulativeInterest
  {
    data := [];
    var balance := principal;
    totalInterest := 0.0;
    ghost var full := Schedule(principal, monthlyRate, basePmt, extra, months);

    for i := 1 to months + 1
      invariant |data| == i - 1
      invariant data + Run(i, months, balance, totalInterest, monthlyRate, basePmt, extra) == full
      invariant data != [] ==> data[|data| - 1].cumulativeInterest == totalInterest
    {
      ghost var before, opening, carried := data, balance, totalInterest;
      var interest := balance * monthlyRate;
      var principalPmt := Min(balance, (basePmt - interest) + extra);
      balance := balance - principalPmt;
      totalInterest := totalInterest + interest;
      var rec := Record(i, principalPmt + interest, principalPmt, interest, Max(0.0, balance), totalInterest);
      LoopBody(i, months, opening, carried, monthlyRate, basePmt, extra, rec, balance);
      data := data + [rec];
      if balance <= 0.0 {
        break;
      }
      AppendThenConcat(before, rec, Run(i + 1, months, balance, totalInterest, monthlyRate, basePmt, extra));
    }
  }
}
