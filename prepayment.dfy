/**
 * The effect of the extra monthly principal payment on the ledger: at a
 * non-negative rate a larger extra payment never lengthens the schedule and
 * never adds interest, and the Cumulative Interest column never falls.
 *
 * One month takes an opening balance b to max(0, b * (1 + r) - pmt - extra),
 * which rises with b and falls with the extra payment; comparing two runs
 * balance by balance gives both results.
 */
module Prepayment {
  import opened Payment
  import opened Amortization

  /**
   * At a non-negative rate, a month opened at a balance no larger and paying
   * an extra no smaller charges no more interest and closes at a balance no
   * larger. Stated over the month's fields: interest, and the balance left
   * after the capped principal.
   */
  lemma MonthCompare(b1: real, b2: real, r: real, pmt: real, e1: real, e2: real,
                     i1: real, i2: real, a1: real, a2: real)
    requires r >= 0.0 && b2 <= b1 && e1 <= e2
    requires i1 == b1 * r && a1 == b1 - Min(b1, (pmt - i1) + e1)
    requires i2 == b2 * r && a2 == b2 - Min(b2, (pmt - i2) + e2)
    ensures i2 <= i1 && a2 <= a1
  {
    MulMonotone(b2, b1, r);
  }

  /** A single row's total is its interest. */
  lemma TotalInterestOne(rec: Record)
    ensures TotalInterest([rec]) == rec.interest
  {
    assert [rec][..0] == [];
  }

  /** At a non-negative rate, a run opened at a non-negative balance charges non-negative interest in total. */
  lemma {:induction false} RunInterestNonNegative(month: nat, months: nat, balance: real, cumInterest: real,
                                                  r: real, pmt: real, extra: real)
    requires r >= 0.0 && balance >= 0.0
    ensures TotalInterest(Run(month, months, balance, cumInterest, r, pmt, extra)) >= 0.0
    decreases months + 1 - month
  {
    if month <= months {
      var rows := Run(month, months, balance, cumInterest, r, pmt, extra);
      RunHead(month, months, balance, cumInterest, r, pmt, extra);
      MulMonotone(0.0, balance, r);
      var after := rows[0].remainingBalance;
      if after > 0.0 {
        var rest := Run(month + 1, months, after, rows[0].cumulativeInterest, r, pmt, extra);
        RunInterestNonNegative(month + 1, months, after, rows[0].cumulativeInterest, r, pmt, extra);
        TotalInterestPrepend(rows[0], rest);
      } else {
        assert rows == [rows[0]];
        TotalInterestOne(rows[0]);
      }
    }
  }

  /**
   * Two runs over the same months with the same level payment at a
   * non-negative rate: the one opened at a balance no larger and paying an
   * extra no smaller has no more rows and charges no more interest in total.
   */
  lemma {:induction false} RunExtraCompare(month: nat, months: nat, b1: real, b2: real, c1: real, c2: real,
                                           r: real, pmt: real, e1: real, e2: real)
    requires r >= 0.0 && b2 <= b1 && e1 <= e2
    ensures var rows1, rows2 := Run(month, months, b1, c1, r, pmt, e1), Run(month, months, b2, c2, r, pmt, e2);
            |rows2| <= |rows1| && TotalInterest(rows2) <= TotalInterest(rows1)
    decreases months + 1 - month
  {
    if month <= months {
      var rows1, rows2 := Run(month, months, b1, c1, r, pmt, e1), Run(month, months, b2, c2, r, pmt, e2);
      RunHead(month, months, b1, c1, r, pmt, e1);
      RunHead(month, months, b2, c2, r, pmt, e2);
      var after1, after2 := rows1[0].remainingBalance, rows2[0].remainingBalance;
      MonthCompare(b1, b2, r, pmt, e1, e2, rows1[0].interest, rows2[0].interest, after1, after2);
      var rest1 := Run(month + 1, months, after1, rows1[0].cumulativeInterest, r, pmt, e1);
      var rest2 := Run(month + 1, months, after2, rows2[0].cumulativeInterest, r, pmt, e2);
      if after2 > 0.0 {
        RunExtraCompare(month + 1, months, after1, after2, rows1[0].cumulativeInterest, rows2[0].cumulativeInterest,
                        r, pmt, e1, e2);
        TotalInterestPrepend(rows1[0], rest1);
        TotalInterestPrepend(rows2[0], rest2);
      } else {
        assert rows2 == [rows2[0]];
        TotalInterestOne(rows2[0]);
        if after1 > 0.0 {
          RunInterestNonNegative(month + 1, months, after1, rows1[0].cumulativeInterest, r, pmt, e1);
          TotalInterestPrepend(rows1[0], rest1);
        } else {
          assert rows1 == [rows1[0]];
          TotalInterestOne(rows1[0]);
        }
      }
    }
  }

  /**
   * At a non-negative monthly rate, raising the extra monthly payment never
   * lengthens the schedule and never raises the total interest, whatever the
   * principal and the level payment.
   */
  lemma LargerExtraPaysOffSooner(principal: real, r: real, pmt: real, e1: real, e2: real, months: nat)
    requires r >= 0.0 && e1 <= e2
    ensures |Schedule(principal, r, pmt, e2, months)| <= |Schedule(principal, r, pmt, e1, months)|
    ensures TotalInterest(Schedule(principal, r, pmt, e2, months)) <= TotalInterest(Schedule(principal, r, pmt, e1, months))
  {
    RunExtraCompare(1, months, principal, principal, 0.0, 0.0, r, pmt, e1, e2);
  }

  /**
   * At a non-negative monthly rate the Cumulative Interest column never
   * falls: each row's entry is the previous row's plus this month's
   * interest, which is non-negative because the month opened at a positive
   * balance.
   */
  lemma CumulativeInterestNonDecreasing(principal: real, r: real, pmt: real, extra: real, months: nat)
    requires r >= 0.0
    ensures var s := Schedule(principal, r, pmt, extra, months);
            forall k | 1 <= k < |s| ::
              s[k].interest >= 0.0 && s[k].cumulativeInterest == s[k - 1].cumulativeInterest + s[k].interest
  {
    var s := Schedule(principal, r, pmt, extra, months);
    ScheduleCumulativeInterest(principal, r, pmt, extra, months);
    forall k | 1 <= k < |s|
      ensures s[k].interest >= 0.0 && s[k].cumulativeInterest == s[k - 1].cumulativeInterest + s[k].interest
    {
      ScheduleRow(principal, r, pmt, extra, months, k);
      ScheduleRow(principal, r, pmt, extra, months, k - 1);
      MulMonotone(0.0, s[k - 1].remainingBalance, r);
      assert s[..k + 1][..k] == s[..k];
    }
  }
}
