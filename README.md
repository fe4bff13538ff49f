# Mortgage amortization engine

A Dafny model of the financial core of the mortgage calculator,
`get_amortization(principal, rate, years, extra)`. The function:

1. turns the annual percentage rate into a monthly rate;
2. computes the level monthly payment (the annuity formula at a positive
   rate, principal / months otherwise);
3. runs a month loop that charges interest on the running balance and pays
   principal `min(balance, (base_pmt - interest) + extra)`;
4. accumulates the interest and appends one ledger row per month, with the
   remaining balance clamped at zero for display;
5. breaks out once the balance is no longer positive.

The model has four modules:

- `Payment` (payment.dfy): the monthly rate, the level payment and the
  closed-form balance of a level-payment loan, with the algebra relating them.
- `Amortization` (amortization.dfy): the ledger row, the month loop as a
  recursive specification (`Run`, `Schedule`), and the engine itself as
  imperative code (`GetAmortization` calling the `for` loop `Amortize`, with
  its `break`). Each is proved to build exactly `Schedule`. The ledger's
  invariants are proved as lemmas over `Schedule`.
- `Prepayment` (prepayment.dfy): the effect of the extra monthly payment.
  At a non-negative rate a larger extra payment never lengthens the schedule
  and never raises the total interest, and the Cumulative Interest column
  never falls.
- `Payoff` (payoff.dfy): what the schedule achieves over the whole term.
  With no extra payment, the level payment retires a loan at a positive rate
  in exactly the term. For a non-negative principal and extra payment, at any
  rate:
  - no month pays negative principal;
  - no month raises the balance;
  - the last row leaves exactly zero owing.

Amounts are exact reals.

### Behaviour the code does not have

- The code has no lower clamp on the principal paid each month: it caps
  principal only from above, at the balance, and so does the model.
  `Payoff.PaidOffWithinTerm` proves that the missing lower clamp never matters
  when the principal and the extra payment are non-negative, whatever the
  rate. `Amortization.ScheduleBalanceNonIncreasing` states exactly when a
  month raises the balance: when it opens at a negative balance, or when its
  uncapped principal (level payment less interest plus extra) is negative.
- The code validates no input:
  - a negative rate takes the straight-line branch;
  - a negative extra payment is used as it is;
  - a zero month count divides by zero, so the model requires `years >= 1`.
- A non-positive principal is not special-cased. For a zero principal and a
  non-negative extra payment the code emits exactly one all-zero row
  (`Amortization.ZeroPrincipalOneRow`). A negative extra payment, or a
  negative principal, takes the ordinary path through the loop.

## Model

| member | source | states |
|---|---|---|
| Payment.MonthlyRate | mortgagemaster.py:56 | the monthly rate is the annual percentage divided by 1200; it is positive exactly when the annual rate is, and zero exactly when the annual rate is |
| Payment.Pow | mortgagemaster.py:60 | no contract of its own: `(1 + monthly_rate)**months` by repeated multiplication; PowPositive, PowStrictlyIncreasing and PowAboveOne state what it is |
| Payment.BasePayment | mortgagemaster.py:59-62 | no contract of its own: the base payment, annuity formula at a positive rate and principal / months otherwise; BasePaymentShape, ClosedBalanceStep and Payoff.LevelPaymentRetiresLoan state what it is |
| Payment.LevelPayment | mortgagemaster.py:60 | no contract of its own: the annuity expression principal * r * g / (g - 1); BasePaymentShape and ClosedBalanceStep state what it is |
| Payment.PowStrictlyIncreasing | mortgagemaster.py:60 | powers of a growth factor above one strictly increase, so (1 + r)^months > 1 and the annuity formula never divides by zero |
| Payment.BasePaymentShape | mortgagemaster.py:59-62 | at a rate that is not positive, months payments of the base payment make up the principal; at a positive rate it exceeds the first month's interest on a positive principal; it is zero for a zero principal and positive for a positive one |
| Payment.ClosedBalanceEnds | mortgagemaster.py:60 | the closed-form balance of the annuity is the principal before any payment and zero after the last |
| Payment.ClosedBalanceSign | mortgagemaster.py:60 | the closed-form balance is non-negative through the term for a non-negative principal, and positive before the last payment for a positive one |
| Payment.ClosedBalanceDecreasing | mortgagemaster.py:60 | for a non-negative principal at a positive rate, the closed-form balance never rises from one month to the next |
| Payment.ClosedBalanceStep | mortgagemaster.py:60-72 | the closed-form balance after k payments, grown by one month's interest, less the base payment, is the closed-form balance after k + 1 payments |
| Amortization.Min | mortgagemaster.py:71 | the result is at most both arguments and equals one of them |
| Amortization.Max | mortgagemaster.py:80 | the result is at least both arguments and equals one of them |
| Amortization.PrincipalPaid | mortgagemaster.py:71 | the principal paid is the smaller of the opening balance and the base payment less interest plus the extra: at most each, and equal to one of them |
| Amortization.Record | mortgagemaster.py:75-82 | no contract of its own: one row dictionary, with the fields Month, Payment, Principal, Interest, Remaining Balance and Cumulative Interest |
| Amortization.Closing | mortgagemaster.py:71-72 | the balance a month closes with is the opening balance less the uncapped principal, floored at zero |
| Amortization.MonthRecord | mortgagemaster.py:69-82 | no contract of its own: the row one month appends; MonthRecordFacts and RunHead state what it is |
| Amortization.Run | mortgagemaster.py:68-83 | the month loop from a given month emits nothing past the last month, and otherwise between one row and one row per remaining month |
| Amortization.LoopBody | mortgagemaster.py:69-83 | one pass of the loop body appends Run's first row; the loop stops there when the new balance is not positive, and otherwise continues as Run from the next month with the new balance and interest total |
| Amortization.MonthRecordFacts | mortgagemaster.py:69-82 | a month's row: interest is the opening balance times the rate; principal is the capped amount; payment is principal plus interest; the remaining balance is the opening balance less principal and is never negative; the cumulative interest grows by this month's interest; a positive remaining balance means the uncapped principal was paid |
| Amortization.RunHead | mortgagemaster.py:69-83 | the first row of a run in terms of its own fields, and that the run ends there exactly when its remaining balance is zero and otherwise continues from that balance |
| Amortization.RunRow | mortgagemaster.py:68-83 | row k of a run is month month + k, the record of a month opened at the previous row's remaining balance; every row but the last leaves a positive balance |
| Amortization.RunCumulative | mortgagemaster.py:73-81 | each row's cumulative interest is the interest carried in plus the Interest column summed up to that row |
| Amortization.RunStopsAtZero | mortgagemaster.py:83 | a run that ends before its last month ends on a row whose remaining balance is exactly zero |
| Amortization.Schedule | mortgagemaster.py:64-83 | no contract of its own: the loop started at month 1 with the principal as balance and no interest yet; the Schedule lemmas below, Amortization.Amortize and Payoff.PaidOffWithinTerm state what it is |
| Amortization.TotalInterest | mortgagemaster.py:73-85 | no contract of its own: the sum of the Interest column; ScheduleCumulativeInterest and Amortization.GetAmortization state that it is the returned total |
| Amortization.ScheduleRow | mortgagemaster.py:68-83 | row k of the ledger is month k + 1, with interest, principal, payment and remaining balance computed from the balance the month opened with; every row before the last leaves a positive balance and paid the uncapped principal |
| Amortization.ScheduleMonthsConsecutive | mortgagemaster.py:68-76 | the ledger has between one and months rows, numbered 1, 2, ... without gaps |
| Amortization.SchedulePaymentSplit | mortgagemaster.py:69-79 | every row's interest is its opening balance times the monthly rate, and its payment is principal plus interest |
| Amortization.ScheduleBalanceNonNegative | mortgagemaster.py:71-80 | every remaining balance is non-negative and equals the opening balance less the principal paid, so the display clamp never changes a value |
| Amortization.ScheduleStopsAtPayoff | mortgagemaster.py:71-83 | every row but the last leaves a positive balance and pays the uncapped principal; a ledger shorter than the term ends at exactly zero |
| Amortization.ScheduleCumulativeInterest | mortgagemaster.py:66-81 | each row's cumulative interest is the sum of the Interest column up to that row, and the last row's is the total interest |
| Amortization.ScheduleBalanceNonIncreasing | mortgagemaster.py:69-72 | a month leaves the balance no higher than it opened if and only if it opened at a non-negative balance and its uncapped principal is non-negative; such a month pays non-negative principal |
| Amortization.ZeroRateNoInterest | mortgagemaster.py:56-73 | at a zero rate every row's interest is zero and so is the total interest |
| Amortization.ZeroPrincipalOneRow | mortgagemaster.py:59-83 | a zero principal with a non-negative extra payment yields exactly one all-zero row for month 1 |
| Amortization.GetAmortization | mortgagemaster.py:55-85 | returns the base payment for the monthly rate and years * 12 months, the ledger Schedule, between one and years * 12 rows, and a total interest equal both to the sum of the Interest column and to the last row's cumulative interest |
| Amortization.Amortize | mortgagemaster.py:64-83 | the loop with its break builds exactly the ledger Schedule, of one to months rows, and its interest total is the last row's cumulative interest |
| Payoff.LevelBalanceEnds | mortgagemaster.py:59-62 | the balance the level payment alone leaves is the principal before any payment and zero after the last payment, at any rate |
| Payoff.LevelBalanceStepsDown | mortgagemaster.py:59-72 | for a non-negative principal, one month's interest and base payment take the level balance after k payments to the one after k + 1, which is non-negative and no larger |
| Payoff.LevelPaymentRetiresLoan | mortgagemaster.py:59-83 | at a positive rate with a positive principal and no extra payment, the ledger runs the full term; every payment is the base payment; the balance after each month is the closed-form balance, positive before the last month and zero after it |
| Payoff.RunAlongBounds | mortgagemaster.py:68-83 | a run opened on a sequence of balances that the level payment steps down exactly pays the level payment every month, closes on each balance in turn, and lasts to the end of the term |
| Payoff.PaidOffWithinTerm | mortgagemaster.py:55-83 | for a non-negative principal and extra payment at any rate, every month pays non-negative principal, no month raises the balance, and the last row leaves exactly zero owing |
| Payoff.RunWithinBounds | mortgagemaster.py:68-83 | a run opened between zero and a level balance pays non-negative principal every month and never raises the balance |
| Payoff.RunEndsAtZero | mortgagemaster.py:68-83 | a run opened between zero and a level balance ends at exactly zero owing |
| Payoff.MonthWithinBound | mortgagemaster.py:69-72 | a month opened between zero and a level balance pays non-negative principal and closes at or below the next level balance |
| Prepayment.MonthCompare | mortgagemaster.py:69-72 | at a non-negative rate, a month opened at a balance no larger and paying an extra no smaller charges no more interest and closes at a balance no larger |
| Prepayment.RunInterestNonNegative | mortgagemaster.py:68-83 | at a non-negative rate, a run opened at a non-negative balance charges non-negative interest in total |
| Prepayment.RunExtraCompare | mortgagemaster.py:68-83 | at a non-negative rate, a run opened at a balance no larger and paying an extra no smaller has no more rows and no more total interest |
| Prepayment.LargerExtraPaysOffSooner | mortgagemaster.py:55-83 | at a non-negative rate, for any principal and level payment, a larger extra monthly payment never lengthens the schedule and never raises the total interest |
| Prepayment.CumulativeInterestNonDecreasing | mortgagemaster.py:73-81 | at a non-negative rate, every row after the first charges non-negative interest, and its cumulative interest is the previous row's plus that interest, so the column never falls |

## Left out

- The Streamlit page is not modelled: styling, sidebar controls, metric cards, charts and the footer (mortgagemaster.py:1-52 and 87-end). It is presentation and I/O only.
- The pandas DataFrame is modelled as a sequence of `Amortization.Record` values, one per appended dictionary.
- Floating-point arithmetic is not modelled; amounts are exact reals. In IEEE doubles the final balance may be a tiny non-zero residue, so the loan may not close exactly at month `months`. The results of `Payoff` hold for exact arithmetic only.
- `int(years * 12)` truncation is not modelled: `years` is a natural number, as the term input supplies whole years, so the product is already whole.
- A zero term is not modelled: the engine divides by zero there (principal / 0), so `Amortization.GetAmortization` and `Payment.BasePayment` require at least one month.
- The default value `extra=0` is not modelled: `extra` is always passed explicitly.
- Input validation and a lower clamp on principal paid are not modelled, because the code has neither (see above).
