/**
 * The closed-form part of the amortization engine: the monthly rate derived
 * from an annual percentage and the level payment of a fixed-rate loan (with the straight-line fallback
 * when the rate is not positive).
 *
 * Amounts are exact reals; the engine's floating-point rounding is not modelled.
 */
module Payment {

  /** The monthly rate for an annual rate given in percent: percent / 100 / 12. */
  function MonthlyRate(ratePercent: real): (r: real)
    ensures r * 1200.0 == ratePercent
    ensures r > 0.0 <==> ratePercent > 0.0
    ensures r == 0.0 <==> ratePercent == 0.0
  {
    (ratePercent / 100.0) / 12.0
  }

  /** x to the power n, by repeated multiplication (the engine's `**` on a whole exponent). */
  function Pow(x: real, n: nat): (p: real)
  {
    if n == 0 then 1.0 else x * Pow(x, n - 1)
  }

  lemma {:induction false} PowPositive(x: real, n: nat)
    requires x > 0.0
    ensures Pow(x, n) > 0.0
  {
    if n > 0 {
      PowPositive(x, n - 1);
      ProductPositive(x, Pow(x, n - 1), Pow(x, n));
    }
  }

  /** For a growth factor above one, the powers strictly increase. */
  lemma {:induction false} PowStrictlyIncreasing(x: real, k: nat, n: nat)
    requires x > 1.0
    requires k < n
    ensures Pow(x, k) < Pow(x, n)
  {
    PowPositive(x, n - 1);
    ProductGreater(x, Pow(x, n - 1), Pow(x, n));
    if k < n - 1 {
      PowStrictlyIncreasing(x, k, n - 1);
    }
  }

  /** A growth factor above one raised to a positive power stays above one. */
  lemma PowAboveOne(x: real, n: nat)
    requires x > 1.0
    requires n >= 1
    ensures Pow(x, n) > 1.0
  {
    PowStrictlyIncreasing(x, 0, n);
  }

  /**
   * The level monthly payment for `principal` over `months` periods at
   * monthly rate `r`: the annuity formula when r > 0, principal / months
   * otherwise. A zero month count divides by zero in the engine, so it is
   * excluded.
   */
  function BasePayment(principal: real, r: real, months: nat): (pmt: real)
    requires months >= 1
  {
    if r > 0.0 then
      PowAboveOne(1.0 + r, months);
      LevelPayment(principal, r, Pow(1.0 + r, months))
    else
      principal / (months as real)
  }

  /** The annuity payment principal * r * g / (g - 1), where g is the growth over the whole term. */
  function LevelPayment(principal: real, r: real, growth: real): (pmt: real)
    requires r > 0.0 && growth > 1.0
  {
    principal * r * growth / (growth - 1.0)
  }

  /**
   * What the base payment is: straight-line repayment (months payments of it
   * make up the principal) when the rate is not positive; otherwise, for a
   * positive principal, more than the first month's interest. A zero
   * principal has a zero payment, and a positive one a positive payment.
   */
  lemma BasePaymentShape(principal: real, r: real, months: nat)
    requires months >= 1
    ensures r <= 0.0 ==> BasePayment(principal, r, months) * (months as real) == principal
    ensures r > 0.0 && principal > 0.0 ==> BasePayment(principal, r, months) > principal * r
    ensures principal == 0.0 ==> BasePayment(principal, r, months) == 0.0
    ensures principal > 0.0 ==> BasePayment(principal, r, months) > 0.0
  {
    if r > 0.0 {
      PowAboveOne(1.0 + r, months);
      var growth := Pow(1.0 + r, months);
      if principal > 0.0 {
        AnnuityAboveInterest(principal * r, growth, growth - 1.0, LevelPayment(principal, r, growth));
      } else if principal == 0.0 {
        ZeroQuotient(principal * r * growth, growth - 1.0);
      }
    } else {
      QuotientTimesDivisor(principal, months as real, principal / (months as real));
      if principal > 0.0 {
        DivPositive(principal, months as real);
      }
    }
  }

  /**
   * A balance grown by one month's interest at rate r. Kept as a function of
   * its own so that one-month steps are stated without a product of two
   * closed forms.
   */
  function Accrue(balance: real, r: real): (grown: real)
  {
    balance * (1.0 + r)
  }

  /**
   * The balance owed after k level payments, in closed form:
   * principal * (g^n - g^k) / (g^n - 1) with g = 1 + r.
   */
  function ClosedBalance(principal: real, r: real, months: nat, k: nat): (owed: real)
    requires r > 0.0 && months >= 1
  {
    PowAboveOne(1.0 + r, months);
    Remaining(principal, Pow(1.0 + r, months), Pow(1.0 + r, k))
  }

  /** principal * (a - q) / (a - 1): the share of the principal still owed when growth q of the full growth a has elapsed. */
  function Remaining(principal: real, a: real, q: real): (owed: real)
    requires a > 1.0
  {
    principal * (a - q) / (a - 1.0)
  }

  /** Before any payment the closed-form balance is the principal, and after the last one it is zero. */
  lemma ClosedBalanceEnds(principal: real, r: real, months: nat)
    requires r > 0.0 && months >= 1
    ensures ClosedBalance(principal, r, months, 0) == principal
    ensures ClosedBalance(principal, r, months, months) == 0.0
  {
    PowAboveOne(1.0 + r, months);
    RemainingEnds(principal, Pow(1.0 + r, months));
  }

  /** A non-negative principal stays non-negative up to the last payment, and a positive one strictly positive before it. */
  lemma ClosedBalanceSign(principal: real, r: real, months: nat, k: nat)
    requires r > 0.0 && months >= 1
    requires k <= months
    ensures principal >= 0.0 ==> ClosedBalance(principal, r, months, k) >= 0.0
    ensures principal > 0.0 && k < months ==> ClosedBalance(principal, r, months, k) > 0.0
  {
    PowAboveOne(1.0 + r, months);
    if k < months {
      PowStrictlyIncreasing(1.0 + r, k, months);
    }
    RemainingSign(principal, Pow(1.0 + r, months), Pow(1.0 + r, k));
  }

  /** For a non-negative principal the closed-form balance never rises from one month to the next. */
  lemma ClosedBalanceDecreasing(principal: real, r: real, months: nat, k: nat)
    requires r > 0.0 && months >= 1
    requires principal >= 0.0
    ensures ClosedBalance(principal, r, months, k + 1) <= ClosedBalance(principal, r, months, k)
  {
    PowAboveOne(1.0 + r, months);
    PowStrictlyIncreasing(1.0 + r, k, k + 1);
    RemainingMonotone(principal, Pow(1.0 + r, months), Pow(1.0 + r, k), Pow(1.0 + r, k + 1));
  }

  /**
   * One month of the level-payment schedule: the closed-form balance grown by
   * one month's interest, less the level payment, is the next closed-form balance.
   */
  lemma ClosedBalanceStep(principal: real, r: real, months: nat, k: nat)
    requires r > 0.0 && months >= 1
    ensures Accrue(ClosedBalance(principal, r, months, k), r) - BasePayment(principal, r, months)
            == ClosedBalance(principal, r, months, k + 1)
  {
    StepInPowers(principal, r, months, k);
  }

  /** The same step with the closed forms written out in powers of the growth factor. */
  lemma StepInPowers(principal: real, r: real, months: nat, k: nat)
    requires r > 0.0 && months >= 1
    ensures Pow(1.0 + r, months) > 1.0
    ensures Accrue(Remaining(principal, Pow(1.0 + r, months), Pow(1.0 + r, k)), r)
              - LevelPayment(principal, r, Pow(1.0 + r, months))
            == Remaining(principal, Pow(1.0 + r, months), Pow(1.0 + r, k + 1))
  {
    PowAboveOne(1.0 + r, months);
    var a, q, q1 := Pow(1.0 + r, months), Pow(1.0 + r, k), Pow(1.0 + r, k + 1);
    assert q1 == (1.0 + r) * q;
    RemainingStep(principal, r, a, q, q1);
  }

  // Facts of real arithmetic, stated over plain variables (products and
  // quotients passed in by name) so that the solver meets them apart from
  // the definitions of Pow and of the functions above.

  lemma ProductPositive(x: real, y: real, p: real)
    requires x > 0.0 && y > 0.0 && p == x * y
    ensures p > 0.0
  {}

  lemma ProductGreater(x: real, y: real, p: real)
    requires x > 1.0 && y > 0.0 && p == x * y
    ensures y < p
  {}

  lemma MulMonotone(x: real, y: real, c: real)
    requires x <= y && c >= 0.0
    ensures x * c <= y * c
  {}

  lemma DivPositive(x: real, d: real)
    requires x > 0.0 && d > 0.0
    ensures x / d > 0.0
  {}

  lemma ZeroQuotient(x: real, d: real)
    requires x == 0.0 && d != 0.0
    ensures x / d == 0.0
  {}

  lemma QuotientTimesDivisor(x: real, d: real, q: real)
    requires d != 0.0 && q == x / d
    ensures q * d == x
  {}

  lemma AnnuityAboveInterest(x: real, a: real, d: real, pmt: real)
    requires x > 0.0 && d > 0.0 && d == a - 1.0 && pmt == x * a / d
    ensures pmt > x && pmt > 0.0
  {}

  lemma RemainingEnds(principal: real, a: real)
    requires a > 1.0
    ensures Remaining(principal, a, 1.0) == principal
    ensures Remaining(principal, a, a) == 0.0
  {
    var d := a - 1.0;
    assert principal * d / d == principal;
  }

  lemma RemainingSign(principal: real, a: real, q: real)
    requires a > 1.0 && q <= a
    ensures principal >= 0.0 ==> Remaining(principal, a, q) >= 0.0
    ensures principal > 0.0 && q < a ==> Remaining(principal, a, q) > 0.0
  {
    var diff, d := a - q, a - 1.0;
    assert Remaining(principal, a, q) == (principal * diff) / d;
    if principal > 0.0 && q < a {
      assert principal * diff > 0.0;
    } else if principal >= 0.0 {
      assert principal * diff >= 0.0;
    }
  }

  lemma RemainingMonotone(principal: real, a: real, q: real, q1: real)
    requires a > 1.0 && q <= q1 && principal >= 0.0
    ensures Remaining(principal, a, q1) <= Remaining(principal, a, q)
  {
    var d, n0, n1 := a - 1.0, principal * (a - q), principal * (a - q1);
    assert n1 <= n0;
    QuotientMonotone(n1, n0, d);
  }

  lemma QuotientMonotone(x: real, y: real, d: real)
    requires x <= y && d > 0.0
    ensures x / d <= y / d
  {}

  lemma RemainingStep(principal: real, r: real, a: real, q: real, q1: real)
    requires r > 0.0 && a > 1.0 && q1 == (1.0 + r) * q
    ensures Accrue(Remaining(principal, a, q), r) - LevelPayment(principal, r, a) == Remaining(principal, a, q1)
  {
    var d := a - 1.0;
    var n0, n1, y := principal * (a - q), principal * (a - q1), principal * r * a;
    AnnuityNumerator(principal, r, a, q, q1);
    QuotientStep(n0, y, 1.0 + r, d, n1);
  }

  lemma QuotientStep(x: real, y: real, g: real, d: real, z: real)
    requires d != 0.0 && x * g - y == z
    ensures (x / d) * g - y / d == z / d
  {}

  lemma AnnuityNumerator(principal: real, r: real, a: real, q: real, q1: real)
    requires q1 == (1.0 + r) * q
    ensures principal * (a - q) * (1.0 + r) - principal * r * a == principal * (a - q1)
  {}
}
