/**
 * The equal-monthly-instalment formula shared by the loan model, the
 * check-eligibility rules and the create-loan rules.
 *
 * With monthly rate r = rate / 1200 and growth g = 1 + r, the annuity
 * instalment is P * r * g^n / (g^n - 1); at rate 0 it is P / n.  Python
 * raises ZeroDivisionError when a divisor is zero (tenure 0, or g^n == 1),
 * and when 0.0 is raised to a negative power; `None` stands for that raise.
 */
module Emi {
  import opened Wrappers

  /** x^n for a natural exponent. */
  function Pow(x: real, n: nat): real
  {
    if n == 0 then 1.0 else x * Pow(x, n - 1)
  }

  /** Python's `x ** n` for a float base and an integer exponent. */
  function PowInt(x: real, n: int): (r: Option<real>)
    ensures n >= 0 ==> r == Some(Pow(x, n))
    ensures r.None? <==> n < 0 && x == 0.0
  {
    if n >= 0 then Some(Pow(x, n))
    else if x == 0.0 then None
    else
      PowNonZero(x, -n);
      Some(1.0 / Pow(x, -n))
  }

  lemma {:induction false} PowNonZero(x: real, n: nat)
    requires x != 0.0
    ensures Pow(x, n) != 0.0
  {
    if n > 0 {
      PowNonZero(x, n - 1);
    }
  }

  /** Monthly rate for an annual percentage. */
  function MonthlyRate(annualRatePercent: real): real
  {
    annualRatePercent / 1200.0
  }

  /**
   * The instalment before any rounding, as `r == 0` branch and annuity
   * branch compute it.
   */
  function ExactEmi(principal: real, annualRatePercent: real, tenure: int): (e: Option<real>)
    ensures tenure == 0 ==> e.None?
    ensures annualRatePercent == 0.0 && tenure != 0 ==> e == Some(principal / tenure as real)
    ensures annualRatePercent != 0.0 && e.Some? ==>
              PowInt(1.0 + MonthlyRate(annualRatePercent), tenure).Some?
              && PowInt(1.0 + MonthlyRate(annualRatePercent), tenure).value != 1.0
    ensures annualRatePercent != 0.0 && PowInt(1.0 + MonthlyRate(annualRatePercent), tenure).Some?
              && PowInt(1.0 + MonthlyRate(annualRatePercent), tenure).value != 1.0
            ==> e.Some?
  {
    var r := MonthlyRate(annualRatePercent);
    if r == 0.0 then
      if tenure == 0 then None else Some(principal / tenure as real)
    else
      match PowInt(1.0 + r, tenure)
      case None => None
      case Some(g) => if g - 1.0 == 0.0 then None else Some(AnnuityInstalment(principal, r, g))
  }

  /** P * r * g^n / (g^n - 1), given the monthly rate r and the growth G = g^n. */
  function AnnuityInstalment(principal: real, r: real, G: real): real
    requires G - 1.0 != 0.0
  {
    principal * r * G / (G - 1.0)
  }

  /** 1 + g + ... + g^(n-1), in Horner form. */
  function Annuity(g: real, n: nat): real
  {
    if n == 0 then 0.0 else 1.0 + g * Annuity(g, n - 1)
  }

  /** g^-1 + g^-2 + ... + g^-n: the present value of n unit payments. */
  ghost function Discount(g: real, n: nat): real
    requires g > 0.0
  {
    if n == 0 then 0.0
    else
      PowPositive(g, n);
      Discount(g, n - 1) + 1.0 / Pow(g, n)
  }

  lemma {:induction false} PowPositive(x: real, n: nat)
    requires x > 0.0
    ensures Pow(x, n) > 0.0
  {
    if n > 0 {
      PowPositive(x, n - 1);
    }
  }

  /** Above 1 the powers exceed 1; between 0 and 1 they fall below it. */
  lemma {:induction false} PowVersusOne(x: real, n: nat)
    requires x > 0.0 && n >= 1
    ensures x > 1.0 ==> Pow(x, n) > 1.0
    ensures x < 1.0 ==> Pow(x, n) < 1.0
  {
    if n > 1 {
      PowVersusOne(x, n - 1);
      PowPositive(x, n - 1);
    }
  }

  /** Powers of a larger positive base are larger. */
  lemma {:induction false} PowStrictlyIncreasing(x: real, y: real, n: nat)
    requires 0.0 < x < y && n >= 1
    ensures Pow(x, n) < Pow(y, n)
  {
    if n == 1 {
      assert Pow(x, 1) == x && Pow(y, 1) == y;
    } else {
      PowStrictlyIncreasing(x, y, n - 1);
      PowPositive(x, n - 1);
      var a, b := Pow(x, n - 1), Pow(y, n - 1);
      MultiplyStrict(a, x, y);
      MultiplyStrict(y, a, b);
      assert Pow(x, n) == x * a < y * a == a * y < y * b == Pow(y, n);
    }
  }

  lemma MultiplyStrict(c: real, a: real, b: real)
    requires c > 0.0 && a < b
    ensures c * a < c * b && a * c < b * c
  {
  }

  /** The telescoping identity g^n - 1 == (g - 1) * (1 + g + ... + g^(n-1)). */
  lemma {:induction false} PowMinusOne(g: real, n: nat)
    ensures Pow(g, n) - 1.0 == (g - 1.0) * Annuity(g, n)
  {
    if n > 0 {
      PowMinusOne(g, n - 1);
      calc {
        Pow(g, n) - 1.0;
        g * Pow(g, n - 1) - 1.0;
        g * (Pow(g, n - 1) - 1.0) + (g - 1.0);
        g * ((g - 1.0) * Annuity(g, n - 1)) + (g - 1.0);
        (g - 1.0) * (1.0 + g * Annuity(g, n - 1));
      }
    }
  }

  /** The annuity sum is g^n times the present value of n unit payments. */
  lemma {:induction false} AnnuityIsPowTimesDiscount(g: real, n: nat)
    requires g > 0.0
    ensures Annuity(g, n) == Pow(g, n) * Discount(g, n)
  {
    if n > 0 {
      AnnuityIsPowTimesDiscount(g, n - 1);
      PowPositive(g, n);
      var G, P, D := Pow(g, n), Pow(g, n - 1), Discount(g, n - 1);
      assert G == g * P;
      assert G * (1.0 / G) == 1.0;
      calc {
        G * Discount(g, n);
        G * (D + 1.0 / G);
        G * D + G * (1.0 / G);
        (g * P) * D + 1.0;
        g * (P * D) + 1.0;
        g * Annuity(g, n - 1) + 1.0;
      }
    }
  }

  lemma {:induction false} DiscountPositive(g: real, n: nat)
    requires g > 0.0 && n >= 1
    ensures Discount(g, n) > 0.0
  {
    PowPositive(g, n);
    if n > 1 {
      DiscountPositive(g, n - 1);
    }
  }

  /** The present value of n payments falls strictly as the growth rises. */
  lemma {:induction false} DiscountStrictlyDecreasing(g1: real, g2: real, n: nat)
    requires 0.0 < g1 < g2 && n >= 1
    ensures Discount(g2, n) < Discount(g1, n)
  {
    PowStrictlyIncreasing(g1, g2, n);
    PowPositive(g1, n);
    assert 1.0 / Pow(g2, n) < 1.0 / Pow(g1, n);
    if n > 1 {
      DiscountStrictlyDecreasing(g1, g2, n - 1);
    }
  }

  /** Above zero interest, each discounted payment is worth less than 1. */
  lemma {:induction false} DiscountBelowCount(g: real, n: nat)
    requires g > 1.0 && n >= 1
    ensures Discount(g, n) < n as real
  {
    PowVersusOne(g, n);
    assert 1.0 / Pow(g, n) < 1.0;
    if n > 1 {
      DiscountBelowCount(g, n - 1);
    }
  }

  /**
   * For a positive tenure and a rate above -1200 % the instalment exists,
   * and both branches agree with one formula: the principal divided by the
   * present value of the n payments.  At zero rate that present value is n.
   */
  lemma ExactEmiIsPrincipalOverDiscount(principal: real, annualRatePercent: real, tenure: int)
    requires tenure >= 1 && annualRatePercent > -1200.0
    ensures Discount(1.0 + MonthlyRate(annualRatePercent), tenure) > 0.0
    ensures ExactEmi(principal, annualRatePercent, tenure)
            == Some(principal / Discount(1.0 + MonthlyRate(annualRatePercent), tenure))
  {
    var r := MonthlyRate(annualRatePercent);
    DiscountPositive(1.0 + r, tenure);
    if r == 0.0 {
      ZeroRateDiscount(tenure);
    } else {
      AnnuityBranch(principal, r, 1.0 + r, tenure);
      var G := Pow(1.0 + r, tenure);
      assert PowInt(1.0 + r, tenure) == Some(G);
      assert ExactEmi(principal, annualRatePercent, tenure) == Some(AnnuityInstalment(principal, r, G));
    }
  }

  lemma ZeroRateDiscount(n: nat)
    requires n >= 1
    ensures Discount(1.0, n) == n as real
  {
    AnnuityIsPowTimesDiscount(1.0, n);
    AnnuityOfOne(n);
    PowOfOne(n);
  }

  lemma AnnuityBranch(principal: real, r: real, g: real, n: nat)
    requires r != 0.0 && r > -1.0 && g == 1.0 + r && n >= 1
    ensures Discount(g, n) > 0.0
    ensures Pow(g, n) - 1.0 != 0.0
    ensures AnnuityInstalment(principal, r, Pow(g, n)) == principal / Discount(g, n)
  {
    var G, D, A := Pow(g, n), Discount(g, n), Annuity(g, n);
    DiscountPositive(g, n);
    AnnuityIsPowTimesDiscount(g, n);
    PowPositive(g, n);
    PowMinusOne(g, n);
    assert g - 1.0 == r;
    AnnuityAlgebra(principal, r, G, D, A);
  }

  /** The algebra of the annuity branch, on plain numbers. */
  lemma AnnuityAlgebra(p: real, r: real, G: real, D: real, A: real)
    requires r != 0.0 && G > 0.0 && D > 0.0
    requires G - 1.0 == r * A && A == G * D
    ensures G - 1.0 != 0.0
    ensures AnnuityInstalment(p, r, G) == p / D
  {
    var k := r * G;
    NonZeroProduct(r, G);
    assert G - 1.0 == k * D;
    NonZeroProduct(k, D);
    var q := p / D;
    assert q * D == p;
    assert q * (k * D) == (q * D) * k;
    assert p * r * G == p * k;
    DivideByProduct(p * k, k * D, q);
  }

  lemma NonZeroProduct(a: real, b: real)
    requires a != 0.0 && b != 0.0
    ensures a * b != 0.0
  {
  }

  /** A positive amount shared among more is a smaller share. */
  lemma DivideByLarger(p: real, a: real, b: real)
    requires p > 0.0 && 0.0 < a < b
    ensures p / b < p / a
  {
    var x, y := p / a, p / b;
    assert x * a == p && y * b == p;
    assert y > 0.0;
    MultiplyStrict(y, a, b);
    assert y * a < x * a;
    CancelPositiveFactor(a, y, x);
  }

  lemma CancelPositiveFactor(c: real, a: real, b: real)
    requires c > 0.0 && a * c < b * c
    ensures a < b
  {
  }

  lemma DivideByProduct(x: real, y: real, q: real)
    requires y != 0.0 && q * y == x
    ensures x / y == q
  {
  }

  lemma {:induction false} PowOfOne(n: nat)
    ensures Pow(1.0, n) == 1.0
  {
    if n > 0 { PowOfOne(n - 1); }
  }

  lemma {:induction false} AnnuityOfOne(n: nat)
    ensures Annuity(1.0, n) == n as real
  {
    if n > 0 { AnnuityOfOne(n - 1); }
  }

  /** A zero tenure always raises: both branches divide by zero. */
  lemma ZeroTenureRaises(principal: real, annualRatePercent: real)
    ensures ExactEmi(principal, annualRatePercent, 0).None?
  {
  }

  /** At zero interest the instalment is the unrounded principal / tenure. */
  lemma ZeroRateEmi(principal: real, tenure: int)
    requires tenure != 0
    ensures ExactEmi(principal, 0.0, tenure) == Some(principal / tenure as real)
  {
  }

  /** The instalment rises strictly with the rate, across zero included. */
  lemma ExactEmiStrictlyIncreasingInRate(principal: real, rate1: real, rate2: real, tenure: int)
    requires principal > 0.0 && tenure >= 1 && -1200.0 < rate1 < rate2
    ensures ExactEmi(principal, rate1, tenure).Some? && ExactEmi(principal, rate2, tenure).Some?
    ensures ExactEmi(principal, rate1, tenure).value < ExactEmi(principal, rate2, tenure).value
  {
    var g1, g2 := 1.0 + MonthlyRate(rate1), 1.0 + MonthlyRate(rate2);
    ExactEmiIsPrincipalOverDiscount(principal, rate1, tenure);
    ExactEmiIsPrincipalOverDiscount(principal, rate2, tenure);
    DiscountStrictlyDecreasing(g1, g2, tenure);
    var d1, d2 := Discount(g1, tenure), Discount(g2, tenure);
    DivideByLarger(principal, d2, d1);
  }

  /**
   * With positive interest the instalment exceeds the interest-free share
   * principal / tenure, so the tenure's payments exceed the principal.
   */
  lemma ExactEmiAboveInterestFreeShare(principal: real, annualRatePercent: real, tenure: int)
    requires principal > 0.0 && annualRatePercent > 0.0 && tenure >= 1
    ensures ExactEmi(principal, annualRatePercent, tenure).Some?
    ensures ExactEmi(principal, annualRatePercent, tenure).value > principal / tenure as real
  {
    var g := 1.0 + MonthlyRate(annualRatePercent);
    ExactEmiIsPrincipalOverDiscount(principal, annualRatePercent, tenure);
    DiscountBelowCount(g, tenure);
    var d := Discount(g, tenure);
    DivideByLarger(principal, d, tenure as real);
  }
}
