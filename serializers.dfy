/**
 * Registration checks and the customer record a registration creates,
 * and the approval flag shown for a loan.
 */
module Serializers {
  import opened Wrappers
  import opened Rounding
  import opened Models

  // ---------------------------------------------------------------------
  // Decimal rendering of integers, as Python's str(int)
  // ---------------------------------------------------------------------

  function DigitChar(d: int): (c: char)
    requires 0 <= d <= 9
    ensures '0' <= c <= '9'
  {
    "0123456789"[d]
  }

  /** Decimal digits of `n`, without leading zeros. */
  function NatToString(n: nat): (s: string)
    ensures |s| >= 1
    ensures forall i :: 0 <= i < |s| ==> '0' <= s[i] <= '9'
    ensures |s| > 1 ==> s[0] != '0'
  {
    if n < 10 then [DigitChar(n)] else NatToString(n / 10) + [DigitChar(n % 10)]
  }

  function IntToString(v: int): string
  {
    if v < 0 then "-" + NatToString(-v) else NatToString(v)
  }

  /** `str.isdigit` on ASCII text: non-empty and only digits. */
  predicate IsDigits(s: string)
  {
    |s| > 0 && forall i :: 0 <= i < |s| ==> '0' <= s[i] <= '9'
  }

  function Pow10(k: nat): (p: nat)
    ensures p >= 1
  {
    if k == 0 then 1 else 10 * Pow10(k - 1)
  }

  lemma DivTen(n: nat, m: nat)
    ensures n / 10 < m <==> n < 10 * m
  {
  }

  /** `n` has at most `k` digits exactly when it is below 10^k. */
  lemma {:induction false} DigitCount(n: nat, k: nat)
    requires k >= 1
    ensures |NatToString(n)| <= k <==> n < Pow10(k)
  {
    if n >= 10 {
      if k == 1 {
        assert |NatToString(n)| == |NatToString(n / 10)| + 1 >= 2;
      } else {
        DigitCount(n / 10, k - 1);
        DivTen(n, Pow10(k - 1));
      }
    } else {
      assert Pow10(k) == 10 * Pow10(k - 1);
    }
  }

  /** The phone-number format check: all digits and exactly ten characters. */
  predicate PhoneWellFormed(v: int)
  {
    IsDigits(IntToString(v)) && |IntToString(v)| == 10
  }

  /** An integer passes the format check exactly when it has ten digits. */
  lemma PhoneWellFormedIffTenDigits(v: int)
    ensures PhoneWellFormed(v) <==> 1000000000 <= v <= 9999999999
  {
    if v < 0 {
      assert IntToString(v)[0] == '-';
    } else {
      DigitCount(v, 10);
      DigitCount(v, 9);
      assert Pow10(9) == 1000000000;
      assert Pow10(10) == 10000000000;
    }
  }

  // ---------------------------------------------------------------------
  // CustomerRegisterSerializer
  // ---------------------------------------------------------------------

  datatype RegisterRequest = RegisterRequest(
    firstName: string,
    lastName: string,
    age: int,
    monthlyIncome: int,
    phoneNumber: int)

  datatype FieldError = FieldError(field: string, message: string)

  function ValidateAge(age: int): (e: Option<string>)
    ensures e.None? <==> age > 0
  {
    if age <= 0 then Some("Age must be greater than 0.") else None
  }

  function ValidateMonthlyIncome(income: int): (e: Option<string>)
    ensures e.None? <==> income > 0
  {
    if income <= 0 then Some("Monthly income must be greater than 0.") else None
  }

  predicate PhoneTaken(customers: seq<Customer>, v: int)
  {
    exists i :: 0 <= i < |customers| && customers[i].phoneNumber == v
  }

  /** The format is checked first; a well-formed number must also be unused. */
  function ValidatePhoneNumber(customers: seq<Customer>, v: int): (e: Option<string>)
    ensures e.None? <==> (1000000000 <= v <= 9999999999 && !PhoneTaken(customers, v))
    ensures !(1000000000 <= v <= 9999999999) ==> e == Some("Phone number must be a valid 10-digit number.")
  {
    PhoneWellFormedIffTenDigits(v);
    if !PhoneWellFormed(v) then Some("Phone number must be a valid 10-digit number.")
    else if PhoneTaken(customers, v) then Some("Phone number already exists.")
    else None
  }

  function ErrorFor(field: string, e: Option<string>): (errs: seq<FieldError>)
    ensures |errs| <= 1 && (|errs| == 0 <==> e.None?)
    ensures forall i :: 0 <= i < |errs| ==> errs[i].field == field
  {
    if e.Some? then [FieldError(field, e.value)] else []
  }

  predicate RegistrationValid(customers: seq<Customer>, req: RegisterRequest)
  {
    req.age > 0 && req.monthlyIncome > 0
    && 1000000000 <= req.phoneNumber <= 9999999999 && !PhoneTaken(customers, req.phoneNumber)
  }

  /** Every failing field check, in field order; empty exactly when the request is valid. */
  function RegistrationErrors(customers: seq<Customer>, req: RegisterRequest): (errs: seq<FieldError>)
    ensures |errs| == 0 <==> RegistrationValid(customers, req)
    ensures |errs| <= 3
  {
    ErrorFor("age", ValidateAge(req.age))
    + ErrorFor("monthly_income", ValidateMonthlyIncome(req.monthlyIncome))
    + ErrorFor("phone_number", ValidatePhoneNumber(customers, req.phoneNumber))
  }

  /** The three request fields that registration validates. */
  predicate KnownField(f: string)
  {
    f == "age" || f == "monthly_income" || f == "phone_number"
  }

  /** Every reported error names one of the validated fields. */
  lemma RegistrationErrorFields(customers: seq<Customer>, req: RegisterRequest)
    ensures forall e: FieldError <- RegistrationErrors(customers, req) :: KnownField(e.field)
  {
    var age := ErrorFor("age", ValidateAge(req.age));
    var income := ErrorFor("monthly_income", ValidateMonthlyIncome(req.monthlyIncome));
    var phone := ErrorFor("phone_number", ValidatePhoneNumber(customers, req.phoneNumber));
    forall e: FieldError <- age + income + phone ensures KnownField(e.field) {
      if e in age {
        assert e.field == "age";
      } else if e in income {
        assert e.field == "monthly_income";
      } else {
        assert e in phone;
        assert e.field == "phone_number";
      }
    }
  }

  /**
   * `create`: the customer inserted for a valid request, with the salary
   * taken from the declared income and the limit derived from it; the
   * model's own save then leaves the record as it is.
   */
  function CreateCustomer(req: RegisterRequest, customerId: int): (c: Customer)
    ensures c.customerId == customerId
    ensures c.firstName == req.firstName && c.lastName == req.lastName
    ensures c.age == req.age && c.phoneNumber == req.phoneNumber
    ensures c.monthlySalary == req.monthlyIncome as real
    ensures c.approvedLimit == ApprovedLimitFor(req.monthlyIncome as real)
    ensures WholeLakhs(c.approvedLimit)
    ensures c.currentDebt == 0.0
    ensures SaveCustomer(c) == c
  {
    var inserted := Customer(customerId, req.firstName, req.lastName, req.age, req.phoneNumber,
                             req.monthlyIncome as real, ApprovedLimitFor(req.monthlyIncome as real), 0.0);
    SaveCustomer(inserted)
  }

  /** The worked example: an income of 50000 gives a limit of 18 lakh. */
  lemma CreateCustomerExample(req: RegisterRequest, customerId: int)
    requires req.monthlyIncome == 50000
    ensures CreateCustomer(req, customerId).approvedLimit == 1800000.0
  {
    ApprovedLimitExamples();
  }

  // ---------------------------------------------------------------------
  // LoanEligibilityRequestSerializer: the precision of a DecimalField
  // ---------------------------------------------------------------------

  /**
   * A `decimal.Decimal` as `as_tuple()` shows it: the coefficient with its
   * sign, and the power-of-ten exponent.  `12.30` is `Dec(1230, -2)` and
   * `100000` is `Dec(100000, 0)`.
   */
  datatype Dec = Dec(coefficient: int, exponent: int)

  function TenTo(k: nat): (p: real)
    ensures p >= 1.0
  {
    if k == 0 then 1.0 else 10.0 * TenTo(k - 1)
  }

  /** The number the decimal stands for. */
  function DecValue(d: Dec): real
  {
    if d.exponent >= 0 then d.coefficient as real * TenTo(d.exponent)
    else d.coefficient as real / TenTo(-d.exponent)
  }

  /** Number of digits in the coefficient; `0` has the one digit `0`. */
  function DigitsOf(d: Dec): nat
  {
    |NatToString(if d.coefficient < 0 then -d.coefficient else d.coefficient)|
  }

  /** The three counts a DecimalField checks: digits in total, after the point and before it. */
  datatype Precision = Precision(total: int, places: int, whole: int)

  function PrecisionOf(d: Dec): (p: Precision)
    ensures p.total == p.whole + p.places
    ensures p.places == (if d.exponent >= 0 then 0 else -d.exponent)
    ensures p.whole >= 0
  {
    if d.exponent >= 0 then
      Precision(DigitsOf(d) + d.exponent, 0, DigitsOf(d) + d.exponent)
    else if DigitsOf(d) > -d.exponent then
      Precision(DigitsOf(d), -d.exponent, DigitsOf(d) + d.exponent)
    else
      Precision(-d.exponent, -d.exponent, 0)
  }

  /**
   * `DecimalField(max_digits, decimal_places)` on a number: too many digits
   * in total, then too many decimal places, then too many digits before the
   * point, the first failing check giving the message.
   */
  function DecimalFieldError(d: Dec, maxDigits: nat, decimalPlaces: nat): (e: Option<string>)
    ensures e.None? <==>
              PrecisionOf(d).places <= decimalPlaces && PrecisionOf(d).whole <= maxDigits - decimalPlaces
  {
    var p := PrecisionOf(d);
    if p.total > maxDigits then
      Some("Ensure that there are no more than " + NatToString(maxDigits) + " digits in total.")
    else if p.places > decimalPlaces then
      Some("Ensure that there are no more than " + NatToString(decimalPlaces) + " decimal places.")
    else if p.whole > maxDigits - decimalPlaces then
      Some("Ensure that there are no more than " + IntToString(maxDigits - decimalPlaces)
           + " digits before the decimal point.")
    else None
  }

  /**
   * A decimal written with `k` places, `k` at most the field's, passes
   * exactly when its coefficient is below 10^(maxDigits - decimalPlaces + k)
   * in absolute value, that is when the number itself is below
   * 10^(maxDigits - decimalPlaces).
   */
  lemma DecimalFieldAcceptsBelowBound(c: int, k: nat, maxDigits: nat, decimalPlaces: nat)
    requires decimalPlaces < maxDigits && k <= decimalPlaces
    ensures DecimalFieldError(Dec(c, -(k as int)), maxDigits, decimalPlaces).None? <==>
              -(Pow10(maxDigits - decimalPlaces + k) as int) < c < Pow10(maxDigits - decimalPlaces + k)
  {
    var a: nat := if c < 0 then -c else c;
    var bound := maxDigits - decimalPlaces + k;
    DigitCount(a, bound);
    if a < Pow10(k) && k >= 1 {
      DigitCount(a, k);
      Pow10Monotone(k, bound);
    }
  }

  lemma {:induction false} Pow10Monotone(i: nat, j: nat)
    requires i <= j
    ensures Pow10(i) <= Pow10(j)
  {
    if i < j {
      Pow10Monotone(i, j - 1);
    }
  }

  /**
   * The request limits: a loan amount has at most 12 digits with 2 places,
   * a rate at most 5 with 2 places.  12.345 % and 1000 % fail as rates,
   * 10^10 fails as an amount, while 12.50 % and an amount of 100000 pass.
   */
  lemma RequestPrecisionExamples()
    ensures DecimalFieldError(Dec(12345, -3), 5, 2).Some?
    ensures DecimalFieldError(Dec(1000, 0), 5, 2).Some?
    ensures DecimalFieldError(Dec(10000000000, 0), 12, 2).Some?
    ensures DecimalFieldError(Dec(1250, -2), 5, 2).None?
    ensures DecimalFieldError(Dec(100000, 0), 12, 2).None?
  {
    DecimalFieldAcceptsBelowBound(1000, 0, 5, 2);
    DecimalFieldAcceptsBelowBound(10000000000, 0, 12, 2);
    DecimalFieldAcceptsBelowBound(1250, 2, 5, 2);
    DecimalFieldAcceptsBelowBound(100000, 0, 12, 2);
    assert Pow10(3) == 1000;
    assert Pow10(5) == 100000;
    assert Pow10(10) == 10000000000;
  }

  // ---------------------------------------------------------------------
  // LoanEligibilityResponseSerializer: rendering the instalment
  // ---------------------------------------------------------------------

  /**
   * `monthly_installment` of the eligibility answer, a
   * `DecimalField(max_digits=12, decimal_places=2)`: rendering quantizes the
   * value to paise, half to even, in a 12-digit context, and fails
   * (InvalidOperation) when the quantized coefficient needs more than 12
   * digits.  The two rate fields of the answer cannot fail this way: they
   * are the accepted request rate or a tier rate of 12.1 or 16.1.
   */
  function QuantizeInstalment(emi: real): (q: Option<Dec>)
    ensures q.Some? <==> -TenTo(10) < Round2(emi) < TenTo(10)
    ensures q.Some? ==> DecValue(q.value) == Round2(emi)
  {
    var d := Dec(RoundHalfEven(emi * 100.0), -2);
    PaiseWithinTwelveDigits(d.coefficient);
    assert TenTo(10) == 10000000000.0;
    if PrecisionOf(d).total <= 12 then Some(d) else None
  }

  /** A number of paise fits twelve digits exactly when it is below 10^10 rupees in absolute value. */
  lemma PaiseWithinTwelveDigits(c: int)
    ensures PrecisionOf(Dec(c, -2)).total <= 12 <==> -10000000000.0 < c as real / 100.0 < 10000000000.0
    ensures DecValue(Dec(c, -2)) == c as real / 100.0
  {
    DecimalFieldAcceptsBelowBound(c, 2, 12, 2);
    assert Pow10(12) == 1000000000000;
    assert TenTo(2) == 100.0;
  }

  // ---------------------------------------------------------------------
  // LoanViewSerializer
  // ---------------------------------------------------------------------

  /** A loan counts as approved when its application exists and is approved. */
  function GetIsApproved(application: Option<LoanApplication>): (approved: bool)
    ensures approved <==> application.Some? && application.value.status == Approved
  {
    match application
    case Some(a) => a.status == Approved
    case None => false
  }
}
