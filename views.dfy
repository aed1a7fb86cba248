/**
 * The HTTP endpoints over a store of customers, loans and applications:
 * registration, the eligibility check, loan creation with its own gate
 * cascade, and the two loan views.
 */
module Views {
  import opened Wrappers
  import opened Rounding
  import opened Emi
  import opened Calendar
  import opened Models
  import opened Eligibility
  import opened Serializers

  // ---------------------------------------------------------------------
  // Lookups
  // ---------------------------------------------------------------------

  predicate CustomerExists(cs: seq<Customer>, id: int)
  {
    exists i :: 0 <= i < |cs| && cs[i].customerId == id
  }

  /** `Customer.objects.get(customer_id=id)`. */
  function FindCustomer(cs: seq<Customer>, id: int): (c: Option<Customer>)
    ensures c.None? <==> !CustomerExists(cs, id)
    ensures c.Some? ==> c.value in cs && c.value.customerId == id
  {
    if cs == [] then None
    else if cs[0].customerId == id then Some(cs[0])
    else
      var c := FindCustomer(cs[1..], id);
      assert forall i :: 1 <= i < |cs| ==> cs[i] == cs[1..][i - 1];
      c
  }

  /** `Loan.objects.get(loan_id=id)`. */
  function FindLoan(ls: seq<Loan>, id: int): (l: Option<Loan>)
    ensures l.None? <==> forall i :: 0 <= i < |ls| ==> ls[i].loanId != id
    ensures l.Some? ==> l.value in ls && l.value.loanId == id
  {
    if ls == [] then None
    else if ls[0].loanId == id then Some(ls[0])
    else
      var l := FindLoan(ls[1..], id);
      assert forall i :: 1 <= i < |ls| ==> ls[i] == ls[1..][i - 1];
      l
  }

  /** The application linked to a loan (`loan.application`), if any. */
  function ApplicationOf(apps: seq<LoanApplication>, loanId: int): (a: Option<LoanApplication>)
    ensures a.None? <==> forall i :: 0 <= i < |apps| ==> apps[i].loanId != Some(loanId)
    ensures a.Some? ==> a.value in apps && a.value.loanId == Some(loanId)
  {
    if apps == [] then None
    else if apps[0].loanId == Some(loanId) then Some(apps[0])
    else
      var a := ApplicationOf(apps[1..], loanId);
      assert forall i :: 1 <= i < |apps| ==> apps[i] == apps[1..][i - 1];
      a
  }

  /** `customer.loans.all()`: a customer's loans, in store order. */
  function LoansOf(ls: seq<Loan>, customerId: int): (mine: seq<Loan>)
    ensures forall l :: l in mine <==> l in ls && l.customerId == customerId
  {
    if ls == [] then []
    else if ls[0].customerId == customerId then [ls[0]] + LoansOf(ls[1..], customerId)
    else LoansOf(ls[1..], customerId)
  }

  lemma {:induction false} LoansOfAppend(ls: seq<Loan>, l: Loan, customerId: int)
    ensures LoansOf(ls + [l], customerId)
            == LoansOf(ls, customerId) + (if l.customerId == customerId then [l] else [])
  {
    if ls == [] {
      assert [] + [l] == [l];
      assert [l][1..] == [];
    } else {
      assert (ls + [l])[0] == ls[0];
      assert (ls + [l])[1..] == ls[1..] + [l];
      LoansOfAppend(ls[1..], l, customerId);
    }
  }

  // ---------------------------------------------------------------------
  // Requests and responses
  // ---------------------------------------------------------------------

  /** The four fields of a loan request; `None` where the field is absent.  Amount and rate arrive as decimals. */
  datatype LoanRequest = LoanRequest(
    customerId: Option<int>,
    loanAmount: Option<Dec>,
    interestRate: Option<Dec>,
    tenure: Option<int>)

  predicate Complete(req: LoanRequest)
  {
    req.customerId.Some? && req.loanAmount.Some? && req.interestRate.Some? && req.tenure.Some?
  }

  datatype CustomerSummary = CustomerSummary(
    customerId: int, firstName: string, lastName: string, phoneNumber: int, age: int)

  datatype LoanSummary = LoanSummary(
    loanId: int, loanAmount: real, loanApproved: bool, interestRate: real,
    monthlyInstallment: real, repaymentsLeft: int)

  datatype Body =
    | ErrorBody(error: string)
    | FieldErrors(errors: seq<FieldError>)
    | ServerError
    | Registered(customerId: int, firstName: string, lastName: string, age: int,
                 monthlyIncome: real, approvedLimit: real, phoneNumber: int)
    | EligibilityResult(customerId: int, approval: bool, interestRate: real,
                  correctedInterestRate: real, tenure: int, monthlyInstallment: real)
    | LoanCreated(newLoanId: Option<int>, customerId: int, loanApproved: bool,
                  message: string, monthlyInstallment: real)
    | LoanDetail(loanId: int, customer: CustomerSummary, loanAmount: real, interestRate: real,
                 loanApproved: bool, monthlyInstallment: real, tenure: int)
    | LoanList(items: seq<LoanSummary>)

  datatype Response = Response(status: int, body: Body)

  const CustomerNotFound: string := "Customer not found"
  const LoanNotFound: string := "Loan not found"
  const FieldRequired: string := "This field is required."

  // ---------------------------------------------------------------------
  // check_eligibility
  // ---------------------------------------------------------------------

  function Required(field: string, present: bool): seq<FieldError>
  {
    if present then [] else [FieldError(field, FieldRequired)]
  }

  /** One error per absent field, in field order; `create_loan` reports the first of them. */
  function MissingFieldErrors(req: LoanRequest): (errs: seq<FieldError>)
    ensures |errs| == 0 <==> Complete(req)
    ensures |errs| <= 4
  {
    Required("customer_id", req.customerId.Some?)
    + Required("loan_amount", req.loanAmount.Some?)
    + Required("interest_rate", req.interestRate.Some?)
    + Required("tenure", req.tenure.Some?)
  }

  /** One decimal field of the request serializer: required, then within its digit limits. */
  function DecimalErrors(field: string, v: Option<Dec>, maxDigits: nat, decimalPlaces: nat): (errs: seq<FieldError>)
    ensures |errs| <= 1
    ensures |errs| == 0 <==> v.Some? && DecimalFieldError(v.value, maxDigits, decimalPlaces).None?
    ensures v.None? ==> errs == [FieldError(field, FieldRequired)]
  {
    match v
    case None => [FieldError(field, FieldRequired)]
    case Some(d) =>
      match DecimalFieldError(d, maxDigits, decimalPlaces)
      case None => []
      case Some(m) => [FieldError(field, m)]
  }

  /** What `LoanEligibilityRequestSerializer` accepts: all four fields, the amount and the rate within their limits. */
  predicate Accepted(req: LoanRequest)
  {
    && Complete(req)
    && DecimalFieldError(req.loanAmount.value, 12, 2).None?
    && DecimalFieldError(req.interestRate.value, 5, 2).None?
  }

  /** The request serializer's errors, in field order: absent fields and decimals beyond their limits. */
  function RequestFieldErrors(req: LoanRequest): (errs: seq<FieldError>)
    ensures |errs| == 0 <==> Accepted(req)
    ensures |errs| <= 4
    ensures !Complete(req) ==> |errs| > 0
  {
    Required("customer_id", req.customerId.Some?)
    + DecimalErrors("loan_amount", req.loanAmount, 12, 2)
    + DecimalErrors("interest_rate", req.interestRate, 5, 2)
    + Required("tenure", req.tenure.Some?)
  }

  /** The corrected rate as shown: the requested rate when the corrected one is absent or zero. */
  function ShownCorrectedRate(d: CheckDecision): (shown: real)
    ensures d.correctedInterestRate.Some? && d.correctedInterestRate.value != 0.0 ==>
              shown == d.correctedInterestRate.value
    ensures d.correctedInterestRate.None? || d.correctedInterestRate.value == 0.0 ==> shown == d.interestRate
  {
    match d.correctedInterestRate
    case Some(v) => if v != 0.0 then v else d.interestRate
    case None => d.interestRate
  }

  /** For any decision of the rule chain, the shown rate is just the corrected rate, defaulting to the requested one. */
  lemma ShownCorrectedRateIsCorrectedOrRequested(score: int, existingEmis: real, emi: real, salary: real, rate: real)
    ensures var d := Decide(score, existingEmis, emi, salary, rate);
            ShownCorrectedRate(d) == d.correctedInterestRate.GetOr(rate)
            && ShownCorrectedRate(d) >= rate
  {
  }

  /**
   * `check_eligibility`: 400 with the serializer's field errors, 404 for an
   * unknown customer, a server error when the instalment divides by zero
   * or the answer's instalment cannot be rendered, and otherwise 200
   * whatever the decision.
   */
  function CheckEligibility(customers: seq<Customer>, loans: seq<Loan>, today: Date, req: LoanRequest)
    : (resp: Response)
    ensures !Accepted(req) <==> resp.status == 400
    ensures !Accepted(req) ==> resp.body == FieldErrors(RequestFieldErrors(req))
    ensures Accepted(req) && !CustomerExists(customers, req.customerId.value) ==>
              resp == Response(404, ErrorBody(CustomerNotFound))
    ensures resp.status == 200 <==>
              Accepted(req) && CustomerExists(customers, req.customerId.value)
              && ExactEmi(DecValue(req.loanAmount.value), DecValue(req.interestRate.value), req.tenure.value).Some?
              && QuantizeInstalment(EmiFor(DecValue(req.loanAmount.value), DecValue(req.interestRate.value),
                                           req.tenure.value).value).Some?
    ensures resp.status == 500 <==>
              Accepted(req) && CustomerExists(customers, req.customerId.value)
              && var emi := EmiFor(DecValue(req.loanAmount.value), DecValue(req.interestRate.value), req.tenure.value);
                 (emi.None? || QuantizeInstalment(emi.value).None?)
    ensures resp.status == 200 ==>
              var c := FindCustomer(customers, req.customerId.value).value;
              var d := EvaluateLoan(c, LoansOf(loans, c.customerId), today, DecValue(req.loanAmount.value),
                                    DecValue(req.interestRate.value), req.tenure.value).value;
              && resp.body.EligibilityResult?
              && resp.body.approval == d.approved
              && resp.body.monthlyInstallment == d.monthlyInstallment
              && resp.body.customerId == req.customerId.value
              && resp.body.tenure == req.tenure.value
              && resp.body.interestRate == DecValue(req.interestRate.value)
              && resp.body.correctedInterestRate == ShownCorrectedRate(d)
              && resp.body.correctedInterestRate >= DecValue(req.interestRate.value)
  {
    if !Accepted(req) then Response(400, FieldErrors(RequestFieldErrors(req)))
    else
      match FindCustomer(customers, req.customerId.value)
      case None => Response(404, ErrorBody(CustomerNotFound))
      case Some(c) =>
        var mine := LoansOf(loans, c.customerId);
        match EvaluateLoan(c, mine, today, DecValue(req.loanAmount.value), DecValue(req.interestRate.value), req.tenure.value)
        case None => Response(500, ServerError)
        case Some(d) =>
          if QuantizeInstalment(d.monthlyInstallment).None? then Response(500, ServerError)
          else
            Response(200, EligibilityResult(c.customerId, d.approved, d.interestRate, ShownCorrectedRate(d),
                                            req.tenure.value, d.monthlyInstallment))
  }

  /**
   * A request the serializer accepts (ten whole digits) whose instalment
   * at 12 % over one month, 10099999998.99, is too wide for the answer:
   * a server error, whoever the customer is.
   */
  lemma WideInstalmentIsServerError(c: Customer, today: Date)
    ensures CheckEligibility([c], [], today,
                             LoanRequest(Some(c.customerId), Some(Dec(9999999999, 0)), Some(Dec(12, 0)), Some(1))).status
            == 500
  {
    TenDigitRequestAccepted(c.customerId);
    assert [c][0].customerId == c.customerId;
    assert CustomerExists([c], c.customerId);
    WideInstalment();
    assert DecValue(Dec(9999999999, 0)) == 9999999999.0;
    assert DecValue(Dec(12, 0)) == 12.0;
  }

  /** Ten whole digits at 12 % pass the request serializer. */
  lemma TenDigitRequestAccepted(customerId: int)
    ensures Accepted(LoanRequest(Some(customerId), Some(Dec(9999999999, 0)), Some(Dec(12, 0)), Some(1)))
  {
    DecimalFieldAcceptsBelowBound(9999999999, 0, 12, 2);
    DecimalFieldAcceptsBelowBound(12, 0, 5, 2);
    assert Pow10(10) == 10000000000;
    assert Pow10(3) == 1000;
  }

  /** 9999999999 at 12 % over one month: 10099999998.99, beyond ten whole digits. */
  lemma WideInstalment()
    ensures EmiFor(9999999999.0, 12.0, 1).Some?
    ensures QuantizeInstalment(EmiFor(9999999999.0, 12.0, 1).value).None?
  {
    assert PowInt(1.0 + MonthlyRate(12.0), 1) == Some(1.01);
    assert ExactEmi(9999999999.0, 12.0, 1) == Some(10099999998.99);
    var emi := EmiFor(9999999999.0, 12.0, 1).value;
    assert emi >= 10099999998.985;
    assert TenTo(10) == 10000000000.0;
    assert Round2(emi) >= TenTo(10);
  }

  /**
   * A complete request for 1 lakh at 12.345 % is refused by the serializer
   * with an interest-rate error, whoever the customer is; so are a rate of
   * 1000 % and an amount of 10^10.
   */
  lemma OverPreciseRequestsRejected(customers: seq<Customer>, loans: seq<Loan>, today: Date, customerId: int, tenure: int)
    ensures var resp := CheckEligibility(customers, loans, today,
                                         LoanRequest(Some(customerId), Some(Dec(100000, 0)), Some(Dec(12345, -3)), Some(tenure)));
            resp.status == 400 && resp.body.FieldErrors? && |resp.body.errors| == 1
            && resp.body.errors[0].field == "interest_rate"
    ensures CheckEligibility(customers, loans, today,
                             LoanRequest(Some(customerId), Some(Dec(100000, 0)), Some(Dec(1000, 0)), Some(tenure))).status == 400
    ensures CheckEligibility(customers, loans, today,
                             LoanRequest(Some(customerId), Some(Dec(10000000000, 0)), Some(Dec(12, 0)), Some(tenure))).status == 400
  {
    RequestPrecisionExamples();
    DecimalFieldAcceptsBelowBound(12, 0, 5, 2);
    assert Pow10(3) == 1000;
  }

  // ---------------------------------------------------------------------
  // evaluate_loan_eligibility
  // ---------------------------------------------------------------------

  const EmiTooHigh: string := "EMI exceeds 50% of monthly income"
  const OverApprovedLimit: string := "Exceeds approved credit limit"
  const ScoreTooLow: string := "Credit score too low"
  const LoanApproved: string := "Loan approved"

  datatype CreateDecision = CreateDecision(approved: bool, message: string, emi: real, creditScore: int)

  /** The cached current score of a customer, 50 when there is none. */
  function CachedScore(rs: seq<CreditScoreRecord>, customerId: int): (s: int)
    ensures CurrentScore(rs, customerId).None? ==> s == 50
    ensures CurrentScore(rs, customerId).Some? ==> s == CurrentScore(rs, customerId).value
  {
    CurrentScore(rs, customerId).GetOr(50)
  }

  /**
   * The create-loan gates, first failure deciding: the new instalment
   * alone against half the salary, then active principal plus the request
   * against the limit, then a score of at least 50.  Only approval rounds
   * the instalment.
   */
  function DecideCreate(score: int, activePrincipal: real, approvedLimit: real, monthlySalary: real,
                        loanAmount: real, emi: real): (d: CreateDecision)
    ensures d.creditScore == score
    ensures d.approved <==>
              emi <= HalfSalary(monthlySalary) && activePrincipal + loanAmount <= approvedLimit && score >= 50
    ensures d.approved ==> d.message == LoanApproved && d.emi == Round2(emi)
    ensures !d.approved ==> d.emi == emi
    ensures emi > HalfSalary(monthlySalary) ==> d.message == EmiTooHigh
    ensures emi <= HalfSalary(monthlySalary) && activePrincipal + loanAmount > approvedLimit ==>
              d.message == OverApprovedLimit
    ensures emi <= HalfSalary(monthlySalary) && activePrincipal + loanAmount <= approvedLimit && score < 50 ==>
              d.message == ScoreTooLow
  {
    if emi > HalfSalary(monthlySalary) then CreateDecision(false, EmiTooHigh, emi, score)
    else if activePrincipal + loanAmount > approvedLimit then CreateDecision(false, OverApprovedLimit, emi, score)
    else if score < 50 then CreateDecision(false, ScoreTooLow, emi, score)
    else CreateDecision(true, LoanApproved, Round2(emi), score)
  }

  /** Every rejection message is one of the application's declared rejection reasons. */
  lemma RejectionMessagesAreDeclaredReasons(score: int, activePrincipal: real, approvedLimit: real,
                                            monthlySalary: real, loanAmount: real, emi: real)
    ensures var d := DecideCreate(score, activePrincipal, approvedLimit, monthlySalary, loanAmount, emi);
            !d.approved ==> d.message in {EmiTooHigh, OverApprovedLimit, ScoreTooLow}
  {
  }

  /**
   * `evaluate_loan_eligibility`: the gates over the exact instalment and
   * the cached score; `None` when the instalment divides by zero.
   */
  function EvaluateLoanEligibility(c: Customer, mine: seq<Loan>, today: Date, cachedScore: int,
                                   loanAmount: real, rate: real, tenure: int): (d: Option<CreateDecision>)
    ensures d.None? <==> ExactEmi(loanAmount, rate, tenure).None?
    ensures d.Some? ==>
              d.value == DecideCreate(cachedScore, CurrentLoansSum(mine, today), c.approvedLimit,
                                      c.monthlySalary, loanAmount, ExactEmi(loanAmount, rate, tenure).value)
  {
    match ExactEmi(loanAmount, rate, tenure)
    case None => None
    case Some(emi) =>
      Some(DecideCreate(cachedScore, CurrentLoansSum(mine, today), c.approvedLimit, c.monthlySalary, loanAmount, emi))
  }

  /** A customer without a cached score always passes the score gate. */
  lemma NoCachedScorePassesScoreGate(c: Customer, mine: seq<Loan>, today: Date, rs: seq<CreditScoreRecord>,
                                     loanAmount: real, rate: real, tenure: int)
    requires CurrentScore(rs, c.customerId).None?
    requires ExactEmi(loanAmount, rate, tenure).Some?
    ensures var d := EvaluateLoanEligibility(c, mine, today, CachedScore(rs, c.customerId), loanAmount, rate, tenure).value;
            && d.message != ScoreTooLow
            && (d.approved <==>
                  (ExactEmi(loanAmount, rate, tenure).value <= HalfSalary(c.monthlySalary)
                   && CurrentLoansSum(mine, today) + loanAmount <= c.approvedLimit))
  {
  }

  /**
   * The high-instalment case: a salary of 50000 cannot carry 20 lakh over
   * twelve months at 12%, since even the interest-free share exceeds half
   * the salary.
   */
  lemma TwentyLakhOverAYearIsUnaffordable(c: Customer, mine: seq<Loan>, today: Date, cachedScore: int)
    requires c.monthlySalary == 50000.0
    ensures var d := EvaluateLoanEligibility(c, mine, today, cachedScore, 2000000.0, 12.0, 12);
            d.Some? && !d.value.approved && d.value.message == EmiTooHigh
  {
    ExactEmiAboveInterestFreeShare(2000000.0, 12.0, 12);
  }

  /**
   * The worked scenario: a salary of 50000, no loans and no cached score,
   * asking 1 lakh at 12% over twelve months.  The eligibility check approves
   * with the rate raised to 12.1 (the neutral score 50 falls in the
   * 30..50 tier); loan creation approves as well.
   */
  lemma OneLakhAtTwelvePercentScenario(c: Customer, today: Date)
    requires c.monthlySalary == 50000.0 && c.approvedLimit >= 100000.0
    ensures var d := EvaluateLoan(c, [], today, 100000.0, 12.0, 12);
            d.Some? && d.value.approved && d.value.creditScore == 50
            && d.value.correctedInterestRate == Some(12.1) && d.value.monthlyInstallment == 8884.88
    ensures var d := EvaluateLoanEligibility(c, [], today, 50, 100000.0, 12.0, 12);
            d.Some? && d.value.approved && d.value.message == LoanApproved && d.value.emi == 8884.88
  {
    var G := Pow(1.01, 12);
    assert 1.12 < G < 1.13;
    var e := AnnuityInstalment(100000.0, 0.01, G);
    assert 8884.87 < e < 8884.88;
    assert ExactEmi(100000.0, 12.0, 12) == Some(e);
    assert 888487.0 < e * 100.0 < 888488.0;
    assert RoundHalfEven(e * 100.0) == 888488;
  }

  /**
   * The two rule chains differ: instalments of existing loans count only
   * in the eligibility check, so it can reject what loan creation approves.
   */
  lemma ExistingEmisCountOnlyInCheck(c: Customer, mine: seq<Loan>, today: Date, loanAmount: real, rate: real, tenure: int)
    requires rate == 0.0 && tenure >= 1
    requires CurrentLoansSum(mine, today) <= c.approvedLimit
    requires CurrentLoansSum(mine, today) + loanAmount <= c.approvedLimit
    requires CreditScore(mine, today) == 50
    requires loanAmount / tenure as real <= HalfSalary(c.monthlySalary)
    requires CurrentEmisSum(mine, today) + loanAmount / tenure as real > HalfSalary(c.monthlySalary)
    ensures !EvaluateLoan(c, mine, today, loanAmount, rate, tenure).value.approved
    ensures EvaluateLoanEligibility(c, mine, today, CreditScore(mine, today), loanAmount, rate, tenure).value.approved
  {
    ZeroRateEmi(loanAmount, tenure);
  }

  /**
   * The limit gate exists only in loan creation: a request that takes the
   * active principal over the limit can still pass the eligibility check.
   */
  lemma LimitGateOnlyInCreate(c: Customer, mine: seq<Loan>, today: Date, cachedScore: int,
                              loanAmount: real, rate: real, tenure: int)
    requires ExactEmi(loanAmount, rate, tenure).Some?
    requires CurrentLoansSum(mine, today) <= c.approvedLimit < CurrentLoansSum(mine, today) + loanAmount
    requires CreditScore(mine, today) > 10
    requires ExactEmi(loanAmount, rate, tenure).value <= HalfSalary(c.monthlySalary)
    requires CurrentEmisSum(mine, today) + EmiFor(loanAmount, rate, tenure).value <= HalfSalary(c.monthlySalary)
    ensures EvaluateLoan(c, mine, today, loanAmount, rate, tenure).value.approved
    ensures var d := EvaluateLoanEligibility(c, mine, today, cachedScore, loanAmount, rate, tenure).value;
            !d.approved && d.message == OverApprovedLimit
  {
  }

  // ---------------------------------------------------------------------
  // create_loan: the records written
  // ---------------------------------------------------------------------

  /**
   * The application as stored at the end of `create_loan`: its status and
   * message follow the decision, and an approved one is linked to its loan
   * with the requested amount and rate.
   */
  function RecordedApplication(applicationId: int, customerId: int, loanAmount: real, rate: real, tenure: int,
                               d: CreateDecision, loanId: int): (a: LoanApplication)
    ensures a.status == Approved <==> d.approved
    ensures a.status != Pending
    ensures a.rejectionMessage.None? <==> d.approved
    ensures a.loanId.Some? <==> d.approved
    ensures a.creditScoreAtApplication == Some(d.creditScore)
    ensures a.monthlyInstallment == Some(d.emi)
    ensures d.approved ==> a.loanId == Some(loanId) && a.approvedAmount == Some(loanAmount)
                           && a.approvedInterestRate == Some(rate)
    ensures !d.approved ==> a.rejectionMessage == Some(d.message) && a.approvedAmount.None?
                            && a.approvedInterestRate.None?
    ensures a.applicationId == applicationId && a.customerId == customerId
    ensures a.requestedAmount == loanAmount && a.requestedInterestRate == rate && a.requestedTenure == tenure
  {
    var inserted := LoanApplication(applicationId, customerId, None, loanAmount, rate, tenure,
                                    if d.approved then Approved else Rejected, None, None, None,
                                    Some(d.emi), if d.approved then None else Some(d.message),
                                    Some(d.creditScore));
    if d.approved then
      inserted.(loanId := Some(loanId), approvedAmount := Some(loanAmount), approvedInterestRate := Some(rate))
    else inserted
  }

  /** The loan inserted on approval, before its own save hook. */
  function OpenedLoan(loanId: int, customerId: int, loanAmount: real, rate: real, tenure: int,
                      emi: real, today: Date): (l: Loan)
    ensures l.startDate == today && l.endDate == AddDays(today, 30 * tenure)
    ensures l.loanAmount == loanAmount && l.interestRate == rate && l.tenure == tenure
    ensures l.loanId == loanId && l.customerId == customerId
    ensures l.monthlyRepayment == emi && l.emisPaidOnTime == 0
  {
    Loan(loanId, customerId, loanAmount, tenure, rate, emi, 0, today, AddDays(today, 30 * tenure))
  }

  /**
   * An approval never takes the active principal over the limit: the new
   * loan owes its whole tenure today, so it adds exactly its amount.
   */
  lemma ApprovalStaysWithinLimit(c: Customer, mine: seq<Loan>, today: Date, cachedScore: int,
                                 loanAmount: real, rate: real, tenure: int, loanId: int)
    requires tenure >= 1
    requires EvaluateLoanEligibility(c, mine, today, cachedScore, loanAmount, rate, tenure).Some?
    requires EvaluateLoanEligibility(c, mine, today, cachedScore, loanAmount, rate, tenure).value.approved
    ensures var d := EvaluateLoanEligibility(c, mine, today, cachedScore, loanAmount, rate, tenure).value;
            var l := OpenedLoan(loanId, c.customerId, loanAmount, rate, tenure, d.emi, today);
            && SaveLoan(l).Some?
            && CurrentLoansSum(mine + [SaveLoan(l).value], today) == CurrentLoansSum(mine, today) + loanAmount
            && CurrentLoansSum(mine + [SaveLoan(l).value], today) <= c.approvedLimit
  {
    var d := EvaluateLoanEligibility(c, mine, today, cachedScore, loanAmount, rate, tenure).value;
    var l := OpenedLoan(loanId, c.customerId, loanAmount, rate, tenure, d.emi, today);
    var saved := SaveLoan(l).value;
    FreshLoanOwesWholeTenure(saved, today);
    CurrentSumsAppend(mine, saved, today);
  }

  /** `loan.application.status == "APPROVED"`, with the rate view_loan shows. */
  function ShownRate(l: Loan, a: Option<LoanApplication>): (rate: real)
    ensures !GetIsApproved(a) ==> rate == l.interestRate
    ensures GetIsApproved(a) && a.value.approvedInterestRate.Some? && a.value.approvedInterestRate.value != 0.0 ==>
              rate == a.value.approvedInterestRate.value
    ensures GetIsApproved(a) && a.value.approvedInterestRate.GetOr(0.0) == 0.0 ==> rate == l.interestRate
    ensures rate == l.interestRate || (a.Some? && a.value.approvedInterestRate == Some(rate))
  {
    if GetIsApproved(a) then
      match a.value.approvedInterestRate
      case Some(v) => if v != 0.0 then v else l.interestRate
      case None => l.interestRate
    else l.interestRate
  }

  /**
   * `view_loan`: 404 for an unknown loan; otherwise the loan with its
   * customer, approved exactly when its application is, at the rate the
   * application approved.  A loan whose customer is missing fails with a
   * server error.
   */
  function ViewLoan(customers: seq<Customer>, loans: seq<Loan>, apps: seq<LoanApplication>, loanId: int)
    : (resp: Response)
    ensures resp.status == 404 <==> FindLoan(loans, loanId).None?
    ensures FindLoan(loans, loanId).Some? ==>
              (resp.status == 500 <==> FindCustomer(customers, FindLoan(loans, loanId).value.customerId).None?)
    ensures FindLoan(loans, loanId).Some? && FindCustomer(customers, FindLoan(loans, loanId).value.customerId).Some? ==>
              resp.status == 200
    ensures resp.status == 200 ==>
              var l := FindLoan(loans, loanId).value;
              var c := FindCustomer(customers, l.customerId).value;
              && resp.body.LoanDetail?
              && resp.body.loanId == loanId
              && resp.body.customer == CustomerSummary(l.customerId, c.firstName, c.lastName, c.phoneNumber, c.age)
              && resp.body.interestRate == ShownRate(l, ApplicationOf(apps, loanId))
              && (resp.body.loanApproved <==>
                    (ApplicationOf(apps, loanId).Some? && ApplicationOf(apps, loanId).value.status == Approved))
              && resp.body.loanAmount == l.loanAmount && resp.body.tenure == l.tenure
              && resp.body.monthlyInstallment == l.monthlyRepayment
  {
    match FindLoan(loans, loanId)
    case None => Response(404, ErrorBody(LoanNotFound))
    case Some(l) =>
      match FindCustomer(customers, l.customerId)
      case None => Response(500, ServerError)
      case Some(c) =>
        var a := ApplicationOf(apps, loanId);
        Response(200, LoanDetail(l.loanId, CustomerSummary(c.customerId, c.firstName, c.lastName, c.phoneNumber, c.age),
                                 l.loanAmount, ShownRate(l, a), GetIsApproved(a), l.monthlyRepayment, l.tenure))
  }

  /** One entry of `view_loans_by_customer`: the loan's own rate and what is still due. */
  function SummaryOf(l: Loan, apps: seq<LoanApplication>, today: Date): (s: LoanSummary)
    ensures s.loanApproved == GetIsApproved(ApplicationOf(apps, l.loanId))
    ensures s.interestRate == l.interestRate
    ensures s.loanId == l.loanId && s.loanAmount == l.loanAmount && s.monthlyInstallment == l.monthlyRepayment
    ensures s.repaymentsLeft == RepaymentsLeft(l, today)
    ensures l.tenure >= 0 ==> 0 <= s.repaymentsLeft <= l.tenure
  {
    LoanSummary(l.loanId, l.loanAmount, GetIsApproved(ApplicationOf(apps, l.loanId)), l.interestRate,
                l.monthlyRepayment, RepaymentsLeft(l, today))
  }

  // ---------------------------------------------------------------------
  // The store
  // ---------------------------------------------------------------------

  /** The rows of the customers, loans and loan_applications tables, and the cached scores. */
  class Store {
    var customers: seq<Customer>
    var loans: seq<Loan>
    var applications: seq<LoanApplication>
    var nextCustomerId: int
    var nextLoanId: int
    var nextApplicationId: int
    const scores: CreditScoreTable

    /**
     * Keys are below their counters, every loan has its customer, an
     * application linked to a loan is approved at that loan's rate, and the
     * score table keeps its own invariant.
     */
    ghost predicate Valid()
      reads this, scores
    {
      && (forall i :: 0 <= i < |customers| ==> customers[i].customerId < nextCustomerId)
      && (forall i :: 0 <= i < |loans| ==> loans[i].loanId < nextLoanId)
      && (forall i :: 0 <= i < |applications| ==> applications[i].applicationId < nextApplicationId)
      && (forall i :: 0 <= i < |applications| && applications[i].loanId.Some? ==>
            applications[i].loanId.value < nextLoanId)
      && (forall j :: 0 <= j < |loans| ==> CustomerExists(customers, loans[j].customerId))
      && LinksAtLoanRate(applications, loans)
      && scores.Valid()
    }

    constructor ()
      ensures Valid()
      ensures customers == [] && loans == [] && applications == []
      ensures fresh(scores) && scores.records == []
    {
      customers, loans, applications := [], [], [];
      nextCustomerId, nextLoanId, nextApplicationId := 1, 1, 1;
      scores := new CreditScoreTable();
    }

    /** `customer_register`: 400 with the field errors, or 201 with the new customer. */
    method Register(req: RegisterRequest) returns (resp: Response)
      requires Valid()
      modifies this
      ensures Valid()
      ensures loans == old(loans) && applications == old(applications)
      ensures |RegistrationErrors(old(customers), req)| > 0 ==>
                resp == Response(400, FieldErrors(RegistrationErrors(old(customers), req)))
                && customers == old(customers)
      ensures |RegistrationErrors(old(customers), req)| == 0 ==>
                var c := CreateCustomer(req, old(nextCustomerId));
                && customers == old(customers) + [c]
                && resp == Response(201, Registered(c.customerId, c.firstName, c.lastName, c.age,
                                                    c.monthlySalary, c.approvedLimit, c.phoneNumber))
    {
      var errs := RegistrationErrors(customers, req);
      if |errs| > 0 {
        return Response(400, FieldErrors(errs));
      }
      var c := CreateCustomer(req, nextCustomerId);
      CustomersGrow(customers, c, loans);
      customers := customers + [c];
      nextCustomerId := nextCustomerId + 1;
      resp := Response(201, Registered(c.customerId, c.firstName, c.lastName, c.age,
                                       c.monthlySalary, c.approvedLimit, c.phoneNumber));
    }

    /**
     * `create_loan`: 400 for the first absent field, 404 for an unknown
     * customer, a server error (nothing written) when the instalment
     * divides by zero; otherwise exactly one application is recorded, and a
     * loan exactly when approved, answered with 200 or 400.
     */
    method CreateLoan(req: LoanRequest, today: Date) returns (resp: Response)
      requires Valid()
      modifies this
      ensures Valid()
      ensures customers == old(customers)
      ensures !Complete(req) ==>
                resp == Response(400, ErrorBody(MissingFieldErrors(req)[0].field + " is required"))
                && loans == old(loans) && applications == old(applications)
      ensures Complete(req) && !CustomerExists(old(customers), req.customerId.value) ==>
                resp == Response(404, ErrorBody(CustomerNotFound))
                && loans == old(loans) && applications == old(applications)
      ensures Complete(req) && CustomerExists(old(customers), req.customerId.value)
              && ExactEmi(DecValue(req.loanAmount.value), DecValue(req.interestRate.value), req.tenure.value).None? ==>
                resp == Response(500, ServerError) && loans == old(loans) && applications == old(applications)
      ensures Complete(req) && CustomerExists(old(customers), req.customerId.value)
              && ExactEmi(DecValue(req.loanAmount.value), DecValue(req.interestRate.value), req.tenure.value).Some? ==>
                var c := FindCustomer(old(customers), req.customerId.value).value;
                var d := EvaluateLoanEligibility(c, LoansOf(old(loans), c.customerId), today,
                                                 CachedScore(scores.records, c.customerId),
                                                 DecValue(req.loanAmount.value), DecValue(req.interestRate.value), req.tenure.value).value;
                var l := OpenedLoan(old(nextLoanId), c.customerId, DecValue(req.loanAmount.value), DecValue(req.interestRate.value),
                                    req.tenure.value, d.emi, today);
                && applications == old(applications)
                     + [RecordedApplication(old(nextApplicationId), c.customerId, DecValue(req.loanAmount.value),
                                            DecValue(req.interestRate.value), req.tenure.value, d, old(nextLoanId))]
                && (d.approved ==> SaveLoan(l).Some? && loans == old(loans) + [SaveLoan(l).value])
                && (!d.approved ==> loans == old(loans))
                && resp == Response(if d.approved then 200 else 400,
                                    LoanCreated(if d.approved then Some(old(nextLoanId)) else None,
                                                c.customerId, d.approved, d.message, d.emi))
    {
      var errs := MissingFieldErrors(req);
      if |errs| > 0 {
        return Response(400, ErrorBody(errs[0].field + " is required"));
      }
      var found := FindCustomer(customers, req.customerId.value);
      if found.None? {
        return Response(404, ErrorBody(CustomerNotFound));
      }
      var c := found.value;
      var amount, rate, tenure := DecValue(req.loanAmount.value), DecValue(req.interestRate.value), req.tenure.value;
      var decision := EvaluateLoanEligibility(c, LoansOf(loans, c.customerId), today,
                                              CachedScore(scores.records, c.customerId), amount, rate, tenure);
      if decision.None? {
        return Response(500, ServerError);
      }
      var d := decision.value;
      var loanId := RecordDecision(c, amount, rate, tenure, d, today);
      resp := Response(if d.approved then 200 else 400, LoanCreated(loanId, c.customerId, d.approved, d.message, d.emi));
    }

    /**
     * The writes of `create_loan` once the decision is known: the
     * application, and on approval the loan it is linked to.
     */
    method RecordDecision(c: Customer, amount: real, rate: real, tenure: int, d: CreateDecision, today: Date)
      returns (loanId: Option<int>)
      requires Valid()
      requires c in customers
      requires ExactEmi(amount, rate, tenure).Some?
      modifies this
      ensures Valid()
      ensures customers == old(customers)
      ensures applications == old(applications)
                + [RecordedApplication(old(nextApplicationId), c.customerId, amount, rate, tenure, d, old(nextLoanId))]
      ensures loanId == (if d.approved then Some(old(nextLoanId)) else None)
      ensures var l := OpenedLoan(old(nextLoanId), c.customerId, amount, rate, tenure, d.emi, today);
              && (d.approved ==> SaveLoan(l).Some? && loans == old(loans) + [SaveLoan(l).value])
              && (!d.approved ==> loans == old(loans))
    {
      var application := RecordedApplication(nextApplicationId, c.customerId, amount, rate, tenure, d, nextLoanId);
      var ci :| 0 <= ci < |customers| && customers[ci] == c;
      ghost var oldLoans, oldApps, oldNext := loans, applications, nextLoanId;
      applications := applications + [application];
      nextApplicationId := nextApplicationId + 1;
      var extra: seq<Loan> := [];
      loanId := None;
      if d.approved {
        var saved := SaveLoan(OpenedLoan(nextLoanId, c.customerId, amount, rate, tenure, d.emi, today));
        extra := [saved.value];
        loans := loans + extra;
        loanId := Some(nextLoanId);
        nextLoanId := nextLoanId + 1;
      }
      LinksPreserved(oldApps, oldLoans, application, extra, oldNext);
      assert CustomerExists(customers, c.customerId) by {
        assert customers[ci].customerId == c.customerId;
      }
    }

    /** `view_loans_by_customer`: 404 for an unknown customer, else one summary per loan of the customer. */
    method ViewLoansByCustomer(customerId: int, today: Date) returns (resp: Response)
      ensures !CustomerExists(customers, customerId) ==> resp == Response(404, ErrorBody(CustomerNotFound))
      ensures CustomerExists(customers, customerId) ==>
                var mine := LoansOf(loans, customerId);
                && resp.status == 200 && resp.body.LoanList?
                && |resp.body.items| == |mine|
                && forall k :: 0 <= k < |mine| ==> resp.body.items[k] == SummaryOf(mine[k], applications, today)
    {
      if FindCustomer(customers, customerId).None? {
        return Response(404, ErrorBody(CustomerNotFound));
      }
      var mine := LoansOf(loans, customerId);
      var items: seq<LoanSummary> := [];
      var i := 0;
      while i < |mine|
        invariant 0 <= i <= |mine|
        invariant |items| == i
        invariant forall k :: 0 <= k < i ==> items[k] == SummaryOf(mine[k], applications, today)
      {
        items := items + [SummaryOf(mine[i], applications, today)];
        i := i + 1;
      }
      resp := Response(200, LoanList(items));
    }

    /** In a consistent store every loan is found with its customer, and both views show the loan's own rate. */
    lemma ViewsAgreeOnRate(loanId: int, today: Date)
      requires Valid()
      requires FindLoan(loans, loanId).Some?
      ensures var resp := ViewLoan(customers, loans, applications, loanId);
              var l := FindLoan(loans, loanId).value;
              && resp.status == 200
              && resp.body.interestRate == l.interestRate
              && resp.body.interestRate == SummaryOf(l, applications, today).interestRate
    {
      var l := FindLoan(loans, loanId).value;
      var j :| 0 <= j < |loans| && loans[j] == l;
      assert CustomerExists(customers, loans[j].customerId);
      var a := ApplicationOf(applications, loanId);
      if a.Some? {
        var i :| 0 <= i < |applications| && applications[i] == a.value;
        assert applications[i].loanId == Some(loans[j].loanId);
      }
    }
  }

  /** Adding a customer keeps every loan's customer present. */
  lemma CustomersGrow(cs: seq<Customer>, c: Customer, ls: seq<Loan>)
    requires forall j :: 0 <= j < |ls| ==> CustomerExists(cs, ls[j].customerId)
    ensures forall j :: 0 <= j < |ls| ==> CustomerExists(cs + [c], ls[j].customerId)
  {
    forall j | 0 <= j < |ls| ensures CustomerExists(cs + [c], ls[j].customerId) {
      var i :| 0 <= i < |cs| && cs[i].customerId == ls[j].customerId;
      assert (cs + [c])[i] == cs[i];
    }
  }

  /** Every application linked to a loan is approved at that loan's rate. */
  ghost predicate LinksAtLoanRate(apps: seq<LoanApplication>, ls: seq<Loan>)
  {
    forall i, j :: 0 <= i < |apps| && 0 <= j < |ls| && apps[i].loanId == Some(ls[j].loanId) ==>
      apps[i].status == Approved && apps[i].approvedInterestRate == Some(ls[j].interestRate)
  }

  /**
   * Appending an application and, when it is linked, loans carrying the
   * fresh key it links to, keeps every link at its loan's rate.
   */
  lemma LinksPreserved(apps: seq<LoanApplication>, ls: seq<Loan>, a: LoanApplication, extra: seq<Loan>, next: int)
    requires LinksAtLoanRate(apps, ls)
    requires forall i :: 0 <= i < |apps| && apps[i].loanId.Some? ==> apps[i].loanId.value < next
    requires forall j :: 0 <= j < |ls| ==> ls[j].loanId < next
    requires forall k :: 0 <= k < |extra| ==> extra[k].loanId == next
    requires a.loanId.Some? ==>
               a.loanId == Some(next) && a.status == Approved
               && forall k :: 0 <= k < |extra| ==> a.approvedInterestRate == Some(extra[k].interestRate)
    ensures LinksAtLoanRate(apps + [a], ls + extra)
  {
    var apps', ls' := apps + [a], ls + extra;
    assert forall i :: 0 <= i < |apps| ==> apps'[i] == apps[i];
    assert apps'[|apps|] == a;
    assert forall j :: 0 <= j < |ls| ==> ls'[j] == ls[j];
    assert forall k :: |ls| <= k < |ls'| ==> ls'[k] == extra[k - |ls|];
  }
}
