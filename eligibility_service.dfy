/**
 * The check-eligibility engine: a credit score from a customer's loan
 * history, and the rule chain that turns score, instalment and salary
 * into an approval and a possibly raised interest rate.
 */
module Eligibility {
  import opened Wrappers
  import opened Rounding
  import opened Calendar
  import opened Models

  function Min(a: int, b: int): int
  {
    if a <= b then a else b
  }

  /** Loans in `ls` satisfying `p`. */
  function CountWhere(ls: seq<Loan>, p: Loan -> bool): (n: nat)
    ensures n <= |ls|
  {
    if ls == [] then 0 else (if p(ls[0]) then 1 else 0) + CountWhere(ls[1..], p)
  }

  predicate PaidOnTime(l: Loan)
  {
    l.emisPaidOnTime > 0
  }

  /** Loans in the history with at least one instalment paid on time. */
  function OnTimeCount(ls: seq<Loan>): nat
  {
    CountWhere(ls, PaidOnTime)
  }

  /** Loans in the history that started in `year`. */
  function StartedInCount(ls: seq<Loan>, year: int): nat
  {
    CountWhere(ls, (l: Loan) => Year(l.startDate) == year)
  }

  /** Up to 30 points: int(on-time ratio * 30). */
  function OnTimePoints(ls: seq<Loan>): (p: int)
    requires |ls| > 0
    ensures 0 <= p <= 30
  {
    var k := OnTimeCount(ls);
    ScaledRatio(k, |ls|);
    (30 * k) / |ls|
  }

  /** 30 * k / n lies in 0..30 when k is at most n. */
  lemma ScaledRatio(k: nat, n: nat)
    requires 0 < n && k <= n
    ensures 0 <= (30 * k) / n <= 30
  {
    var q := (30 * k) / n;
    assert n * q <= 30 * k <= 30 * n;
    CancelPositive(n, q, 30);
  }

  lemma CancelPositive(n: int, q: int, c: int)
    requires n > 0 && n * q <= n * c
    ensures q <= c
  {
  }

  /** Up to 20 points: 5 per loan taken. */
  function LoanCountPoints(ls: seq<Loan>): (p: int)
    ensures 0 <= p <= 20
  {
    Min(5 * |ls|, 20)
  }

  /** Up to 20 points: 5 per loan started in the current year. */
  function ActivityPoints(ls: seq<Loan>, year: int): (p: int)
    ensures 0 <= p <= 20
  {
    Min(5 * StartedInCount(ls, year), 20)
  }

  /** Up to 20 points: int(total loan amount / 1 lakh). */
  function VolumePoints(ls: seq<Loan>): (p: int)
    ensures p <= 20
  {
    Min(Trunc(SumAmounts(ls) / Lakh), 20)
  }

  /**
   * `calculate_credit_score`: 50 for an empty history; otherwise the four
   * capped components, capped again at 100 (a cap the components, at most
   * 30 + 20 + 20 + 20, never reach).
   */
  function CreditScore(ls: seq<Loan>, today: Date): (score: int)
    ensures |ls| == 0 ==> score == 50
    ensures score <= 90
  {
    if |ls| == 0 then 50
    else
      Min(OnTimePoints(ls) + LoanCountPoints(ls) + ActivityPoints(ls, Year(today)) + VolumePoints(ls), 100)
  }

  lemma {:induction false} SumAmountsNonNegative(ls: seq<Loan>)
    requires forall i :: 0 <= i < |ls| ==> ls[i].loanAmount >= 0.0
    ensures SumAmounts(ls) >= 0.0
  {
    if ls != [] {
      SumAmountsNonNegative(ls[1..]);
    }
  }

  /** With non-negative loan amounts (as the loan form demands) the score lies in [0, 100]. */
  lemma CreditScoreInRange(ls: seq<Loan>, today: Date)
    requires forall i :: 0 <= i < |ls| ==> ls[i].loanAmount >= 0.0
    ensures 0 <= CreditScore(ls, today) <= 100
  {
    SumAmountsNonNegative(ls);
  }

  // Order independence: the loans come from an unordered query.

  lemma {:induction false} CountWhereConcat(a: seq<Loan>, b: seq<Loan>, p: Loan -> bool)
    ensures CountWhere(a + b, p) == CountWhere(a, p) + CountWhere(b, p)
  {
    if a == [] {
      assert a + b == b;
    } else {
      assert (a + b)[1..] == a[1..] + b;
      CountWhereConcat(a[1..], b, p);
    }
  }

  lemma {:induction false} SumAmountsConcat(a: seq<Loan>, b: seq<Loan>)
    ensures SumAmounts(a + b) == SumAmounts(a) + SumAmounts(b)
  {
    if a == [] {
      assert a + b == b;
    } else {
      assert (a + b)[1..] == a[1..] + b;
      SumAmountsConcat(a[1..], b);
    }
  }

  /** Removing the element at `i` from `b` and putting it first. */
  lemma SplitAt(b: seq<Loan>, i: int)
    requires 0 <= i < |b|
    ensures b == b[..i] + [b[i]] + b[i+1..]
  {
  }

  /** The multiset step shared by both permutation proofs: take a[0] out of b. */
  lemma RemoveFirst(a: seq<Loan>, b: seq<Loan>) returns (i: int)
    requires multiset(a) == multiset(b) && a != []
    ensures 0 <= i < |b| && b[i] == a[0]
    ensures b == b[..i] + [a[0]] + b[i+1..]
    ensures multiset(a[1..]) == multiset(b[..i] + b[i+1..])
  {
    var x := a[0];
    assert x in multiset(b);
    i :| 0 <= i < |b| && b[i] == x;
    var rest := b[..i] + b[i+1..];
    SplitAt(b, i);
    assert b == b[..i] + ([x] + b[i+1..]);
    assert a == [x] + a[1..];
    assert multiset(b) == multiset(b[..i]) + multiset{x} + multiset(b[i+1..]);
    assert multiset(rest) == multiset(b[..i]) + multiset(b[i+1..]);
    assert multiset(a) == multiset{x} + multiset(a[1..]);
    assert multiset(a[1..]) == multiset(a) - multiset{x};
    assert multiset(rest) == multiset(b) - multiset{x};
  }

  lemma {:induction false} CountPermutation(a: seq<Loan>, b: seq<Loan>, p: Loan -> bool)
    requires multiset(a) == multiset(b)
    ensures CountWhere(a, p) == CountWhere(b, p)
    decreases |a|
  {
    if a == [] {
      assert |b| == |multiset(b)| == 0;
    } else {
      var i := RemoveFirst(a, b);
      var x := a[0];
      CountPermutation(a[1..], b[..i] + b[i+1..], p);
      CountWhereConcat(b[..i], [x] + b[i+1..], p);
      CountWhereConcat([x], b[i+1..], p);
      CountWhereConcat(b[..i], b[i+1..], p);
      CountWhereConcat([x], a[1..], p);
      assert b == b[..i] + ([x] + b[i+1..]);
      assert a == [x] + a[1..];
    }
  }

  lemma {:induction false} SumPermutation(a: seq<Loan>, b: seq<Loan>)
    requires multiset(a) == multiset(b)
    ensures SumAmounts(a) == SumAmounts(b)
    decreases |a|
  {
    if a == [] {
      assert |b| == |multiset(b)| == 0;
    } else {
      var i := RemoveFirst(a, b);
      var x := a[0];
      SumPermutation(a[1..], b[..i] + b[i+1..]);
      SumAmountsConcat(b[..i], [x] + b[i+1..]);
      SumAmountsConcat([x], b[i+1..]);
      SumAmountsConcat(b[..i], b[i+1..]);
      SumAmountsConcat([x], a[1..]);
      assert b == b[..i] + ([x] + b[i+1..]);
      assert a == [x] + a[1..];
    }
  }

  /** The score does not depend on the order in which the loans are listed. */
  lemma CreditScoreOrderIndependent(a: seq<Loan>, b: seq<Loan>, today: Date)
    requires multiset(a) == multiset(b)
    ensures CreditScore(a, today) == CreditScore(b, today)
  {
    assert |a| == |multiset(a)| == |multiset(b)| == |b|;
    CountPermutation(a, b, PaidOnTime);
    CountPermutation(a, b, (l: Loan) => Year(l.startDate) == Year(today));
    SumPermutation(a, b);
  }

  // ---------------------------------------------------------------------
  // evaluate_loan
  // ---------------------------------------------------------------------

  datatype CheckDecision = CheckDecision(
    approved: bool,
    creditScore: int,
    interestRate: real,
    correctedInterestRate: Option<real>,
    monthlyInstallment: real)

  /** Score the rules use: forced to 0 when the active principal exceeds the approved limit. */
  function ScoreUsed(c: Customer, ls: seq<Loan>, today: Date): (s: int)
    ensures CurrentLoansSum(ls, today) > c.approvedLimit ==> s == 0
    ensures CurrentLoansSum(ls, today) <= c.approvedLimit ==> s == CreditScore(ls, today)
  {
    if CurrentLoansSum(ls, today) > c.approvedLimit then 0 else CreditScore(ls, today)
  }

  /** Half of the monthly salary: the most all instalments together may take. */
  function HalfSalary(monthlySalary: real): real
  {
    0.5 * monthlySalary
  }

  /**
   * The rule chain after score and instalment are known: the
   * affordability gate over existing plus new instalments, then the score
   * tiers, which may raise a low rate to the tier's minimum.
   */
  function Decide(score: int, existingEmis: real, emi: real, monthlySalary: real, rate: real): (d: CheckDecision)
    ensures d.creditScore == score && d.interestRate == rate && d.monthlyInstallment == emi
    ensures d.approved <==> existingEmis + emi <= HalfSalary(monthlySalary) && score > 10
    ensures d.correctedInterestRate.None? <==> existingEmis + emi > HalfSalary(monthlySalary)
    ensures d.correctedInterestRate.Some? ==> d.correctedInterestRate.value >= rate
    ensures d.correctedInterestRate.Some? && d.correctedInterestRate.value != rate ==>
              (30 < score <= 50 && rate <= 12.0 && d.correctedInterestRate.value == 12.1)
              || (10 < score <= 30 && rate <= 16.0 && d.correctedInterestRate.value == 16.1)
  {
    if existingEmis + emi > HalfSalary(monthlySalary) then
      CheckDecision(false, score, rate, None, emi)
    else if score > 50 then
      CheckDecision(true, score, rate, Some(rate), emi)
    else if 30 < score <= 50 then
      CheckDecision(true, score, rate, Some(if rate <= 12.0 then 12.1 else rate), emi)
    else if 10 < score <= 30 then
      CheckDecision(true, score, rate, Some(if rate <= 16.0 then 16.1 else rate), emi)
    else
      CheckDecision(false, score, rate, Some(rate), emi)
  }

  /** Each tier's minimum rate: a rate at or below the tier's floor is raised just above it. */
  lemma TierRates(score: int, existingEmis: real, emi: real, monthlySalary: real, rate: real)
    requires existingEmis + emi <= HalfSalary(monthlySalary)
    ensures var d := Decide(score, existingEmis, emi, monthlySalary, rate);
            && (score > 50 ==> d.correctedInterestRate == Some(rate))
            && (30 < score <= 50 ==> d.correctedInterestRate == Some(if rate <= 12.0 then 12.1 else rate))
            && (10 < score <= 30 ==> d.correctedInterestRate == Some(if rate <= 16.0 then 16.1 else rate))
            && (score <= 10 ==> !d.approved && d.correctedInterestRate == Some(rate))
  {
  }

  /**
   * `evaluate_loan`: `None` when the instalment divides by zero (the
   * request then fails with an exception).
   */
  function EvaluateLoan(c: Customer, ls: seq<Loan>, today: Date, loanAmount: real, rate: real, tenure: int)
    : (d: Option<CheckDecision>)
    ensures d.None? <==> EmiFor(loanAmount, rate, tenure).None?
    ensures d.Some? ==> d.value == Decide(ScoreUsed(c, ls, today), CurrentEmisSum(ls, today),
                                          EmiFor(loanAmount, rate, tenure).value, c.monthlySalary, rate)
  {
    match EmiFor(loanAmount, rate, tenure)
    case None => None
    case Some(emi) => Some(Decide(ScoreUsed(c, ls, today), CurrentEmisSum(ls, today), emi, c.monthlySalary, rate))
  }

  lemma {:induction false} SumRepaymentsNonNegative(ls: seq<Loan>)
    requires forall i :: 0 <= i < |ls| ==> ls[i].monthlyRepayment >= 0.0
    ensures SumRepayments(ls) >= 0.0
  {
    if ls != [] {
      SumRepaymentsNonNegative(ls[1..]);
    }
  }

  /** A customer already over the approved limit is never approved. */
  lemma OverLimitNeverApproved(c: Customer, ls: seq<Loan>, today: Date, loanAmount: real, rate: real, tenure: int)
    requires CurrentLoansSum(ls, today) > c.approvedLimit
    ensures var d := EvaluateLoan(c, ls, today, loanAmount, rate, tenure);
            d.Some? ==> !d.value.approved && d.value.creditScore == 0
  {
  }

  /**
   * An instalment that alone exceeds half the salary is rejected whatever
   * the score, when existing instalments are non-negative.
   */
  lemma UnaffordableRejected(c: Customer, ls: seq<Loan>, today: Date, loanAmount: real, rate: real, tenure: int)
    requires forall i :: 0 <= i < |ls| ==> ls[i].monthlyRepayment >= 0.0
    requires EmiFor(loanAmount, rate, tenure).Some?
    requires EmiFor(loanAmount, rate, tenure).value > HalfSalary(c.monthlySalary)
    ensures var d := EvaluateLoan(c, ls, today, loanAmount, rate, tenure).value;
            !d.approved && d.correctedInterestRate.None?
  {
    var active := ActiveLoans(ls, today);
    forall i | 0 <= i < |active| ensures active[i].monthlyRepayment >= 0.0 {
      assert active[i] in ls;
    }
    SumRepaymentsNonNegative(active);
  }
}
