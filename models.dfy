/**
 * The records of the credit system and the quantities derived from them:
 * a customer's approved limit, a loan's instalment and repayments left,
 * the sums over a customer's active loans, and the table of cached credit
 * scores, in which at most one score per customer is current.
 */
module Models {
  import opened Wrappers
  import opened Rounding
  import opened Emi
  import opened Calendar

  const Lakh: real := 100000.0

  datatype Customer = Customer(
    customerId: int,
    firstName: string,
    lastName: string,
    age: int,
    phoneNumber: int,
    monthlySalary: real,
    approvedLimit: real,   // 0.0 while unset
    currentDebt: real)

  datatype Loan = Loan(
    loanId: int,
    customerId: int,
    loanAmount: real,
    tenure: int,           // months
    interestRate: real,    // annual, in percent
    monthlyRepayment: real,  // 0.0 while unset
    emisPaidOnTime: int,
    startDate: Date,
    endDate: Date)

  datatype ApplicationStatus = Pending | Approved | Rejected

  datatype LoanApplication = LoanApplication(
    applicationId: int,
    customerId: int,
    loanId: Option<int>,
    requestedAmount: real,
    requestedInterestRate: real,
    requestedTenure: int,
    status: ApplicationStatus,
    approvedAmount: Option<real>,
    approvedInterestRate: Option<real>,
    correctedInterestRate: Option<real>,
    monthlyInstallment: Option<real>,
    rejectionMessage: Option<string>,
    creditScoreAtApplication: Option<int>)

  // ---------------------------------------------------------------------
  // Customer
  // ---------------------------------------------------------------------

  /** `x` is a whole number of lakhs. */
  predicate WholeLakhs(x: real)
  {
    (x / Lakh).Floor as real * Lakh == x
  }

  /** 36 monthly salaries rounded to the nearest lakh, a half lakh to even. */
  function ApprovedLimitFor(monthlySalary: real): (limit: real)
    ensures WholeLakhs(limit)
    ensures 36.0 * monthlySalary - Lakh / 2.0 <= limit <= 36.0 * monthlySalary + Lakh / 2.0
  {
    var k := RoundHalfEven(36.0 * monthlySalary / Lakh);
    assert (k as real * Lakh / Lakh).Floor == k;
    k as real * Lakh
  }

  /** `Customer.save`: fills the approved limit only while it is unset (zero). */
  function SaveCustomer(c: Customer): (saved: Customer)
    ensures c.approvedLimit != 0.0 ==> saved == c
    ensures c.approvedLimit == 0.0 ==> saved == c.(approvedLimit := ApprovedLimitFor(c.monthlySalary))
  {
    if c.approvedLimit == 0.0 then c.(approvedLimit := ApprovedLimitFor(c.monthlySalary)) else c
  }

  /** Saving twice is saving once: the derived limit is never recomputed into something else. */
  lemma SaveCustomerIdempotent(c: Customer)
    ensures SaveCustomer(SaveCustomer(c)) == SaveCustomer(c)
    ensures SaveCustomer(c).approvedLimit == c.approvedLimit || WholeLakhs(SaveCustomer(c).approvedLimit)
  {
  }

  /** The worked examples: 50000 gives 18 lakh; 12500 gives 4.5 lakh, which rounds to 4. */
  lemma ApprovedLimitExamples()
    ensures ApprovedLimitFor(50000.0) == 1800000.0
    ensures ApprovedLimitFor(12500.0) == 400000.0
    ensures ApprovedLimitFor(37500.0) == 1400000.0
  {
    RoundHalfEvenOfInt(18);
    assert 36.0 * 12500.0 / Lakh == 4.5;
    assert 36.0 * 37500.0 / Lakh == 13.5;
  }

  // ---------------------------------------------------------------------
  // Loan
  // ---------------------------------------------------------------------

  /**
   * `Loan.calculate_emi`: the unrounded principal / tenure at zero rate,
   * otherwise the annuity instalment rounded to paise.  `None` when the
   * computation divides by zero.
   */
  function EmiFor(principal: real, annualRatePercent: real, tenure: int): (emi: Option<real>)
    ensures emi.None? <==> ExactEmi(principal, annualRatePercent, tenure).None?
    ensures annualRatePercent == 0.0 && tenure != 0 ==> emi == Some(principal / tenure as real)
    ensures annualRatePercent != 0.0 && emi.Some? ==>
              emi.value == Round2(ExactEmi(principal, annualRatePercent, tenure).value)
  {
    match ExactEmi(principal, annualRatePercent, tenure)
    case None => None
    case Some(e) => if MonthlyRate(annualRatePercent) == 0.0 then Some(e) else Some(Round2(e))
  }

  /** `Loan.save`: fills the instalment from `calculate_emi` of the loan's own terms only while it is unset (zero). */
  function SaveLoan(l: Loan): (saved: Option<Loan>)
    ensures l.monthlyRepayment != 0.0 ==> saved == Some(l)
    ensures l.monthlyRepayment == 0.0 ==>
              var emi := EmiFor(l.loanAmount, l.interestRate, l.tenure);
              saved == (if emi.None? then None else Some(l.(monthlyRepayment := emi.value)))
  {
    if l.monthlyRepayment != 0.0 then Some(l)
    else
      match EmiFor(l.loanAmount, l.interestRate, l.tenure)
      case None => None
      case Some(e) => Some(l.(monthlyRepayment := e))
  }

  /** Instalments still due on `today`. */
  function RepaymentsLeft(l: Loan, today: Date): (left: int)
    ensures OnOrAfter(today, l.endDate) ==> left == 0
    ensures l.tenure >= 0 ==> 0 <= left <= l.tenure
  {
    if OnOrAfter(today, l.endDate) then 0
    else
      var monthsPassed := MonthsBetween(l.startDate, today);
      if monthsPassed < 0 then l.tenure
      else if l.tenure - monthsPassed > 0 then l.tenure - monthsPassed else 0
  }

  /** `repayments_left > 0`: only a loan with a positive tenure, before its end date, is active. */
  predicate IsActive(l: Loan, today: Date)
    ensures IsActive(l, today) ==> !OnOrAfter(today, l.endDate) && l.tenure >= 1
  {
    RepaymentsLeft(l, today) > 0
  }

  /** A loan that starts today and ends 30 days per month of tenure later owes its whole tenure. */
  lemma FreshLoanOwesWholeTenure(l: Loan, today: Date)
    requires l.tenure >= 1 && l.startDate == today && l.endDate == AddDays(today, 30 * l.tenure)
    ensures RepaymentsLeft(l, today) == l.tenure
    ensures IsActive(l, today)
  {
  }

  function TotalAmountPayable(l: Loan): (total: real)
    ensures l.monthlyRepayment >= 0.0 && l.tenure >= 0 ==> total >= 0.0
    ensures l.tenure == 0 ==> total == 0.0
  {
    NonNegativeProduct(if l.monthlyRepayment >= 0.0 then l.monthlyRepayment else 0.0, if l.tenure >= 0 then l.tenure as real else 0.0);
    l.monthlyRepayment * l.tenure as real
  }

  function TotalInterest(l: Loan): (interest: real)
    ensures interest + l.loanAmount == TotalAmountPayable(l)
  {
    TotalAmountPayable(l) - l.loanAmount
  }

  /** Instalments of `m` already paid when `left` of `tenure` remain. */
  function PaidOf(m: real, tenure: int, left: int): real
  {
    m * (tenure - left) as real
  }

  /** Instalments of `m` still owed when `left` remain. */
  function OwedOf(m: real, left: int): real
  {
    m * left as real
  }

  /** `amount_paid_so_far`: the whole amount once the end date has come. */
  function AmountPaidSoFar(l: Loan, today: Date): (paid: real)
    ensures OnOrAfter(today, l.endDate) ==> paid == TotalAmountPayable(l)
  {
    var left := RepaymentsLeft(l, today);
    SplitOfPayable(l.monthlyRepayment, l.tenure, left);
    PaidOf(l.monthlyRepayment, l.tenure, left)
  }

  /** `remaining_amount`: nothing once the end date has come. */
  function RemainingAmount(l: Loan, today: Date): (remaining: real)
    ensures OnOrAfter(today, l.endDate) ==> remaining == 0.0
  {
    var left := RepaymentsLeft(l, today);
    SplitOfPayable(l.monthlyRepayment, l.tenure, left);
    OwedOf(l.monthlyRepayment, left)
  }

  /**
   * Paid and owed split the whole `m * tenure`; with a non-negative instalment and `0 <= left <= tenure`
   * each part lies between nothing and the whole.  `AmountPaidSoFar` and `RemainingAmount` are this split
   * at `left == RepaymentsLeft(l, today)`, which lies in that range and is 0 from the end date on.
   */
  lemma SplitOfPayable(m: real, tenure: int, left: int)
    ensures PaidOf(m, tenure, left) + OwedOf(m, left) == m * tenure as real
    ensures m >= 0.0 && 0 <= left <= tenure ==>
              0.0 <= PaidOf(m, tenure, left) <= m * tenure as real &&
              0.0 <= OwedOf(m, left) <= m * tenure as real
    ensures left == 0 ==> OwedOf(m, left) == 0.0 && PaidOf(m, tenure, left) == m * tenure as real
  {
    if m >= 0.0 && 0 <= left <= tenure {
      NonNegativeProduct(m, left as real);
      NonNegativeProduct(m, (tenure - left) as real);
    }
  }

  lemma NonNegativeProduct(a: real, b: real)
    requires a >= 0.0 && b >= 0.0
    ensures a * b >= 0.0
  {
  }

  // ---------------------------------------------------------------------
  // Sums over a customer's active loans
  // ---------------------------------------------------------------------

  /** The loans with repayments left on `today`, in their original order. */
  function ActiveLoans(ls: seq<Loan>, today: Date): (active: seq<Loan>)
    ensures |active| <= |ls|
    ensures forall l :: l in active <==> l in ls && IsActive(l, today)
  {
    if ls == [] then []
    else if IsActive(ls[0], today) then [ls[0]] + ActiveLoans(ls[1..], today)
    else ActiveLoans(ls[1..], today)
  }

  function SumAmounts(ls: seq<Loan>): real
  {
    if ls == [] then 0.0 else ls[0].loanAmount + SumAmounts(ls[1..])
  }

  function SumRepayments(ls: seq<Loan>): real
  {
    if ls == [] then 0.0 else ls[0].monthlyRepayment + SumRepayments(ls[1..])
  }

  /** `Customer.get_current_loans_sum`: with non-negative principals, between 0 and the whole history's principal. */
  function CurrentLoansSum(ls: seq<Loan>, today: Date): (s: real)
    ensures (forall i :: 0 <= i < |ls| ==> ls[i].loanAmount >= 0.0) ==> 0.0 <= s <= SumAmounts(ls)
  {
    ActiveAmountsBounded(ls, today);
    SumAmounts(ActiveLoans(ls, today))
  }

  /** `Customer.get_current_emis_sum`: with non-negative instalments, between 0 and the whole history's instalments. */
  function CurrentEmisSum(ls: seq<Loan>, today: Date): (s: real)
    ensures (forall i :: 0 <= i < |ls| ==> ls[i].monthlyRepayment >= 0.0) ==> 0.0 <= s <= SumRepayments(ls)
  {
    ActiveRepaymentsBounded(ls, today);
    SumRepayments(ActiveLoans(ls, today))
  }

  lemma {:induction false} ActiveAmountsBounded(ls: seq<Loan>, today: Date)
    ensures (forall i :: 0 <= i < |ls| ==> ls[i].loanAmount >= 0.0) ==>
              0.0 <= SumAmounts(ActiveLoans(ls, today)) <= SumAmounts(ls)
  {
    if ls != [] {
      ActiveAmountsBounded(ls[1..], today);
    }
  }

  lemma {:induction false} ActiveRepaymentsBounded(ls: seq<Loan>, today: Date)
    ensures (forall i :: 0 <= i < |ls| ==> ls[i].monthlyRepayment >= 0.0) ==>
              0.0 <= SumRepayments(ActiveLoans(ls, today)) <= SumRepayments(ls)
  {
    if ls != [] {
      ActiveRepaymentsBounded(ls[1..], today);
    }
  }

  /**
   * Adding a loan adds its principal and instalment to the current sums
   * exactly when it is active, and nothing otherwise.
   */
  lemma {:induction false} CurrentSumsAppend(ls: seq<Loan>, l: Loan, today: Date)
    ensures CurrentLoansSum(ls + [l], today)
            == CurrentLoansSum(ls, today) + (if IsActive(l, today) then l.loanAmount else 0.0)
    ensures CurrentEmisSum(ls + [l], today)
            == CurrentEmisSum(ls, today) + (if IsActive(l, today) then l.monthlyRepayment else 0.0)
  {
    if ls == [] {
      assert [] + [l] == [l];
      assert [l][1..] == [];
    } else {
      assert (ls + [l])[0] == ls[0];
      assert (ls + [l])[1..] == ls[1..] + [l];
      CurrentSumsAppend(ls[1..], l, today);
    }
  }

  /** A history without active loans owes nothing now. */
  lemma {:induction false} NoActiveLoansSumToZero(ls: seq<Loan>, today: Date)
    requires forall i :: 0 <= i < |ls| ==> !IsActive(ls[i], today)
    ensures CurrentLoansSum(ls, today) == 0.0 && CurrentEmisSum(ls, today) == 0.0
  {
    if ls != [] {
      NoActiveLoansSumToZero(ls[1..], today);
    }
  }

  // ---------------------------------------------------------------------
  // Cached credit scores
  // ---------------------------------------------------------------------

  datatype CreditScoreRecord = CreditScoreRecord(
    pk: Option<int>,       // None until the record is first saved
    customerId: int,
    score: int,
    pastLoansScore: real,
    loanCountScore: real,
    currentYearActivityScore: real,
    loanVolumeScore: real,
    isCurrent: bool)

  /** Every stored record has a key, and no two share one. */
  predicate StoredKeys(rs: seq<CreditScoreRecord>)
  {
    && (forall i :: 0 <= i < |rs| ==> rs[i].pk.Some?)
    && (forall i, j :: 0 <= i < j < |rs| ==> rs[i].pk != rs[j].pk)
  }

  /** At most one current score per customer. */
  predicate AtMostOneCurrent(rs: seq<CreditScoreRecord>)
  {
    forall i, j :: 0 <= i < j < |rs| && rs[i].isCurrent && rs[j].isCurrent ==> rs[i].customerId != rs[j].customerId
  }

  /** The update of one row by `filter(customer=c, is_current=True).exclude(pk=keep).update(is_current=False)`. */
  function DemoteOne(r: CreditScoreRecord, customerId: int, keep: Option<int>): CreditScoreRecord
  {
    if r.customerId == customerId && r.isCurrent && r.pk != keep then r.(isCurrent := false) else r
  }

  function Demote(rs: seq<CreditScoreRecord>, customerId: int, keep: Option<int>): (out: seq<CreditScoreRecord>)
    ensures |out| == |rs|
    ensures forall i :: 0 <= i < |rs| && rs[i].customerId != customerId ==> out[i] == rs[i]
    ensures forall i :: 0 <= i < |rs| && out[i].customerId == customerId && out[i].isCurrent ==> out[i].pk == keep
  {
    seq(|rs|, i requires 0 <= i < |rs| => DemoteOne(rs[i], customerId, keep))
  }

  /** Position of the record with key `pk`, if any. */
  function IndexOfKey(rs: seq<CreditScoreRecord>, pk: int): (k: Option<nat>)
    ensures k.Some? ==> k.value < |rs| && rs[k.value].pk == Some(pk)
    ensures k.None? ==> forall i :: 0 <= i < |rs| ==> rs[i].pk != Some(pk)
  {
    if rs == [] then None
    else if rs[0].pk == Some(pk) then Some(0)
    else match IndexOfKey(rs[1..], pk)
      case None => None
      case Some(k) => Some(k + 1)
  }

  /** The row write of `save()`: UPDATE the record with that key, or INSERT it. */
  function Upsert(rs: seq<CreditScoreRecord>, r: CreditScoreRecord): (out: seq<CreditScoreRecord>)
    requires r.pk.Some?
    ensures r in out
    ensures |out| == |rs| || |out| == |rs| + 1
    ensures forall i :: 0 <= i < |rs| && rs[i].pk != r.pk ==> out[i] == rs[i]
    ensures forall i :: |rs| <= i < |out| ==> out[i] == r
  {
    match IndexOfKey(rs, r.pk.value)
    case Some(k) => assert rs[k := r][k] == r; rs[k := r]
    case None => assert (rs + [r])[|rs|] == r; rs + [r]
  }

  /**
   * The table after `CreditScore.save` of `stored` (carrying its key), where
   * `keep` is the key the object had before saving (None for a new one).
   */
  function AfterSave(rs: seq<CreditScoreRecord>, stored: CreditScoreRecord, keep: Option<int>): (out: seq<CreditScoreRecord>)
    requires stored.pk.Some?
    ensures stored in out
    ensures forall i :: 0 <= i < |rs| && rs[i].customerId != stored.customerId && rs[i].pk != stored.pk ==>
              i < |out| && out[i] == rs[i]
  {
    Upsert(if stored.isCurrent then Demote(rs, stored.customerId, keep) else rs, stored)
  }

  /** The score of the first current record of a customer: `credit_scores.filter(is_current=True).first()`. */
  function CurrentScore(rs: seq<CreditScoreRecord>, customerId: int): (s: Option<int>)
    ensures s.Some? <==> exists i :: 0 <= i < |rs| && rs[i].customerId == customerId && rs[i].isCurrent
    ensures s.Some? ==> exists i :: 0 <= i < |rs| && rs[i].customerId == customerId && rs[i].isCurrent && rs[i].score == s.value
  {
    if rs == [] then None
    else if rs[0].customerId == customerId && rs[0].isCurrent then Some(rs[0].score)
    else
      var rest := CurrentScore(rs[1..], customerId);
      assert forall i :: 1 <= i < |rs| ==> rs[i] == rs[1..][i - 1];
      rest
  }

  /**
   * With at most one current record per customer, the first current record
   * is the only one: every current record of the customer carries the score
   * `CurrentScore` returns, whatever the order of the rows.
   */
  lemma {:induction false} CurrentScoreIsTheCurrentRecord(rs: seq<CreditScoreRecord>, customerId: int, i: int)
    requires AtMostOneCurrent(rs)
    requires 0 <= i < |rs| && rs[i].customerId == customerId && rs[i].isCurrent
    ensures CurrentScore(rs, customerId) == Some(rs[i].score)
  {
    if i > 0 {
      if rs[0].customerId == customerId && rs[0].isCurrent {
        assert false;
      }
      assert forall a, b :: 0 <= a < b < |rs[1..]| ==> rs[1..][a] == rs[a + 1] && rs[1..][b] == rs[b + 1];
      CurrentScoreIsTheCurrentRecord(rs[1..], customerId, i - 1);
    }
  }

  /** Demotion leaves no current record of the customer except the kept key, and touches nothing else. */
  lemma DemoteEffect(rs: seq<CreditScoreRecord>, customerId: int, keep: Option<int>)
    ensures |Demote(rs, customerId, keep)| == |rs|
    ensures forall i :: 0 <= i < |rs| ==>
              var d := Demote(rs, customerId, keep)[i];
              d.pk == rs[i].pk && d.customerId == rs[i].customerId && d.score == rs[i].score
              && (d.isCurrent <==> rs[i].isCurrent && (rs[i].customerId != customerId || rs[i].pk == keep))
              && d == rs[i].(isCurrent := d.isCurrent)
  {
  }

  /**
   * After saving a current score, it is the customer's only current record,
   * and the customer's current score is its score.
   */
  lemma SavedCurrentIsSole(rs: seq<CreditScoreRecord>, stored: CreditScoreRecord, keep: Option<int>)
    requires StoredKeys(rs)
    requires stored.isCurrent && stored.pk.Some? && (keep.None? || keep == stored.pk)
    ensures var after := AfterSave(rs, stored, keep);
            && stored in after
            && (forall i :: 0 <= i < |after| && after[i].customerId == stored.customerId && after[i].isCurrent ==>
                  after[i] == stored)
            && CurrentScore(after, stored.customerId) == Some(stored.score)
  {
    var c := stored.customerId;
    var d := Demote(rs, c, keep);
    DemoteEffect(rs, c, keep);
    var after := AfterSave(rs, stored, keep);
    match IndexOfKey(d, stored.pk.value)
    case Some(k) =>
      assert after == d[k := stored];
      assert rs[k].pk == stored.pk;
      forall i | 0 <= i < |rs| && i != k
        ensures rs[i].pk != keep
      {
        if i < k { assert rs[i].pk != rs[k].pk; } else { assert rs[k].pk != rs[i].pk; }
      }
      assert after[k] == stored;
    case None =>
      assert after == d + [stored];
      assert forall i :: 0 <= i < |rs| ==> d[i].pk != stored.pk;
      assert forall i :: 0 <= i < |rs| ==> rs[i].pk != keep;
      assert after[|d|] == stored;
  }

  /** Writing a row keeps the keys present and distinct. */
  lemma UpsertKeepsKeys(rs: seq<CreditScoreRecord>, r: CreditScoreRecord, bound: int)
    requires StoredKeys(rs) && r.pk.Some?
    ensures StoredKeys(Upsert(rs, r))
    ensures r.pk.value < bound && (forall i :: 0 <= i < |rs| ==> rs[i].pk.value < bound) ==>
              forall i :: 0 <= i < |Upsert(rs, r)| ==> Upsert(rs, r)[i].pk.value < bound
  {
    match IndexOfKey(rs, r.pk.value)
    case Some(k) =>
      assert Upsert(rs, r) == rs[k := r];
    case None =>
      assert Upsert(rs, r) == rs + [r];
  }

  /** Saving a score never leaves a customer with two current scores. */
  lemma SavePreservesAtMostOneCurrent(rs: seq<CreditScoreRecord>, stored: CreditScoreRecord, keep: Option<int>)
    requires StoredKeys(rs) && AtMostOneCurrent(rs)
    requires stored.pk.Some? && (keep.None? || keep == stored.pk)
    ensures AtMostOneCurrent(AfterSave(rs, stored, keep))
  {
    var base := if stored.isCurrent then Demote(rs, stored.customerId, keep) else rs;
    DemoteEffect(rs, stored.customerId, keep);
    assert |base| == |rs|;
    assert forall i :: 0 <= i < |rs| ==>
        (base[i].pk == rs[i].pk && base[i].customerId == rs[i].customerId && (base[i].isCurrent ==> rs[i].isCurrent));
    assert AtMostOneCurrent(base);
    var after := AfterSave(rs, stored, keep);
    if stored.isCurrent {
      SavedCurrentIsSole(rs, stored, keep);
    }
    match IndexOfKey(base, stored.pk.value)
    case Some(k) =>
      assert after == base[k := stored];
    case None =>
      assert after == base + [stored];
  }

  /** Records of other customers, with other keys, are left exactly as they were. */
  lemma SaveLeavesOthersAlone(rs: seq<CreditScoreRecord>, stored: CreditScoreRecord, keep: Option<int>, i: int)
    requires stored.pk.Some? && 0 <= i < |rs|
    requires rs[i].customerId != stored.customerId && rs[i].pk != stored.pk
    ensures i < |AfterSave(rs, stored, keep)| && AfterSave(rs, stored, keep)[i] == rs[i]
  {
    var base := if stored.isCurrent then Demote(rs, stored.customerId, keep) else rs;
    assert base[i] == rs[i];
    match IndexOfKey(base, stored.pk.value)
    case Some(k) =>
    case None =>
  }

  /** The cached-score table: `CreditScore` rows updated in place by `save`. */
  class CreditScoreTable {
    var records: seq<CreditScoreRecord>
    var nextPk: int

    /** Keys are present, distinct and below the counter; `unique_together = [customer, is_current]`. */
    ghost predicate Valid()
      reads this
    {
      && StoredKeys(records)
      && (forall i :: 0 <= i < |records| ==> records[i].pk.value < nextPk)
      && AtMostOneCurrent(records)
    }

    constructor ()
      ensures Valid() && records == []
    {
      records := [];
      nextPk := 1;
    }

    /**
     * `CreditScore.save`: when the record is current, first demote every
     * other current record of the same customer, then write the record
     * (a new record gets the next key).
     */
    method Save(r: CreditScoreRecord) returns (stored: CreditScoreRecord)
      requires Valid()
      modifies this
      ensures Valid()
      ensures stored == (if r.pk.Some? then r else r.(pk := Some(old(nextPk))))
      ensures records == AfterSave(old(records), stored, r.pk)
      ensures stored.isCurrent ==> CurrentScore(records, stored.customerId) == Some(stored.score)
    {
      ghost var before := records;
      if r.isCurrent {
        DemoteOthers(r.customerId, r.pk);
      }
      stored := if r.pk.Some? then r else r.(pk := Some(nextPk));
      records := Upsert(records, stored);
      if stored.pk.value >= nextPk {
        nextPk := stored.pk.value + 1;
      }
      AfterSaveKeys(before, stored, r.pk, nextPk);
      SavePreservesAtMostOneCurrent(before, stored, r.pk);
      if stored.isCurrent {
        SavedCurrentIsSole(before, stored, r.pk);
      }
    }

    /** The bulk update: every current record of the customer except key `keep` stops being current. */
    method DemoteOthers(customerId: int, keep: Option<int>)
      modifies this`records
      ensures records == Demote(old(records), customerId, keep)
    {
      ghost var before := records;
      var i := 0;
      while i < |records|
        invariant 0 <= i <= |records| == |before|
        invariant forall j :: 0 <= j < i ==> records[j] == DemoteOne(before[j], customerId, keep)
        invariant forall j :: i <= j < |records| ==> records[j] == before[j]
      {
        if records[i].customerId == customerId && records[i].isCurrent && records[i].pk != keep {
          records := records[i := records[i].(isCurrent := false)];
        }
        i := i + 1;
      }
    }
  }

  /** Saving keeps every key present, distinct and below the key counter. */
  lemma AfterSaveKeys(rs: seq<CreditScoreRecord>, stored: CreditScoreRecord, keep: Option<int>, bound: int)
    requires StoredKeys(rs) && stored.pk.Some? && stored.pk.value < bound
    requires forall i :: 0 <= i < |rs| ==> rs[i].pk.value < bound
    ensures StoredKeys(AfterSave(rs, stored, keep))
    ensures forall i :: 0 <= i < |AfterSave(rs, stored, keep)| ==> AfterSave(rs, stored, keep)[i].pk.value < bound
  {
    DemoteEffect(rs, stored.customerId, keep);
    var base := if stored.isCurrent then Demote(rs, stored.customerId, keep) else rs;
    assert forall i :: 0 <= i < |base| ==> base[i].pk == rs[i].pk;
    UpsertKeepsKeys(base, stored, bound);
  }
}
