# Credit system: a verified Dafny model

This project models the decision core of a small Django loan service. The service:

- registers customers and derives each one's approved credit limit;
- scores a customer's loan history;
- answers eligibility checks;
- creates loans through a second, different rule chain and records every application;
- shows loans, alone or per customer.

The database tables become records (`datatype`s) held in sequences. The
calls that change them become methods of two classes:

- `Models.CreditScoreTable`: the cached credit scores, updated in place by `save`.
- `Views.Store`: customers, loans and loan applications, as the endpoints read and write them.

The pure rules stay functions. These are the credit score, the EMI (equated
monthly instalment), both gate cascades, the derived loan quantities and the
registration checks. Their properties are proved as postconditions and lemmas.

Modules and files:

| file | module | contents |
|---|---|---|
| `wrappers.dfy` | `Wrappers` | `Option` |
| `rounding.dfy` | `Rounding` | floor, truncation toward zero, round-half-even to integers and to paise |
| `emi.dfy` | `Emi` | the exact instalment over reals, its zero-division cases, and its annuity identity and monotonicity |
| `calendar.dfy` | `Calendar` | dates as day ordinals; year and month by the civil-from-days algorithm |
| `models.dfy` | `Models` | customers, loans, applications, the derived quantities, and the score table |
| `eligibility_service.dfy` | `Eligibility` | the credit score and the check-eligibility rule chain |
| `serializers.dfy` | `Serializers` | the registration validators and `create`, and `get_is_approved` |
| `views.dfy` | `Views` | the endpoints: register, check eligibility, create loan, view loan, view loans by customer |

How values are represented:

- Money and rates are `real`, so the model computes exactly.
- Python's `round` and `Decimal.quantize` to two places are one half-even rounding, `Rounding.Round2`.
- The integer `round` used for the approved limit is `Rounding.RoundHalfEven`.
- `int()` on a float is `Rounding.Trunc`.
- A ZeroDivisionError in the instalment formula is `None`. The cases are: a zero tenure; a growth factor `(1+r)^n` equal to 1; and `0.0` raised to a negative power. The endpoints answer `None` with a server error and write nothing.
- `date.today()` is a parameter `today`.
- `timedelta(days=k)` adds `k` to the ordinal.

Behaviour of the code worth knowing, which the model follows:

- `create_loan` (`views.py:102-164`) never writes the customer's `current_debt`.
- Applications are written directly as `APPROVED` or `REJECTED`. The `PENDING` status, the field's default (`models.py:197-219`), is never written.
- The score's docstring gives its range as 0 to 100, and `eligibility_service.py:38-39` caps it at 100. The four components add up to at most 90, so the cap never applies (`Eligibility.CreditScore`).
- The volume component truncates toward zero, so negative loan amounts could push the score below 0. The loan-amount validator is not enforced when a loan is saved, so the lower bound holds only for non-negative amounts (`Eligibility.CreditScoreInRange`).
- `check_eligibility` validates its request with `LoanEligibilityRequestSerializer` (`serializers.py:55-59`), and `create_loan` does not. A complete request is refused by the first and accepted by the second when it has more than 10 digits before the point in the amount, more than 3 in the rate, or more than two decimal places in either.

## Model

| member | source | states |
|---|---|---|
| Rounding.Trunc | credit_system/loans/services/eligibility_service.py:24 | `int()` truncates toward zero: the floor for non-negative values, and the result is within one of the value, toward zero, in absolute value |
| Rounding.RoundHalfEven | credit_system/loans/models.py:43 | `round` gives an integer within 0.5 of its argument, and a tie goes to the even neighbour |
| Rounding.Round2 | credit_system/loans/models.py:118 | rounding to two places stays within half a paisa and yields a whole number of paise |
| Emi.ExactEmi | credit_system/loans/models.py:107-117 | a zero tenure always divides by zero; at zero rate any other tenure gives principal / tenure; at a non-zero rate an instalment exists exactly when the growth factor (1+r)^n exists and differs from 1 |
| Emi.PowInt | credit_system/loans/models.py:117 | `float ** int` is the ordinary power for non-negative exponents, and raises exactly when the base is 0 and the exponent negative |
| Emi.ExactEmiIsPrincipalOverDiscount | credit_system/loans/models.py:114-117 | for a positive tenure and a rate above -1200 %, both branches of the formula exist and equal principal / (present value of n unit payments at 1+r) |
| Emi.ZeroRateDiscount | credit_system/loans/models.py:114-115 | at zero rate the present value of n unit payments is n, so that formula reduces to principal / tenure |
| Emi.ZeroTenureRaises | credit_system/loans/models.py:114-117 | a zero tenure divides by zero whatever the rate |
| Emi.ZeroRateEmi | credit_system/loans/models.py:114-115 | at zero rate the instalment is principal / tenure for every non-zero tenure |
| Emi.ExactEmiStrictlyIncreasingInRate | credit_system/loans/models.py:117 | for a positive principal and tenure, a higher rate gives a strictly higher exact instalment |
| Emi.ExactEmiAboveInterestFreeShare | credit_system/loans/models.py:117 | at a positive rate the instalment exceeds principal / tenure |
| Calendar.AddDays | credit_system/loans/views.py:140 | adding a positive number of days gives a strictly later date, adding none or fewer gives one not later |
| Calendar.MonthsBetween | credit_system/loans/models.py:125 | the months from a date to itself are 0; within one year they lie in -11..11; into a later year they are at least 1 |
| Calendar.YearMonth | credit_system/loans/models.py:125 | the month of a date lies between 1 and 12 |
| Calendar.Month | credit_system/loans/models.py:125 | `date.month` lies between 1 and 12 |
| Calendar.UnixEpoch | credit_system/loans/models.py:125 | ordinal 719163 is January 1970, as Python numbers it |
| Calendar.LeapDay | credit_system/loans/models.py:125 | ordinal 738945 (29 February 2024) is in February 2024 |
| Calendar.DayAfterLeapDay | credit_system/loans/models.py:125 | the day after that leap day is in March 2024 |
| Models.ApprovedLimitFor | credit_system/loans/models.py:42-43 | the derived limit is a whole number of lakhs within half a lakh of 36 salaries |
| Models.SaveCustomer | credit_system/loans/models.py:39-44 | `Customer.save` fills the limit only when it is unset (zero) and keeps a non-zero limit unchanged |
| Models.SaveCustomerIdempotent | credit_system/loans/models.py:39-44 | saving twice equals saving once; a saved limit is either the original or whole lakhs |
| Models.ApprovedLimitExamples | credit_system/loans/models.py:42-43 | salary 50000 gives 1800000; 12500 gives 400000, since 4.5 lakh rounds to the even 4; 37500 gives 1400000 |
| Models.EmiFor | credit_system/loans/models.py:107-118 | `calculate_emi` fails exactly when the exact instalment does; at zero rate it is the unrounded principal / tenure, otherwise the exact instalment rounded to paise |
| Models.SaveLoan | credit_system/loans/models.py:102-105 | `Loan.save` keeps a set instalment, fills an unset (zero) one from `calculate_emi`, and fails when that divides by zero |
| Models.RepaymentsLeft | credit_system/loans/models.py:120-128 | no repayments are left on or after the end date, and for a non-negative tenure the count lies between 0 and the tenure |
| Models.IsActive | credit_system/loans/models.py:130-132 | an active loan has a tenure of at least 1 and has not reached its end date |
| Models.FreshLoanOwesWholeTenure | credit_system/loans/models.py:120-128 | a loan that starts today and ends 30 days per month later owes its whole tenure and is active |
| Models.TotalAmountPayable | credit_system/loans/models.py:134-136 | instalment times tenure: non-negative for a non-negative instalment and tenure, and 0 for a zero tenure |
| Models.TotalInterest | credit_system/loans/models.py:138-140 | interest plus principal is the total amount payable |
| Models.SplitOfPayable | credit_system/loans/models.py:134-149 | for an instalment m, a tenure and a count `left` of instalments still due, the amount paid and the amount remaining add up to m times the tenure; with m ≥ 0 and 0 ≤ left ≤ tenure each lies between 0 and that total; with nothing left, nothing remains and everything is paid (`AmountPaidSoFar`/`RemainingAmount` are this split at `RepaymentsLeft`) |
| Models.AmountPaidSoFar | credit_system/loans/models.py:142-145 | from the end date on, everything payable has been paid |
| Models.RemainingAmount | credit_system/loans/models.py:147-149 | from the end date on, nothing remains |
| Models.ActiveLoans | credit_system/loans/models.py:50 | a loan is among the active ones exactly when it is in the history and has repayments left |
| Models.CurrentSumsAppend | credit_system/loans/models.py:49-55 | adding a loan raises the current principal and instalment sums by its own amounts exactly when it is active, and leaves them unchanged otherwise |
| Models.NoActiveLoansSumToZero | credit_system/loans/models.py:49-55 | a history with no active loans has both current sums zero |
| Models.CurrentLoansSum | credit_system/loans/models.py:49-51 | with non-negative principals, the active principal lies between 0 and the whole history's principal |
| Models.CurrentEmisSum | credit_system/loans/models.py:53-55 | with non-negative instalments, the active instalments lie between 0 and the whole history's instalments |
| Models.CurrentScore | credit_system/loans/views.py:74-75 | a current score is found exactly when the customer has a current record, and it is that record's score |
| Models.CurrentScoreIsTheCurrentRecord | credit_system/loans/models.py:179 | with at most one current record per customer (the part of `unique_together = [customer, is_current]` the model keeps), every current record of the customer carries the score found, so the row order of `.first()` does not matter |
| Models.Demote | credit_system/loans/models.py:183-185 | the bulk update keeps the length and other customers' records, and leaves the customer current only under the excluded key |
| Models.Upsert | credit_system/loans/models.py:186 | the row write puts the record in the table, adds at most one row, and keeps every row with another key |
| Models.AfterSave | credit_system/loans/models.py:181-186 | after `save` the record is in the table, and every record of another customer with another key is unchanged in place |
| Models.DemoteEffect | credit_system/loans/models.py:182-185 | the bulk update leaves the customer no current record except the excluded key, and changes no field of any record but `is_current` |
| Models.SavedCurrentIsSole | credit_system/loans/models.py:181-186 | after a current score is saved, it is the customer's only current record |
| Models.SavePreservesAtMostOneCurrent | credit_system/loans/models.py:179-186 | saving keeps at most one current score per customer |
| Models.SaveLeavesOthersAlone | credit_system/loans/models.py:181-186 | saving leaves every record of another customer under another key unchanged in place |
| Models.CreditScoreTable.Save | credit_system/loans/models.py:179-186 | the table becomes the demote-then-write result; the invariant (distinct keys below the counter, at most one current record per customer, the part of `unique_together` the model keeps) is kept; a saved current score is the customer's current score |
| Models.CreditScoreTable.DemoteOthers | credit_system/loans/models.py:182-185 | the in-place loop leaves the table equal to the bulk-update result |
| Eligibility.OnTimePoints | credit_system/loans/services/eligibility_service.py:22-24 | the on-time component lies in 0..30 |
| Eligibility.LoanCountPoints | credit_system/loans/services/eligibility_service.py:26-27 | the loan-count component lies in 0..20 |
| Eligibility.ActivityPoints | credit_system/loans/services/eligibility_service.py:29-32 | the current-year component lies in 0..20 |
| Eligibility.VolumePoints | credit_system/loans/services/eligibility_service.py:34-36 | the volume component is at most 20 |
| Eligibility.CreditScore | credit_system/loans/services/eligibility_service.py:6-39 | an empty history scores exactly 50, and no history scores above 90 |
| Eligibility.CreditScoreInRange | credit_system/loans/services/eligibility_service.py:20-39 | with non-negative loan amounts, the score lies in [0, 100] |
| Eligibility.CreditScoreOrderIndependent | credit_system/loans/services/eligibility_service.py:16-36 | histories holding the same loans in another order score the same |
| Eligibility.ScoreUsed | credit_system/loans/services/eligibility_service.py:46-50 | the score is forced to 0 exactly when the active principal exceeds the limit, and is the computed score otherwise |
| Eligibility.Decide | credit_system/loans/services/eligibility_service.py:63-82 | the requested rate, score and instalment are returned unchanged; approved iff existing plus new instalments fit in half the salary and the score is above 10; no corrected rate iff the affordability gate fails; a corrected rate is never below the requested one and differs only as 12.1 in the 30..50 tier or 16.1 in the 10..30 tier |
| Eligibility.TierRates | credit_system/loans/services/eligibility_service.py:67-80 | once affordable: above 50 the rate is kept; in 30..50 a rate up to 12.0 becomes 12.1; in 10..30 a rate up to 16.0 becomes 16.1; at 10 or below the loan is not approved |
| Eligibility.EvaluateLoan | credit_system/loans/services/eligibility_service.py:42-82 | the check fails exactly when `calculate_emi` would, and otherwise decides on the possibly zeroed score, the current instalment sum and the rounded instalment |
| Eligibility.OverLimitNeverApproved | credit_system/loans/services/eligibility_service.py:48-82 | a customer already over the limit is never approved and is reported with score 0 |
| Eligibility.UnaffordableRejected | credit_system/loans/services/eligibility_service.py:63-65 | an instalment that alone exceeds half the salary is rejected with no corrected rate, whatever the score |
| Serializers.NatToString | credit_system/loans/serializers.py:29 | `str` of a natural number is a non-empty digit string with no leading zero |
| Serializers.DigitCount | credit_system/loans/serializers.py:29 | a number has at most k digits exactly when it is below 10^k |
| Serializers.PhoneWellFormedIffTenDigits | credit_system/loans/serializers.py:29 | the all-digits, length-10 check accepts exactly the integers from 1000000000 to 9999999999 |
| Serializers.ValidateAge | credit_system/loans/serializers.py:18-21 | an age is rejected exactly when it is at most 0 |
| Serializers.ValidateMonthlyIncome | credit_system/loans/serializers.py:23-26 | an income is rejected exactly when it is at most 0 |
| Serializers.ValidatePhoneNumber | credit_system/loans/serializers.py:28-33 | a phone number passes exactly when it has ten digits and is not registered yet; a malformed one gets the format message |
| Serializers.RegistrationErrors | credit_system/loans/serializers.py:13-33 | there are no errors exactly when age, income and phone all pass; at most three errors |
| Serializers.RegistrationErrorFields | credit_system/loans/serializers.py:13-33 | every reported error names age, monthly_income or phone_number |
| Serializers.CreateCustomer | credit_system/loans/serializers.py:38-51 | names, age and phone pass through, the salary is the declared income, the limit is `ApprovedLimitFor` of that income (whole lakhs nearest to 36 incomes), debt starts at 0, and the model's save leaves the record unchanged |
| Serializers.CreateCustomerExample | credit_system/loans/serializers.py:42-43 | an income of 50000 gives a limit of 1800000 |
| Serializers.PrecisionOf | credit_system/loans/serializers.py:57-58 | the digits a DecimalField counts: total is whole plus places, places is minus a negative exponent, whole is never negative |
| Serializers.DecimalFieldError | credit_system/loans/serializers.py:57-58 | a decimal passes exactly when it has no more places than allowed and no more whole digits than `max_digits - decimal_places` |
| Serializers.DecimalFieldAcceptsBelowBound | credit_system/loans/serializers.py:57-58 | a decimal written with at most the allowed places passes exactly when its value is below 10^(max_digits - decimal_places) in absolute value |
| Serializers.QuantizeInstalment | credit_system/loans/serializers.py:68 | rendering the answer's instalment succeeds exactly when, rounded half to even to paise, it is below 10^10 in absolute value, and then yields that rounded value |
| Serializers.PaiseWithinTwelveDigits | credit_system/loans/serializers.py:68 | a number of paise fits twelve digits exactly when it is below 10^10 rupees in absolute value |
| Serializers.RequestPrecisionExamples | credit_system/loans/serializers.py:57-58 | 12.345 and 1000 fail as rates, 10^10 fails as an amount; 12.50 passes as a rate and 100000 as an amount |
| Serializers.GetIsApproved | credit_system/loans/serializers.py:92-96 | a loan is approved exactly when its application exists and its status is approved |
| Views.FindCustomer | credit_system/loans/views.py:114-117 | the lookup fails exactly when no customer has the id, and otherwise returns a stored customer with that id |
| Views.FindLoan | credit_system/loans/views.py:171-174 | the lookup fails exactly when no loan has the id, and otherwise returns a stored loan with that id |
| Views.ApplicationOf | credit_system/loans/views.py:179 | the linked application is absent exactly when no application links the loan, and otherwise is a stored application linking it |
| Views.LoansOf | credit_system/loans/views.py:209 | a loan is among the customer's loans exactly when it is stored with that customer's id |
| Views.MissingFieldErrors | credit_system/loans/views.py:109-112 | there are no errors exactly when all four fields are present |
| Views.DecimalErrors | credit_system/loans/serializers.py:57-58 | a decimal field has no error exactly when it is present and within its limits, and an absent one is reported as required |
| Views.RequestFieldErrors | credit_system/loans/serializers.py:55-59 | the request serializer reports no errors exactly when all four fields are present and amount and rate are within their digit limits; an incomplete request always has errors |
| Views.ShownCorrectedRate | credit_system/loans/views.py:47 | a set, non-zero corrected rate is shown as it is; otherwise the requested rate is shown |
| Views.ShownCorrectedRateIsCorrectedOrRequested | credit_system/loans/views.py:47 | the shown corrected rate is the corrected rate, or the requested one when there is none, and never below the requested rate |
| Views.CheckEligibility | credit_system/loans/views.py:26-55 | 400 exactly when the request serializer refuses the request (a missing field, or an amount or rate beyond its digit limits), with its errors; 404 for an unknown customer; 500 exactly when the request is accepted and the customer exists but the instalment divides by zero or cannot be rendered at 12 digits; 200 exactly when the request is accepted, the customer exists, the instalment exists and it can be rendered, whatever the decision; a 200 reports the decision's approval, instalment, requested rate and tenure, and the corrected rate as `ShownCorrectedRate` shows it, never below the request |
| Views.WideInstalmentIsServerError | credit_system/loans/views.py:52-53 | an accepted request for 9999999999 at 12 % over one month, whose instalment is 10099999998.99, is answered with a server error |
| Views.TenDigitRequestAccepted | credit_system/loans/serializers.py:57-58 | an amount of ten whole digits at a rate of 12 passes the request serializer |
| Views.OverPreciseRequestsRejected | credit_system/loans/serializers.py:55-59 | complete requests at 12.345 %, at 1000 %, or for 10^10 are answered 400, the first with one interest-rate error |
| Views.CachedScore | credit_system/loans/views.py:74-75 | the cached current score, or 50 when there is none |
| Views.DecideCreate | credit_system/loans/views.py:87-99 | approved iff the new instalment alone fits in half the salary, active principal plus the request fits in the limit, and the score is at least 50; the first failing gate names the message; only approval rounds the instalment |
| Views.RejectionMessagesAreDeclaredReasons | credit_system/loans/models.py:201-207 | every rejection message is one of the application's declared rejection reasons |
| Views.EvaluateLoanEligibility | credit_system/loans/views.py:66-99 | the decision fails exactly when the exact instalment does, and is otherwise the gate cascade over the cached score, the current principal and the exact instalment |
| Views.NoCachedScorePassesScoreGate | credit_system/loans/views.py:74-96 | without a cached score the score gate never rejects, and approval depends on the other two gates alone |
| Views.TwentyLakhOverAYearIsUnaffordable | credit_system/loans/tests/test_create_loan.py:55-65 | salary 50000 asking 2000000 at 12 % over 12 months is rejected with the instalment message |
| Views.OneLakhAtTwelvePercentScenario | credit_system/loans/services/eligibility_service.py:42-82 | salary 50000 without loans asking 100000 at 12 % over 12 months: the check approves with the rate raised to 12.1 and instalment 8884.88, and creation approves with instalment 8884.88 |
| Views.ExistingEmisCountOnlyInCheck | credit_system/loans/views.py:87-89 | existing instalments can make the check reject a loan that creation approves |
| Views.LimitGateOnlyInCreate | credit_system/loans/views.py:91-93 | a request that takes the active principal over the limit can pass the check and still be rejected on creation with the limit message |
| Views.RecordedApplication | credit_system/loans/views.py:126-153 | the application belongs to the customer and records the requested amount, rate and tenure; it is approved iff the decision is and never pending; a rejected one stores the decision's own message and no approved amount or rate; it keeps the score used and the instalment; and it is linked, with approved amount and rate, iff approved |
| Views.OpenedLoan | credit_system/loans/views.py:139-149 | the new loan has the given id, belongs to the customer, starts today, ends 30 days per month of tenure later, carries the requested amount, rate and tenure and the decided instalment, and has no instalments paid on time |
| Views.ApprovalStaysWithinLimit | credit_system/loans/views.py:87-154 | an approved loan with positive tenure is saved, and raises the active principal by exactly its amount, to no more than the limit |
| Views.ShownRate | credit_system/loans/views.py:177-181 | an unapproved loan shows its own rate; an approved one shows a set, non-zero approved rate, and its own rate when the approved rate is absent or zero (`approved_interest_rate or loan.interest_rate`) |
| Views.ViewLoan | credit_system/loans/views.py:169-199 | 404 exactly when the loan is unknown; a server error exactly when its customer is missing; 200 whenever both exist; a 200 shows the loan's id, amount, instalment and tenure, its customer's id, first and last name, phone and age, the rate `ShownRate` picks, and approval exactly when its linked application is approved |
| Views.SummaryOf | credit_system/loans/views.py:212-220 | an entry shows the loan's id, amount and instalment, the application's approval, the loan's own rate, and its `repayments_left` today, which lies within the tenure |
| Views.Store.Register | credit_system/loans/views.py:8-23 | invalid requests answer 400 with the errors and add no customer; valid ones append exactly the created customer and answer 201 with it; keys stay fresh and loans keep their customers |
| Views.Store.CreateLoan | credit_system/loans/views.py:102-164 | the first missing field answers 400 before any lookup; an unknown customer answers 404; a failing instalment answers 500; nothing is written in these cases; otherwise exactly one application is appended, a loan is appended exactly when approved, and the answer is 200 iff approved with the new loan id, else 400 with no id; every link stays at its loan's rate |
| Views.Store.RecordDecision | credit_system/loans/views.py:125-154 | appends exactly the recorded application (terminal status, linked to the next loan id); on approval also appends the saved loan and returns its id, otherwise leaves the loans alone and returns no id; customers unchanged; the store stays consistent |
| Views.Store.ViewLoansByCustomer | credit_system/loans/views.py:202-222 | 404 for an unknown customer, else 200 with one entry per loan of the customer, in order |
| Views.Store.ViewsAgreeOnRate | credit_system/loans/views.py:176-217 | in a consistent store every stored loan can be viewed, and the single view and the list show the same rate, the loan's own |

## Left out

- Ingestion from spreadsheets (`task.py`, `tasks.py`, the two management commands) and the batch credit-score task. They are I/O and ORM plumbing. The score table's invariant is modelled through `CreditScore.save`.
- HTTP and the wire format: URL routing, request parsing and type coercion (including `Decimal(str(...))` on malformed input, and a DecimalField's refusal of text that is not a number, NaN or over-long input; its messages follow Django REST framework's wording), the `float()` conversions in responses, and the value the eligibility answer renders. The model answers with the exact instalment, and models only the failure to render one that is too wide (`Serializers.QuantizeInstalment`). `urls.py` imports names that `views.py` does not define, and it is not part of this model.
- Floating point: the model computes the instalment and the score over exact reals. It does not model binary rounding.
- Storage quantisation: `DecimalField(decimal_places=2)` would round the unrounded rejection instalment when the application is stored. The model keeps the exact value. A value beyond a column's digit limits (an instalment of 10^10 or more, say) is stored as it is: whether the database refuses it depends on the backend.
- Django field validators derived from the model: age 18..120, the phone range and uniqueness, the minimum salary, and digit limits. The database's unique constraints are left out too, except the part of the score table's that is described below. Since the field validator demands an age of at least 18, the custom `age <= 0` check cannot fire in the running service. The model keeps it as written.
- Missing fields and type errors at registration: the request record always carries all five typed fields.
- `get_full_name` and `__str__`: the registration answer carries first and last name separately.
- `date.today()` and the clock: `today` is a parameter. So are the timestamps `created_at`, `applied_at` and `calculation_date`. The never-set fields `rejection_reason` and `processed_at` are left out.
- Transactions, concurrency and atomicity of the bulk demotion.
- OverflowError in the instalment: `(1 + r) ** n` raises on a float overflow (for instance 50 % over 20000 months), and the endpoints then answer 500 and write nothing. The model computes over exact reals, so it finds an instalment there and can approve.
- The date range: `date.today() + timedelta(days=30 * tenure)` in `create_loan` (`views.py:140`) raises OverflowError once the end date would pass 9999-12-31 or fall before year 1. The source raises after the APPROVED application is created, so it keeps an approved application with no loan and answers 500. The model's dates are unbounded ordinals, so it writes both records and answers 200.
- The non-current half of `unique_together = [customer, is_current]` (`models.py:179`): the database allows one non-current score per customer. Once a customer has one, demoting their current score at `models.py:183-185` raises IntegrityError. The model keeps any number of non-current scores and demotes without error.
- `DataIngestionLog`: it only records ingestion runs.
- Eligibility.CreditScoreInRange: the lower bound 0 is proved only for non-negative loan amounts. With negative amounts, the truncated volume component can be negative.
- Calendar.YearMonth: the civil-from-days conversion is stated through its month range and three dated examples. It is not proved equal to the Gregorian calendar for all dates.
- Emi.ExactEmiStrictlyIncreasingInRate: monotonicity is proved for the exact instalment, not for `EmiFor`. The rounded instalment is only weakly monotone (`Rounding.Round2Monotone`), and the zero-rate branch is not rounded.
- Models.SplitOfPayable: the sum and the bounds are proved for every count of instalments left, not restated per loan and date. `AmountPaidSoFar` and `RemainingAmount` are that split at `RepaymentsLeft(l, today)`, which `RepaymentsLeft`'s own contract bounds by 0 and the tenure. Their own contracts state only the end-date case.
- Models.AmountPaidSoFar, Models.RemainingAmount: the bounds between 0 and the total payable are stated through `SplitOfPayable`, not on the two functions. Stated on them, the proof drags the day-number-to-date arithmetic into the solver.
- Rounding.Round2: one half-even rounding stands for both `Decimal.quantize` (half-even by default) and `round(float, 2)`, which rounds the binary value.
