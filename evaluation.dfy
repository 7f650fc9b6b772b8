/**
 * The criteria evaluation and the Approved/Declined verdict of the loan approval
 * service: `extract_from_files` and `evaluate_application`.
 */
module LoanApproval {
  import opened Wrappers

  /**
   * One application as the JSON record the service receives. The fields the code reads
   * with `record.get(key, 0)` are optional; those it reads with `record[key]` are required.
   * `birthYear` is the year of the `dd/mm/yyyy` date of birth; day and month are never used.
   */
  datatype Record = Record(
    id: string,                 // '_id'
    monthlyDebt: real,          // 'Total Monthly Debt Obligations'
    sector: string,             // 'Sector of Employment'
    existingLoans: int,         // 'Number of Existing Loans'
    desiredLoan: real,          // 'Desired Loan Amount'
    jobYears: real,             // 'Duration at Current Job'
    bankruptcy: string,         // 'History of Bankruptcy'
    birthYear: int,             // year of 'Date of Birth'
    residency: string,          // 'Residency Status'
    grossIncome: Option<real>,  // 'Monthly Gross Income'
    creditScore: Option<int>)   // 'Credit Score'

  datatype Decision = Approved | Declined

  /** The only failure of the evaluation: dividing the debt by a zero monthly income. */
  datatype EvalError = ZeroIncome

  /**
   * The ordered mapping from criterion to outcome (a Python dict keeps insertion order).
   * Each criterion stands for its key string, `Label(c)`.
   */
  type CriteriaEvaluation = seq<(Criterion, bool)>

  datatype Evaluation = Evaluation(decision: Decision, criteria: CriteriaEvaluation)

  const ApprovalThreshold: nat := 8
  const MaxDebtToIncome: real := 0.43
  const MinCreditScore: int := 670
  const MaxExistingLoans: int := 5
  const MaxLoanShareOfAnnualIncome: real := 0.6
  const MinJobYears: real := 2.0
  const MinAge: int := 18
  const MaxAge: int := 70
  const PreferredSectors: seq<string> := ["Government Jobs", "Healthcare", "IT", "Finance"]
  const AcceptedResidency: seq<string> := ["Permanent Resident", "Citizen"]

  /** The nine eligibility criteria. */
  datatype Criterion =
    | DebtToIncome | CreditScore | PreferredSector | ExistingLoans | LoanToIncome
    | JobDuration | NoBankruptcy | AgeRange | Residency

  /** The order in which the criteria are recorded. */
  const CriteriaOrder: seq<Criterion> :=
    [DebtToIncome, CreditScore, PreferredSector, ExistingLoans, LoanToIncome,
     JobDuration, NoBankruptcy, AgeRange, Residency]

  /**
   * The dictionary key of each criterion. A key is a single line of text. (The keys are
   * written in short pieces, which keeps the proofs about their characters small.)
   */
  function Label(c: Criterion): (s: string)
    ensures '\n' !in s
  {
    match c
    case DebtToIncome => "Debt-to-Income" + " Ratio <=" + " 0.43"
    case CreditScore => "Credit" + " Score >=" + " 670"
    case PreferredSector => "Sector of" + " Employment" + " in" + " Preferred" + " List"
    case ExistingLoans => "Number of" + " Existing" + " Loans < 5"
    case LoanToIncome => "Loan" + " Amount <=" + " 60% of" + " Annual" + " Income"
    case JobDuration => "Duration" + " at" + " Current" + " Job >= 2" + " Years"
    case NoBankruptcy => "No History" + " of" + " Bankruptcy"
    case AgeRange => "Age" + " Between" + " 18 and 70"
    case Residency => "Residency" + " Status as" + " Permanent" + " Resident" + " or" + " Citizen"
  }

  /** Monthly gross income and credit score of the supporting document; a missing key reads as 0. */
  function ExtractFromFiles(document: Record): (r: (real, int))
    ensures document.grossIncome == None ==> r.0 == 0.0
    ensures document.creditScore == None ==> r.1 == 0
    ensures document.grossIncome.Some? ==> r.0 == document.grossIncome.value
    ensures document.creditScore.Some? ==> r.1 == document.creditScore.value
  {
    (document.grossIncome.GetOr(0.0), document.creditScore.GetOr(0))
  }

  /** Age in calendar years: the difference of the years alone. */
  function Age(application: Record, currentYear: int): int
  {
    currentYear - application.birthYear
  }

  // The nine predicates, one per criterion; the two income-based ones need a nonzero income.

  predicate DebtToIncomeMet(application: Record, income: real)
    requires income != 0.0
  {
    application.monthlyDebt / income <= MaxDebtToIncome
  }

  predicate CreditScoreMet(creditScore: int)
  {
    creditScore >= MinCreditScore
  }

  predicate SectorMet(application: Record)
  {
    application.sector in PreferredSectors
  }

  predicate ExistingLoansMet(application: Record)
  {
    application.existingLoans < MaxExistingLoans
  }

  predicate LoanToIncomeMet(application: Record, income: real)
  {
    application.desiredLoan <= MaxLoanShareOfAnnualIncome * (12.0 * income)
  }

  predicate JobDurationMet(application: Record)
  {
    application.jobYears >= MinJobYears
  }

  predicate NoBankruptcyMet(application: Record)
  {
    application.bankruptcy == "No"
  }

  predicate AgeMet(application: Record, currentYear: int)
  {
    MinAge <= Age(application, currentYear) <= MaxAge
  }

  predicate ResidencyMet(application: Record)
  {
    application.residency in AcceptedResidency
  }

  /** The number of satisfied entries. */
  function CountMet(criteria: CriteriaEvaluation): (n: nat)
    ensures n <= |criteria|
  {
    if criteria == [] then 0
    else CountMet(criteria[..|criteria| - 1]) + (if criteria[|criteria| - 1].1 then 1 else 0)
  }

  /** The decision rule: Approved from eight satisfied criteria on, the threshold included. */
  function Decide(passed: nat): (d: Decision)
    ensures d == Approved <==> passed >= 8
    ensures d == Declined <==> passed < 8
  {
    if passed >= ApprovalThreshold then Approved else Declined
  }

  /**
   * The recorded entries: one per criterion, in the order of `CriteriaOrder`. The keys are
   * pairwise different (`LabelsDistinct`), so each insertion adds a new dictionary entry.
   */
  function Criteria(application: Record, income: real, creditScore: int, currentYear: int): (cs: CriteriaEvaluation)
    requires income != 0.0
    ensures |cs| == 9
    ensures && cs[0].0 == DebtToIncome && cs[1].0 == CreditScore && cs[2].0 == PreferredSector
            && cs[3].0 == ExistingLoans && cs[4].0 == LoanToIncome && cs[5].0 == JobDuration
            && cs[6].0 == NoBankruptcy && cs[7].0 == AgeRange && cs[8].0 == Residency
  {
    [(DebtToIncome, DebtToIncomeMet(application, income)),
     (CreditScore, CreditScoreMet(creditScore)),
     (PreferredSector, SectorMet(application)),
     (ExistingLoans, ExistingLoansMet(application)),
     (LoanToIncome, LoanToIncomeMet(application, income)),
     (JobDuration, JobDurationMet(application)),
     (NoBankruptcy, NoBankruptcyMet(application)),
     (AgeRange, AgeMet(application, currentYear)),
     (Residency, ResidencyMet(application))]
  }

  /**
   * What `evaluate_application(application, document)` returns, or the error it raises: it
   * fails exactly when the document's monthly gross income is zero (a missing income reads
   * as zero); otherwise it holds the nine criteria in the fixed order and is Approved
   * exactly when at least eight of them hold.
   */
  function Evaluate(application: Record, document: Record, currentYear: int): (r: Result<Evaluation, EvalError>)
    ensures r.Failure? <==> document.grossIncome.GetOr(0.0) == 0.0
    ensures r.Failure? ==> r.error == ZeroIncome
    ensures document.grossIncome == None ==> r.Failure?
    ensures r.Success? ==>
      && |r.value.criteria| == 9
      && (forall i :: 0 <= i < 9 ==> r.value.criteria[i].0 == CriteriaOrder[i])
      && (r.value.decision == Approved <==> CountMet(r.value.criteria) >= 8)
  {
    var (income, creditScore) := ExtractFromFiles(document);
    if income == 0.0 then Failure(ZeroIncome)
    else
      var criteria := Criteria(application, income, creditScore, currentYear);
      Success(Evaluation(Decide(CountMet(criteria)), criteria))
  }

  /** Appending the k-th expected entry to the first k entries gives the first k + 1. */
  lemma EntryRecorded(criteria: CriteriaEvaluation, k: nat, expected: CriteriaEvaluation)
    requires k < |expected| && |criteria| == k + 1
    requires criteria[..k] == expected[..k] && criteria[k] == expected[k]
    ensures criteria == expected[..k + 1]
  {
  }

  /** The loop of `evaluate_application` that counts the satisfied criteria. */
  method CountPassed(criteria: CriteriaEvaluation) returns (passed: nat)
    ensures passed == CountMet(criteria)
  {
    passed := 0;
    for i := 0 to |criteria|
      invariant passed == CountMet(criteria[..i])
    {
      assert criteria[..i + 1][..i] == criteria[..i];
      if criteria[i].1 {
        passed := passed + 1;
      }
    }
    assert criteria[..|criteria|] == criteria;
  }

  /**
   * The nine insertions of `evaluate_application`, in the source's order, each with the
   * source's own comparison.
   */
  method RecordCriteria(application: Record, income: real, creditScore: int, currentYear: int)
    returns (criteria: CriteriaEvaluation)
    requires income != 0.0
    ensures criteria == Criteria(application, income, creditScore, currentYear)
  {
    ghost var expected := Criteria(application, income, creditScore, currentYear);
    var dti := application.monthlyDebt / income;
    criteria := [];
    criteria := criteria + [(DebtToIncome, dti <= MaxDebtToIncome)];
    EntryRecorded(criteria, 0, expected);
    criteria := criteria + [(CreditScore, creditScore >= MinCreditScore)];
    EntryRecorded(criteria, 1, expected);
    criteria := criteria + [(PreferredSector, application.sector in PreferredSectors)];
    EntryRecorded(criteria, 2, expected);
    criteria := criteria + [(ExistingLoans, application.existingLoans < MaxExistingLoans)];
    EntryRecorded(criteria, 3, expected);
    criteria := criteria + [(LoanToIncome, application.desiredLoan <= MaxLoanShareOfAnnualIncome * (12.0 * income))];
    EntryRecorded(criteria, 4, expected);
    criteria := criteria + [(JobDuration, application.jobYears >= MinJobYears)];
    EntryRecorded(criteria, 5, expected);
    criteria := criteria + [(NoBankruptcy, application.bankruptcy == "No")];
    EntryRecorded(criteria, 6, expected);
    var age := currentYear - application.birthYear;
    criteria := criteria + [(AgeRange, MinAge <= age <= MaxAge)];
    EntryRecorded(criteria, 7, expected);
    criteria := criteria + [(Residency, application.residency in AcceptedResidency)];
    EntryRecorded(criteria, 8, expected);
    assert expected[..9] == expected;
  }

  /**
   * `evaluate_application`: reads income and credit score, divides by the income (the one
   * failure), records the nine criteria, counts the satisfied ones and compares the count
   * with the threshold.
   */
  method EvaluateApplication(application: Record, document: Record, currentYear: int)
    returns (r: Result<Evaluation, EvalError>)
    ensures r == Evaluate(application, document, currentYear)
  {
    var (income, creditScore) := ExtractFromFiles(document);
    if income == 0.0 {
      return Failure(ZeroIncome);
    }
    var criteria := RecordCriteria(application, income, creditScore, currentYear);
    var passed := CountPassed(criteria);
    var decision := if passed >= ApprovalThreshold then Approved else Declined;
    r := Success(Evaluation(decision, criteria));
  }

  // ---------------------------------------------------------------------------
  // What the evaluation promises

  /** The criterion keys are pairwise different strings, so none overwrites another in the dictionary. */
  lemma LabelsDistinct(a: Criterion, b: Criterion)
    requires a != b
    ensures Label(a) != Label(b)
  {
    // Only two keys share a length, and those two end in different characters.
    LabelLength(a);
    LabelLength(b);
    if |Label(a)| == |Label(b)| {
      assert {a, b} == {DebtToIncome, ExistingLoans};
      assert Label(DebtToIncome)[27] == '3' && Label(ExistingLoans)[27] == '5';
    }
  }

  /** The length of each criterion key. */
  lemma LabelLength(c: Criterion)
    ensures |Label(c)| == match c
      case DebtToIncome => 28 case CreditScore => 19 case PreferredSector => 38
      case ExistingLoans => 28 case LoanToIncome => 35 case JobDuration => 34
      case NoBankruptcy => 24 case AgeRange => 21 case Residency => 49
  {
    match c
    case DebtToIncome => case CreditScore => case PreferredSector =>
    case ExistingLoans => case LoanToIncome => case JobDuration =>
    case NoBankruptcy => case AgeRange => case Residency =>
  }

  /**
   * The six numeric criteria are the source's comparisons: the debt-to-income ratio against
   * 0.43, the credit score (0 when missing) against 670, fewer than five loans, a loan of at
   * most 60% of twelve monthly incomes, at least two years in the job, and an age of 18 to
   * 70 years, both ends included, counted as the difference of the calendar years alone.
   */
  lemma NumericCriteria(application: Record, document: Record, currentYear: int)
    requires Evaluate(application, document, currentYear).Success?
    ensures document.grossIncome.Some? && document.grossIncome.value != 0.0
    ensures var cs := Evaluate(application, document, currentYear).value.criteria;
      var income := document.grossIncome.value;
      var score := document.creditScore.GetOr(0);
      && cs[0] == (DebtToIncome, application.monthlyDebt / income <= 0.43)
      && cs[1] == (CreditScore, score >= 670)
      && cs[3] == (ExistingLoans, application.existingLoans < 5)
      && cs[4] == (LoanToIncome, application.desiredLoan <= 0.6 * (12.0 * income))
      && cs[5] == (JobDuration, application.jobYears >= 2.0)
      && cs[7] == (AgeRange, 18 <= currentYear - application.birthYear <= 70)
  {
  }

  /**
   * The three text criteria are exact, case-sensitive tests: membership of the sector and of
   * the residency status in their fixed lists, and the bankruptcy field equal to "No". Any
   * other value makes the criterion false; it is never an error.
   */
  lemma ExactMatchCriteria(application: Record, document: Record, currentYear: int)
    requires Evaluate(application, document, currentYear).Success?
    ensures var cs := Evaluate(application, document, currentYear).value.criteria;
      && cs[2] == (PreferredSector, application.sector in ["Government Jobs", "Healthcare", "IT", "Finance"])
      && cs[6] == (NoBankruptcy, application.bankruptcy == "No")
      && cs[8] == (Residency, application.residency in ["Permanent Resident", "Citizen"])
  {
  }

  /** The outcomes alone, in order. */
  function Outcomes(criteria: CriteriaEvaluation): (r: seq<bool>)
    ensures |r| == |criteria| && forall i :: 0 <= i < |criteria| ==> r[i] == criteria[i].1
  {
    seq(|criteria|, i requires 0 <= i < |criteria| => criteria[i].1)
  }

  /** The count of satisfied criteria is the number of `true` outcomes, wherever they stand. */
  lemma {:induction false} CountMetIsMultiplicity(criteria: CriteriaEvaluation)
    ensures CountMet(criteria) == multiset(Outcomes(criteria))[true]
  {
    if criteria != [] {
      var init := criteria[..|criteria| - 1];
      CountMetIsMultiplicity(init);
      assert Outcomes(criteria) == Outcomes(init) + [criteria[|criteria| - 1].1];
    }
  }

  /**
   * No criterion weighs more than another: two evaluations whose outcomes are the same
   * multiset, in whatever order and under whatever keys, get the same decision.
   */
  lemma DecisionIgnoresWhichCriteriaHold(a: CriteriaEvaluation, b: CriteriaEvaluation)
    requires multiset(Outcomes(a)) == multiset(Outcomes(b))
    ensures Decide(CountMet(a)) == Decide(CountMet(b))
  {
    CountMetIsMultiplicity(a);
    CountMetIsMultiplicity(b);
  }

  /** Satisfying one more criterion raises the count by exactly one. */
  lemma {:induction false} SatisfyOneMore(criteria: CriteriaEvaluation, k: nat)
    requires k < |criteria| && !criteria[k].1
    ensures CountMet(criteria[k := (criteria[k].0, true)]) == CountMet(criteria) + 1
  {
    var n := |criteria|;
    var flipped := criteria[k := (criteria[k].0, true)];
    if k < n - 1 {
      assert flipped[..n - 1] == criteria[..n - 1][k := (criteria[k].0, true)];
      SatisfyOneMore(criteria[..n - 1], k);
    } else {
      assert flipped[..n - 1] == criteria[..n - 1];
    }
  }

  /** Outcomes that only turn from false to true never lower the count. */
  lemma {:induction false} CountMetMonotone(a: CriteriaEvaluation, b: CriteriaEvaluation)
    requires |a| == |b|
    requires forall i :: 0 <= i < |a| && a[i].1 ==> b[i].1
    ensures CountMet(a) <= CountMet(b)
  {
    if a != [] {
      CountMetMonotone(a[..|a| - 1], b[..|b| - 1]);
    }
  }

  /** Satisfying more criteria never turns Approved into Declined. */
  lemma ApprovalMonotone(a: CriteriaEvaluation, b: CriteriaEvaluation)
    requires |a| == |b|
    requires forall i :: 0 <= i < |a| && a[i].1 ==> b[i].1
    requires Decide(CountMet(a)) == Approved
    ensures Decide(CountMet(b)) == Approved
  {
    CountMetMonotone(a, b);
  }

  /** Every criterion holds exactly when the count is the full length. */
  lemma {:induction false} AllMet(criteria: CriteriaEvaluation)
    ensures CountMet(criteria) == |criteria| <==> forall i :: 0 <= i < |criteria| ==> criteria[i].1
  {
    if criteria != [] {
      var init := criteria[..|criteria| - 1];
      AllMet(init);
    }
  }

  /** The count falls short of the length by at most one exactly when no two criteria both fail. */
  lemma {:induction false} AtMostOneUnmet(criteria: CriteriaEvaluation)
    ensures CountMet(criteria) + 1 >= |criteria|
      <==> forall i, j :: 0 <= i < j < |criteria| ==> criteria[i].1 || criteria[j].1
  {
    if criteria != [] {
      var n := |criteria|;
      var init := criteria[..n - 1];
      AtMostOneUnmet(init);
      if !criteria[n - 1].1 {
        AllMet(init);
        if CountMet(criteria) + 1 < n {
          var i :| 0 <= i < n - 1 && !init[i].1;
          assert !(criteria[i].1 || criteria[n - 1].1);
        }
      } else if CountMet(criteria) + 1 < n {
        var i, j :| 0 <= i < j < n - 1 && !(init[i].1 || init[j].1);
        assert !(criteria[i].1 || criteria[j].1);
      }
    }
  }

  /** With nine criteria, an application is Approved exactly when at most one criterion fails. */
  lemma ApprovedIffAtMostOneFails(application: Record, document: Record, currentYear: int)
    requires Evaluate(application, document, currentYear).Success?
    ensures var e := Evaluate(application, document, currentYear).value;
      e.decision == Approved <==> forall i, j :: 0 <= i < j < 9 ==> e.criteria[i].1 || e.criteria[j].1
  {
    AtMostOneUnmet(Evaluate(application, document, currentYear).value.criteria);
  }

  // ---------------------------------------------------------------------------
  // Worked examples

  /** An applicant meeting every criterion: ratio 0.3, score 700, IT, two loans, 40% of annual income, three years, no bankruptcy, age 35, citizen. */
  function Exemplary(): Record
  {
    Record("a1", 3000.0, "IT", 2, 48000.0, 3.0, "No", 1990, "Citizen", Some(10000.0), Some(700))
  }

  lemma ExampleAllMetApproved()
    ensures Evaluate(Exemplary(), Exemplary(), 2025).Success?
    ensures var e := Evaluate(Exemplary(), Exemplary(), 2025).value;
      e.decision == Approved && forall i :: 0 <= i < |e.criteria| ==> e.criteria[i].1
  {
    var income, score := 10000.0, 700;
    AllMet(Criteria(Exemplary(), income, score, 2025));
  }

  /** Credit score 600 and sector "Retail": seven criteria hold, and seven is below the threshold. */
  lemma ExampleSevenMetDeclined()
    ensures var app := Exemplary().(creditScore := Some(600), sector := "Retail");
      var e := Evaluate(app, app, 2025);
      e.Success? && CountMet(e.value.criteria) == 7 && e.value.decision == Declined
  {
    var app := Exemplary().(creditScore := Some(600), sector := "Retail");
    var cs := Criteria(app, 10000.0, 600, 2025);
    assert "Retail" !in PreferredSectors;
    assert Outcomes(cs) == [true, false, false, true, true, true, true, true, true];
    CountMetIsMultiplicity(cs);
  }

  /** Five existing loans: exactly eight criteria hold, and eight reaches the threshold, so the application is Approved. */
  lemma ExampleEightMetApproved()
    ensures var app := Exemplary().(existingLoans := 5);
      var e := Evaluate(app, app, 2025);
      e.Success? && CountMet(e.value.criteria) == 8 && e.value.decision == Approved
  {
    var app := Exemplary().(existingLoans := 5);
    var cs := Criteria(app, 10000.0, 700, 2025);
    assert Outcomes(cs) == [true, true, true, false, true, true, true, true, true];
    CountMetIsMultiplicity(cs);
  }

  /** Membership tests are exact: a lower-case "it" is not the preferred sector "IT". */
  lemma ExampleSectorCaseSensitive()
    ensures var app := Exemplary().(sector := "it");
      var e := Evaluate(app, app, 2025);
      e.Success? && !e.value.criteria[2].1
  {
    var app := Exemplary().(sector := "it");
    assert "it" != "IT" by {
      assert "it"[0] != "IT"[0];
    }
  }
}

