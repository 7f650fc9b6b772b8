/** `process_application`: evaluation, explanation and the result record of one application. */
module Processor {
  import opened Wrappers
  import opened LoanApproval
  import opened Explanation

  datatype ProcessedResult = ProcessedResult(applicationId: string, result: Decision, explanation: string)

  /**
   * The same record serves as application and as supporting document. A zero or missing
   * income propagates as the evaluation's error; otherwise the result carries the record's
   * id, the evaluation's decision, whatever the completion service does, and the
   * explanation generated for that decision and the evaluation's criteria.
   */
  function ProcessApplication(application: Record, currentYear: int, complete: Prompt -> Option<string>)
    : (r: Result<ProcessedResult, EvalError>)
    ensures r.Failure? <==> application.grossIncome.GetOr(0.0) == 0.0
    ensures r.Failure? ==> r.error == ZeroIncome
    ensures r.Success? ==>
      && r.value.applicationId == application.id
      && r.value.result == Evaluate(application, application, currentYear).value.decision
      && r.value.explanation
         == GenerateExplanation(application, r.value.result,
                                Evaluate(application, application, currentYear).value.criteria, complete)
  {
    match Evaluate(application, application, currentYear)
    case Failure(e) => Failure(e)
    case Success(evaluation) =>
      var explanation := GenerateExplanation(application, evaluation.decision, evaluation.criteria, complete);
      Success(ProcessedResult(application.id, evaluation.decision, explanation))
  }

  /** When the completion call fails, the application is still decided and carries the fallback text. */
  lemma ProcessWithFailedService(application: Record, currentYear: int, complete: Prompt -> Option<string>)
    requires Evaluate(application, application, currentYear).Success?
    requires var e := Evaluate(application, application, currentYear).value;
      complete(Prompt(e.decision, application, CriteriaDetails(e.criteria))).None?
    ensures ProcessApplication(application, currentYear, complete)
      == Success(ProcessedResult(application.id, Evaluate(application, application, currentYear).value.decision,
                                 "Explanation not available"))
  {
  }

  /** The decision does not depend on the completion service: two services differ at most in the explanation. */
  lemma DecisionIndependentOfService(
    application: Record, currentYear: int,
    complete1: Prompt -> Option<string>, complete2: Prompt -> Option<string>)
    ensures var r1 := ProcessApplication(application, currentYear, complete1);
      var r2 := ProcessApplication(application, currentYear, complete2);
      && r1.Success? == r2.Success?
      && (r1.Success? ==> r1.value.(explanation := "") == r2.value.(explanation := ""))
  {
  }

  /** The all-criteria-met applicant is Approved and keeps its id, with either outcome of the service. */
  lemma ProcessExampleApproved(complete: Prompt -> Option<string>)
    ensures var r := ProcessApplication(Exemplary(), 2025, complete);
      r.Success? && r.value.applicationId == "a1" && r.value.result == Approved
  {
    ExampleAllMetApproved();
  }
}
