/**
 * The deterministic parts of `generate_explanation`: the criteria summary placed in the
 * prompt, the truncation of the completion to three sentences, and the fallback text.
 */
module Explanation {
  import opened Wrappers
  import opened Strings
  import opened LoanApproval

  const LineSeparator: string := "\n"
  const SentenceSeparator: string := ". "
  const MaxSentences: nat := 3
  const FallbackExplanation: string := "Explanation not available"

  /** One summary line: "- <key>: Met" or "- <key>: Not Met". */
  function CriterionLine(entry: (Criterion, bool)): string
  {
    "- " + Label(entry.0) + ": " + (if entry.1 then "Met" else "Not Met")
  }

  function SummaryLines(criteria: CriteriaEvaluation): (lines: seq<string>)
    ensures |lines| == |criteria|
    ensures forall i :: 0 <= i < |criteria| ==> lines[i] == CriterionLine(criteria[i])
  {
    seq(|criteria|, i requires 0 <= i < |criteria| => CriterionLine(criteria[i]))
  }

  /**
   * `criteria_details`: one line per entry, in the entries' order, joined by newlines, so
   * splitting it at its newlines gives back exactly one line per entry.
   */
  function CriteriaDetails(criteria: CriteriaEvaluation): (details: string)
    ensures criteria == [] ==> details == []
    ensures |criteria| >= 1 ==> Split(details, LineSeparator) == SummaryLines(criteria)
  {
    var lines := SummaryLines(criteria);
    if |criteria| >= 1 then
      assert forall line :: line in lines ==> !Contains(line, LineSeparator) by {
        forall line | line in lines ensures !Contains(line, LineSeparator) {
          var i :| 0 <= i < |criteria| && line == lines[i];
          CriterionLineIsOneLine(criteria[i]);
        }
      }
      SplitJoin(lines, LineSeparator);
      Join(lines, LineSeparator)
    else
      Join(lines, LineSeparator)
  }

  lemma CriterionLineIsOneLine(entry: (Criterion, bool))
    ensures !Contains(CriterionLine(entry), LineSeparator)
  {
    ContainsChar(CriterionLine(entry), '\n');
  }

  /** The summary of an evaluation has nine lines, the i-th naming the i-th criterion and its outcome. */
  lemma EvaluationDetails(application: Record, document: Record, currentYear: int)
    requires Evaluate(application, document, currentYear).Success?
    ensures var e := Evaluate(application, document, currentYear).value;
      var lines := Split(CriteriaDetails(e.criteria), LineSeparator);
      && |lines| == 9
      && forall i :: 0 <= i < 9 ==>
           lines[i] == "- " + Label(CriteriaOrder[i]) + ": " + (if e.criteria[i].1 then "Met" else "Not Met")
  {
  }

  /**
   * Lines 97-99: split the text at each ". ", keep the first three fragments (all of them
   * when there are fewer), join them with ". " and append "." in every case.
   */
  function TruncateSentences(text: string): (r: string)
    ensures |r| >= 1 && r[|r| - 1] == '.'
  {
    var fragments := Split(text, SentenceSeparator);
    var kept := if |fragments| <= MaxSentences then fragments else fragments[..MaxSentences];
    Join(kept, SentenceSeparator) + "."
  }

  /** A text of at most three fragments is kept whole, followed by ".". */
  lemma TruncateShortText(text: string)
    requires |Split(text, SentenceSeparator)| <= MaxSentences
    ensures TruncateSentences(text) == text + "."
  {
    JoinSplit(text, SentenceSeparator);
  }

  /**
   * Before its final ".", the result is a prefix of the text made of the text's first
   * min(n, 3) fragments: splitting it again gives those fragments, so it holds at most two
   * ". " separators.
   */
  lemma TruncateKeepsLeadingFragments(text: string)
    ensures var r := TruncateSentences(text);
      var body := r[..|r| - 1];
      var fragments := Split(text, SentenceSeparator);
      && body <= text
      && Split(body, SentenceSeparator) == fragments[..if |fragments| <= MaxSentences then |fragments| else MaxSentences]
      && |Split(body, SentenceSeparator)| <= MaxSentences
  {
    var fragments := Split(text, SentenceSeparator);
    var k := if |fragments| <= MaxSentences then |fragments| else MaxSentences;
    var kept := fragments[..k];
    assert k == |fragments| ==> kept == fragments;
    var r := TruncateSentences(text);
    assert r[..|r| - 1] == Join(kept, SentenceSeparator);
    JoinPrefix(fragments, k, SentenceSeparator);
    JoinSplit(text, SentenceSeparator);
    SplitFragments(text, SentenceSeparator);
    forall p | p in kept ensures !Contains(p, SentenceSeparator) {
      assert p in fragments;
    }
    assert Unbordered(SentenceSeparator) by {
      forall k | 0 < k < |SentenceSeparator|
        ensures SentenceSeparator[..k] != SentenceSeparator[|SentenceSeparator| - k..]
      {
        assert SentenceSeparator[..k][0] == '.' && SentenceSeparator[|SentenceSeparator| - k..][0] == ' ';
      }
    }
    SplitJoin(kept, SentenceSeparator);
  }

  /** The "." is appended even when the kept text already ends with one. */
  lemma TruncateDoublesFinalPeriod(text: string)
    requires |Split(text, SentenceSeparator)| <= MaxSentences
    requires |text| >= 1 && text[|text| - 1] == '.'
    ensures var r := TruncateSentences(text); |r| >= 2 && r[|r| - 2..] == ".."
  {
    TruncateShortText(text);
  }

  /** The parts of the prompt that the model keeps: the decision, the application and the criteria summary. */
  datatype Prompt = Prompt(decision: Decision, application: Record, criteriaDetails: string)

  /**
   * `generate_explanation`: the completion service is a function from prompt to text, or
   * to `None` when the call raises; its text is stripped and truncated, and a failure
   * becomes the fixed fallback text. The explanation is that fallback text exactly when the
   * call fails, since a truncated completion always ends in "." and the fallback does not.
   */
  function GenerateExplanation(
    application: Record, decision: Decision, criteria: CriteriaEvaluation,
    complete: Prompt -> Option<string>): (r: string)
    ensures r == FallbackExplanation <==> complete(Prompt(decision, application, CriteriaDetails(criteria))).None?
  {
    match complete(Prompt(decision, application, CriteriaDetails(criteria)))
    case None => FallbackExplanation
    case Some(text) =>
      var r := TruncateSentences(Strip(text));
      assert r[|r| - 1] == '.' && FallbackExplanation[|FallbackExplanation| - 1] == 'e';
      r
  }

  /**
   * A successful completion yields the first min(n, 3) ". "-separated fragments of its
   * stripped text, as a prefix of that text, followed by ".".
   */
  lemma ExplanationFromCompletion(
    application: Record, decision: Decision, criteria: CriteriaEvaluation,
    complete: Prompt -> Option<string>, text: string)
    requires complete(Prompt(decision, application, CriteriaDetails(criteria))) == Some(text)
    ensures var r := GenerateExplanation(application, decision, criteria, complete);
      var fragments := Split(Strip(text), SentenceSeparator);
      && |r| >= 1 && r[|r| - 1] == '.'
      && r[..|r| - 1] <= Strip(text)
      && Split(r[..|r| - 1], SentenceSeparator)
         == fragments[..if |fragments| <= MaxSentences then |fragments| else MaxSentences]
      && |Split(r[..|r| - 1], SentenceSeparator)| <= MaxSentences
  {
    TruncateKeepsLeadingFragments(Strip(text));
  }
}
