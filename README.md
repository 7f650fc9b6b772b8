# Loan approval decision engine

A Dafny model of the decision logic of a small loan approval service
(`LoanApprovalSystem` in `flaskapp.py`). One application record is checked against
nine fixed eligibility criteria. The application is Approved when at least eight of
them hold, and Declined otherwise. A text-completion service is then asked for a short
rationale. Its answer is cut to three `". "`-separated sentences. When the call fails,
a fixed fallback text is used instead.

Modules:

- `Wrappers` (`wrappers.dfy`): `Option` (a JSON key that may be absent, or a call that
  may fail) and `Result` (an operation that may raise).
- `Strings` (`strings.dfy`): Python's `str.split(sep)`, `sep.join(parts)` and
  `str.strip()`, with the round-trip facts the explanation relies on.
- `LoanApproval` (`evaluation.dfy`): the application record, the nine criteria, their
  keys, `extract_from_files`, and `evaluate_application`. The evaluation is an
  imperative method: nine insertions in order, then a counting loop. It is proved equal
  to the specification function `Evaluate`, and the count and decision lemmas are stated
  about that function.
- `Explanation` (`explanation.dfy`): the criteria summary placed in the prompt, the
  sentence truncation, and the fallback.
- `Processor` (`processor.dfy`): `process_application`, which builds the result record.
- `Urls` (`url.dfy`): `format_url`.

Modelling choices:

- The JSON record is the datatype `LoanApproval.Record`. `Monthly Gross Income` and
  `Credit Score` are read with `.get(key, 0)`, so they are `Option`s that default to 0.
  Every other key is read with `[key]` and is a required field. The source passes the
  same record as application and as supporting document, and so does the model.
- Money, ratios and years in the job are `real`. That makes `dti <= 0.43` and
  `loan <= 0.6 * (12 * income)` exact comparisons.
- Dividing by a zero monthly income raises in the source (flaskapp.py:55). In the model
  it is the error `ZeroIncome`, and it propagates out of `ProcessApplication`.
- The birth year is the year of the `dd/mm/yyyy` date of birth. The current year is a
  parameter. Age is the difference of the two years, as in the source.
- The ordered dictionary of criteria is a sequence of (criterion, outcome) pairs.
  `Label` gives each criterion's dictionary key.
- The completion service is a function parameter `Prompt -> Option<string>`. `None`
  stands for any exception raised by the call or by reading its response.
- The truncation always appends `"."`, even when the kept text already ends with one
  (flaskapp.py:99). Appending it only when it is missing would be a different behaviour.
  The model follows the code, and `TruncateDoublesFinalPeriod` states the consequence.
- The docstring of `format_url` says the result starts with `http://` or `https://`.
  The code only guarantees this for inputs that already do or that begin with `//`.
  `FormatUrl`'s contract states exactly when it holds, and `FormatUrlBareHost` gives an
  input where it fails.

## Model

| member | source | states |
|---|---|---|
| `Strings.Split` | flaskapp.py:98 | `text.split(". ")` always returns at least one fragment |
| `Strings.Join` | flaskapp.py:99 | `sep.join(parts)`: no parts give "", one part is kept as it is, and a join starts with its first part; `JoinSplit`/`SplitJoin` make it the inverse of `Split` |
| `Strings.JoinSplit` | flaskapp.py:98-99 | joining the fragments of a split with the same separator gives the original text back |
| `Strings.SplitFragments` | flaskapp.py:98 | no fragment of a split contains the separator, and the first fragment is a prefix of the text |
| `Strings.SplitJoin` | flaskapp.py:98-99 | for separator-free fragments and a separator with no self-overlap, splitting their join gives the fragments back |
| `Strings.JoinPrefix` | flaskapp.py:99 | joining a leading run of fragments gives a prefix of the joined whole |
| `Strings.Strip` | flaskapp.py:96 | the result is a slice `s[i..j]` of the text with only whitespace before `i` and from `j` on, and neither of its own ends is whitespace, so exactly the whitespace at both ends is removed; a text without whitespace at its ends is unchanged |
| `LoanApproval.Label` | flaskapp.py:59-70 | each of the nine dictionary keys is one line of text (no newline) |
| `LoanApproval.LabelsDistinct` | flaskapp.py:59-70 | the nine keys are pairwise different, so no insertion overwrites another and the dictionary holds nine entries |
| `LoanApproval.ExtractFromFiles` | flaskapp.py:45-50 | income and credit score are the record's values, or 0 when the key is missing |
| `LoanApproval.CountMet` | flaskapp.py:72-74 | the number of satisfied criteria is at most the number of criteria |
| `LoanApproval.RecordCriteria` | flaskapp.py:56-70 | the nine successive insertions produce exactly the specified criteria sequence, in the fixed order |
| `LoanApproval.CountPassed` | flaskapp.py:72-74 | the counting loop returns the number of true outcomes |
| `LoanApproval.EvaluateApplication` | flaskapp.py:52-77 | the method returns exactly what the specification `Evaluate` gives: the ZeroIncome error, or the decision and the nine criteria |
| `LoanApproval.Decide` | flaskapp.py:76 | Approved exactly when at least eight criteria pass (8 itself included), Declined exactly when fewer do |
| `LoanApproval.Criteria` | flaskapp.py:56-70 | the reference list of entries: nine, keyed in the source's insertion order (debt-to-income … residency); their outcomes are stated by `NumericCriteria` and `ExactMatchCriteria` |
| `LoanApproval.Evaluate` | flaskapp.py:45-77 | the reference evaluation: it fails (ZeroIncome) exactly when the income (0 when missing) is zero, and always when it is missing; otherwise it holds nine criteria in the fixed key order and is Approved iff at least eight hold |
| `LoanApproval.NumericCriteria` | flaskapp.py:59-69 | DTI ≤ 0.43, score ≥ 670 (0 when missing), loans < 5, loan ≤ 0.6·(12·income), job ≥ 2 years, 18 ≤ currentYear − birthYear ≤ 70 inclusive |
| `LoanApproval.ExactMatchCriteria` | flaskapp.py:61-70 | sector and residency are exact, case-sensitive list membership tests and bankruptcy is exact equality with "No"; any other value gives false, never an error |
| `LoanApproval.CountMetIsMultiplicity` | flaskapp.py:72-74 | the count is the number of `true` outcomes, regardless of their positions |
| `LoanApproval.DecisionIgnoresWhichCriteriaHold` | flaskapp.py:72-76 | two evaluations whose outcomes form the same multiset get the same decision, so no criterion is weighted |
| `LoanApproval.SatisfyOneMore` | flaskapp.py:72-74 | turning one false criterion true raises the count by exactly one |
| `LoanApproval.CountMetMonotone` | flaskapp.py:72-74 | outcomes that only change from false to true never lower the count |
| `LoanApproval.ApprovalMonotone` | flaskapp.py:72-76 | making more criteria true never turns Approved into Declined |
| `LoanApproval.AtMostOneUnmet` | flaskapp.py:72-76 | the count is at least length − 1 exactly when no two criteria both fail |
| `LoanApproval.ApprovedIffAtMostOneFails` | flaskapp.py:72-76 | with nine criteria, the decision is Approved exactly when at most one criterion fails |
| `LoanApproval.ExampleAllMetApproved` | flaskapp.py:56-76 | DTI 0.3, score 700, IT, 2 loans, 40% of annual income, 3 years, no bankruptcy, age 35, citizen: all nine hold, Approved |
| `LoanApproval.ExampleSevenMetDeclined` | flaskapp.py:56-76 | the same with score 600 and sector "Retail": seven hold, Declined |
| `LoanApproval.ExampleEightMetApproved` | flaskapp.py:56-76 | the same with five existing loans: exactly eight hold, Approved (the threshold is inclusive) |
| `LoanApproval.ExampleSectorCaseSensitive` | flaskapp.py:61 | the sector "it" does not match "IT" |
| `Explanation.CriteriaDetails` | flaskapp.py:81 | the criteria summary is empty for no entries; otherwise splitting it at newlines gives exactly one "- key: Met/Not Met" line per entry, in order |
| `Explanation.EvaluationDetails` | flaskapp.py:81 | the summary of an evaluation has nine lines; line i names the i-th criterion's key and its outcome |
| `Explanation.TruncateSentences` | flaskapp.py:97-99 | the truncated explanation always ends with "." |
| `Explanation.TruncateShortText` | flaskapp.py:97-99 | a text with at most three fragments is returned whole, followed by "." |
| `Explanation.TruncateKeepsLeadingFragments` | flaskapp.py:97-99 | before the final ".", the result is a prefix of the text; it re-splits into the first min(n,3) fragments, so it holds at most two ". " separators |
| `Explanation.TruncateDoublesFinalPeriod` | flaskapp.py:99 | a short text that already ends in "." comes back ending in ".." |
| `Explanation.GenerateExplanation` | flaskapp.py:79-103 | the explanation is "Explanation not available" exactly when the completion call fails; its other outcome is given by `ExplanationFromCompletion` |
| `Explanation.ExplanationFromCompletion` | flaskapp.py:96-100 | a successful completion gives exactly the first min(n,3) ". "-separated fragments of its stripped text, as a prefix of that text, followed by "." |
| `Processor.ProcessApplication` | flaskapp.py:105-109 | fails (ZeroIncome) exactly when the record's income is zero or missing; otherwise carries the record's `_id`, the evaluation's decision, and the explanation generated from that decision and the evaluation's criteria |
| `Processor.ProcessWithFailedService` | flaskapp.py:101-109 | when the completion fails, the result is still the id and decision, with the fallback explanation |
| `Processor.DecisionIndependentOfService` | flaskapp.py:105-109 | two completion services yield results that differ at most in the explanation |
| `Processor.ProcessExampleApproved` | flaskapp.py:105-109 | the all-criteria-met record is processed into its id with decision Approved |
| `Urls.FormatUrl` | flaskapp.py:28-32 | a URL with `http://`/`https://` is unchanged; any other gets `https:` in front; the result has a web scheme iff the input had one or began with `//`, which then yields `https://`; the input is always a suffix of the result |
| `Urls.FormatUrlIdempotentIff` | flaskapp.py:28-32 | formatting twice equals formatting once exactly when the input has a web scheme or begins with `//` |
| `Urls.FormatUrlBareHost` | flaskapp.py:29-31 | "example.com" becomes "https:example.com", which has no web scheme, so a second pass changes it again |

## Left out

- HTTP transport: the Flask routes, the JSON request and response handling, and the 200/500 status mapping (flaskapp.py:112-137).
- The OpenAI client construction, the API-key environment check (flaskapp.py:10-18), and the `completions.create` call with its model name and `max_tokens` (flaskapp.py:91-95). These are a foreign network service. Its answer is the `complete` parameter.
- Logging calls (flaskapp.py:21, 102, 123, 132). They have no observable result.
- `is_url` (flaskapp.py:35-41) is not part of this model. It is a thin wrapper over `urllib.parse.urlparse`.
- `datetime.strptime` and `datetime.now()` (flaskapp.py:67-68). The birth year is a record field and the current year a parameter. A malformed date, which would raise ValueError, is not modelled.
- A missing required key (KeyError) and a JSON value of an unexpected type (TypeError) are not modelled. The record's fields are typed and always present.
- Floating-point rounding at the 0.43 and 0.6 × 12 boundaries. The model uses exact reals.
- Strings.Strip: removes only the ASCII characters that `str.strip()` removes (space, tab, line feed, carriage return, vertical tab, form feed, U+001C to U+001F). Python's `str.strip()` also removes non-ASCII whitespace such as U+0085 and U+00A0.
- The free text of the prompt and the Python `repr` of the application (flaskapp.py:82-88). `Prompt` keeps the structured parts: the decision, the record and the criteria summary.
- Idempotence of processing is not stated as a lemma. `ProcessApplication` is a function of its inputs, so identical inputs and an identical completion give identical results by construction.
