# Eval runner of the proto-event-contracts agent, modelled in Dafny

`run_evals.py` runs the proto-event-contracts review agent once per fixture in
its case list and grades each answer with plain text matching. This project
models the parts that decide the outcome, and proves properties of them:

- `grade_clean` (`grader.dfy`). A case that expects a clean fixture fails
  exactly when the agent's output matches `must[- ]fix`, ignoring case.
- `grade_finding` (`grader.dfy`). A case that expects a finding passes exactly
  when two things hold: every keyword occurs in the output, ignoring case, and
  the severity occurs in it literally (`re.escape`), ignoring case. On failure
  the detail lists the missing keywords first, then the severity message,
  joined by `"; "`.
- The per-case loop of `main`, its summary counts, the failed-cases listing and
  the exit code (`runner.dfy`).

Supporting modules:

- `text.dfy` holds the string primitives: ASCII `str.lower`, substring
  membership `in`, `str.join`, and how a list of strings is rendered in an
  f-string.
- `pattern.dfy` holds the two regular expressions. Each is a sequence of
  character classes, and `re.search` with `re.IGNORECASE` is defined over that
  sequence. Two lemmas state what each expression means:
  - `must[- ]fix` matches exactly when the lower-cased text contains
    "must-fix" or "must fix";
  - `re.escape(s)` matches exactly when the lower-cased text contains the
    lower-cased `s`.
- `scenarios.dfy` holds worked cases on concrete outputs.

The agent call is an oracle. For each case, an `Env` gives two things:

- whether the fixture file exists;
- what running the agent yields: the completed output, a timeout, or "command
  not found".

The loop is proved to append exactly the result each case calls for, in case
order. It stops at the first case whose agent command is missing. The result of
a case whose fixture is missing does not depend on the agent's outcome
(`Runner.SkipIgnoresAgent`).

Behaviours of the code worth knowing:

- The severity is matched literally (run_evals.py:86): it goes through
  `re.escape`, so severity `must-fix` is not found in the text "must fix",
  while the clean grader's `must[- ]fix` flags both spellings
  (`Scenarios.SeverityIsLiteral`, `Scenarios.SpacedMustFixIsFlagged`).
- A missing fixture is recorded as `skip` (run_evals.py:141-144), not as a
  failure, so it never makes the exit code non-zero (run_evals.py:203).
- A missing `opencode` command (run_evals.py:152-159) records no result for
  that case: it ends the whole run with exit code 1 before the summary
  (`Runner.Report.Aborted`).
- The clean grader's failure detail is a fixed message (run_evals.py:68). It
  does not quote the text that matched.

## Model

| member | source | states |
|---|---|---|
| Text.LowerStr | agents/proto-event-contracts/evals/run_evals.py:80-83 | lower-casing keeps the length and lower-cases each character in place |
| Text.ContainsIff | agents/proto-event-contracts/evals/run_evals.py:83 | substring membership holds exactly when the needle occurs at some index of the haystack |
| Text.EmptyContained | agents/proto-event-contracts/evals/run_evals.py:83 | the empty string is contained in every string |
| Text.Join | agents/proto-event-contracts/evals/run_evals.py:96 | joining no parts gives "", one part gives that part, two parts give them with the separator between |
| Text.ListRepr | agents/proto-event-contracts/evals/run_evals.py:91 | a rendered list is bracketed by '[' and ']' and contains every item of the list between single quotes |
| Text.QuotedItems | agents/proto-event-contracts/evals/run_evals.py:91 | the items part of a rendered list is empty exactly when the list is |
| Text.QuotedItemsNames | agents/proto-event-contracts/evals/run_evals.py:91 | every item of the list appears, quoted, in the rendered items |
| Text.ContainedInside | agents/proto-event-contracts/evals/run_evals.py:91-96 | text contained in a part of a message is contained in the whole message |
| Pattern.Escape | agents/proto-event-contracts/evals/run_evals.py:86 | the escaped literal has one class per character, accepting exactly that character ignoring case |
| Pattern.MatchesPrefixIff | agents/proto-event-contracts/evals/run_evals.py:66-67 | a pattern matches at the start of a text exactly when the text is long enough and each character is accepted by its class |
| Pattern.SearchIff | agents/proto-event-contracts/evals/run_evals.py:67 | a search succeeds exactly when the pattern matches at some index |
| Pattern.EscapedPrefix | agents/proto-event-contracts/evals/run_evals.py:86-87 | the escaped severity matches at the start of a text exactly when the lower-cased text starts with the lower-cased severity |
| Pattern.EscapedSearch | agents/proto-event-contracts/evals/run_evals.py:86-87 | the severity search succeeds exactly when the lower-cased severity is a substring of the lower-cased output |
| Pattern.MustFixPrefix | agents/proto-event-contracts/evals/run_evals.py:66-67 | `must[- ]fix` matches at the start exactly when the lower-cased text starts with "must-fix" or "must fix" |
| Pattern.MustFixSearch | agents/proto-event-contracts/evals/run_evals.py:66-67 | `must[- ]fix` is found exactly when the lower-cased text contains "must-fix" or "must fix" |
| Pattern.MustFixMatchShape | agents/proto-event-contracts/evals/run_evals.py:66-67 | where `must[- ]fix` matches, the text reads m,u,s,t in any case, then one hyphen or one space, then f,i,x in any case |
| Grader.GradeClean | agents/proto-event-contracts/evals/run_evals.py:59-69 | the clean grader fails exactly when the lower-cased output contains "must-fix" or "must fix"; the detail is the fixed fail or pass message |
| Grader.MissingKeywords | agents/proto-event-contracts/evals/run_evals.py:80-84 | the missing keywords are at most as many as the keywords, and each is a listed keyword the output does not contain, ignoring case |
| Grader.MissingKeywordsSnoc | agents/proto-event-contracts/evals/run_evals.py:82-84 | checking one more keyword appends it to the missing list exactly when the output does not contain it |
| Grader.MissingKeywordsMultiplicity | agents/proto-event-contracts/evals/run_evals.py:80-84 | a keyword the output lacks is missing as many times as it is listed; a keyword it contains is never missing |
| Grader.MissingKeywordsInOrder | agents/proto-event-contracts/evals/run_evals.py:80-84 | the missing keywords are a subsequence of the keyword list, in its order |
| Grader.MissingKeywordsMembership | agents/proto-event-contracts/evals/run_evals.py:80-84 | a keyword is missing exactly when it is listed and not contained in the output, ignoring case |
| Grader.MissingKeywordsEmptyIff | agents/proto-event-contracts/evals/run_evals.py:80-84 | no keyword is missing exactly when every keyword is contained in the output, ignoring case |
| Grader.SeverityFound | agents/proto-event-contracts/evals/run_evals.py:86-87 | the severity search succeeds exactly when the output contains the severity, ignoring case |
| Grader.MissingKeywordsMessage | agents/proto-event-contracts/evals/run_evals.py:91 | the keyword message names every missing keyword between single quotes |
| Grader.SeverityMessage | agents/proto-event-contracts/evals/run_evals.py:93 | the severity message names the severity between single quotes |
| Grader.FoundAllMessage | agents/proto-event-contracts/evals/run_evals.py:97 | the pass detail names every keyword and the severity between single quotes |
| Grader.FindingErrors | agents/proto-event-contracts/evals/run_evals.py:89-93 | one error per failed check; the missing-keywords message comes first, the severity message last |
| Grader.FindingVerdict | agents/proto-event-contracts/evals/run_evals.py:72-97 | a finding case passes exactly when every keyword and the severity occur in the output, ignoring case, and exactly when the error list is empty |
| Grader.FindingFailureDetail | agents/proto-event-contracts/evals/run_evals.py:89-97 | the detail is the keyword message alone, the severity message alone, both joined by "; " in that order, or the found-all message |
| Grader.FailureDetailNamesMisses | agents/proto-event-contracts/evals/run_evals.py:89-96 | the failure reason names every missing keyword, quoted, and names the severity when it was not found |
| Grader.NoKeywordsOnlySeverity | agents/proto-event-contracts/evals/run_evals.py:82-87 | with no keywords, the verdict passes exactly when the severity is found |
| Grader.EmptySeverityFound | agents/proto-event-contracts/evals/run_evals.py:86-87 | an empty severity is found in every output |
| Grader.FoundAt | agents/proto-event-contracts/evals/run_evals.py:83 | a needle that matches the output at a known index, ignoring case, is contained in it |
| Grader.AbsentWithoutLetter | agents/proto-event-contracts/evals/run_evals.py:83 | a needle with a letter that the output lacks in either case is not contained in it |
| Grader.GradeFinding | agents/proto-event-contracts/evals/run_evals.py:72-97 | the loop and the error list produce the verdict that passes exactly when every keyword and the severity occur in the output, ignoring case |
| Runner.Grade | agents/proto-event-contracts/evals/run_evals.py:168-171 | a clean case is graded by the must-fix test alone, ignoring severity and keywords; any other case by the keyword-and-severity test |
| Runner.StepFor | agents/proto-event-contracts/evals/run_evals.py:141-176 | missing fixture gives skip with "fixture not found"; timeout gives fail with "agent timed out"; a missing agent ends the run; otherwise pass exactly when the chosen grading function passes, with its detail |
| Runner.RunCase | agents/proto-event-contracts/evals/run_evals.py:132-176 | one loop iteration yields exactly the step the case and its environment call for |
| Runner.ReplayedPrefixSnoc | agents/proto-event-contracts/evals/run_evals.py:176 | appending the next case's result keeps the results a replay of the case list |
| Runner.SkipIgnoresAgent | agents/proto-event-contracts/evals/run_evals.py:141-144 | a case whose fixture is missing gets the same result whatever the agent would have done, so the agent is not consulted |
| Runner.RunCases | agents/proto-event-contracts/evals/run_evals.py:129-176 | one result per case in case order, each the one its case and environment call for, up to the first case whose agent command is missing |
| Runner.ReplayDeterministic | agents/proto-event-contracts/evals/run_evals.py:129-176 | the case list and the environment determine the results and whether the run ends early |
| Runner.AbortedIffAgentMissing | agents/proto-event-contracts/evals/run_evals.py:146-159 | the run ends early exactly when some case with an existing fixture finds no agent; otherwise every case has a result |
| Runner.ResultsFollowCases | agents/proto-event-contracts/evals/run_evals.py:141-176 | result j belongs to case j, and it is skip exactly when that case's fixture is missing |
| Runner.WithStatus | agents/proto-event-contracts/evals/run_evals.py:185-187 | selecting by status keeps only results of the list that have that status (the partner lemmas below give order and membership) |
| Runner.WithStatusSnoc | agents/proto-event-contracts/evals/run_evals.py:185-187 | selecting by status over one more result appends it exactly when it has that status |
| Runner.WithStatusMembership | agents/proto-event-contracts/evals/run_evals.py:185-187 | a result is selected exactly when it is in the list and has the status |
| Runner.StatusCountsPartition | agents/proto-event-contracts/evals/run_evals.py:184-187 | passed + failed + skipped == total |
| Runner.CountStatus | agents/proto-event-contracts/evals/run_evals.py:185-187 | the count is the number of results with the status |
| Runner.Summarize | agents/proto-event-contracts/evals/run_evals.py:184-187 | total is the number of results, each count is the number with that status, and the counts add up to total |
| Runner.ListFailed | agents/proto-event-contracts/evals/run_evals.py:196-200 | the listing is exactly the failed results, in order |
| Runner.NoFailureIff | agents/proto-event-contracts/evals/run_evals.py:196-203 | the failed count is zero exactly when no result has status fail; skipped results do not count |
| Runner.ExitCode | agents/proto-event-contracts/evals/run_evals.py:203 | the exit code is 0 or 1, and 0 exactly when the failed count is zero |
| Runner.RunEvals | agents/proto-event-contracts/evals/run_evals.py:129-203 | the results replay the case list; a finished run reports total and the pass, fail and skip counts of its results, which add up, and lists exactly its failed results; the exit code is 0 exactly when the run finished with no failed result, else 1 |
| Scenarios.NoMatchInCleanText | agents/proto-event-contracts/evals/run_evals.py:66-67 | `must[- ]fix` does not occur in "No issues found." |
| Scenarios.CleanOutputPasses | agents/proto-event-contracts/evals/run_evals.py:59-69 | "No issues found." passes the clean grader with the clean message |
| Scenarios.UpperCaseAnywhereFails | agents/proto-event-contracts/evals/run_evals.py:66-68 | "MUST-FIX" anywhere in the output fails the clean grader |
| Scenarios.UpperCaseMustFixFails | agents/proto-event-contracts/evals/run_evals.py:66-68 | "This is a MUST-FIX issue." fails the clean grader with the fixed message |
| Scenarios.NearMissesPass | agents/proto-event-contracts/evals/run_evals.py:66-69 | "mustfix" and "must  fix" (two spaces) pass the clean grader |
| Scenarios.EventMetaFound | agents/proto-event-contracts/evals/run_evals.py:82-84 | the keyword "event_meta" is found in a sample finding |
| Scenarios.MustFixSeverityFound | agents/proto-event-contracts/evals/run_evals.py:86-87 | severity "must-fix" is found in "Must-fix: ...", despite the case difference |
| Scenarios.FindingPasses | agents/proto-event-contracts/evals/run_evals.py:72-97 | a sample output with the keyword and the severity passes |
| Scenarios.ShouldFixSeverityFound | agents/proto-event-contracts/evals/run_evals.py:86-87 | severity "should-fix" is found in "Should-fix: ..." |
| Scenarios.SequenceFound | agents/proto-event-contracts/evals/run_evals.py:82-84 | the keyword "sequence" is found in the sample |
| Scenarios.LwwAbsent | agents/proto-event-contracts/evals/run_evals.py:82-84 | the keyword "LWW" is not found in the sample |
| Scenarios.OnlyLwwMissing | agents/proto-event-contracts/evals/run_evals.py:80-84 | of ["sequence", "LWW"], only "LWW" is missing |
| Scenarios.LwwMessage | agents/proto-event-contracts/evals/run_evals.py:91 | the keyword message for ["LWW"] reads "Missing keywords: ['LWW']" |
| Scenarios.TwoKeywordsMessage | agents/proto-event-contracts/evals/run_evals.py:91 | the keyword message for ["sequence", "LWW"] reads "Missing keywords: ['sequence', 'LWW']": items in list order, separated by ", " |
| Scenarios.OnlyKeywordError | agents/proto-event-contracts/evals/run_evals.py:89-93 | with the severity found, the only error is the keyword message |
| Scenarios.MissingKeywordNamed | agents/proto-event-contracts/evals/run_evals.py:95-96 | the sample fails with the detail "Missing keywords: ['LWW']" |
| Scenarios.HyphenSeverityNotInSpacedText | agents/proto-event-contracts/evals/run_evals.py:86-87 | severity "must-fix" is not found in the text "must fix" |
| Scenarios.SeverityIsLiteral | agents/proto-event-contracts/evals/run_evals.py:86-97 | a finding case with severity "must-fix" fails on the output "must fix" |
| Scenarios.SpacedMustFixIsFlagged | agents/proto-event-contracts/evals/run_evals.py:66-68 | the clean grader flags "must fix" |
| Scenarios.TimeoutThenSkip | agents/proto-event-contracts/evals/run_evals.py:141-151 | a timeout is recorded as fail and the loop goes on; the next missing fixture is recorded as skip |
| Scenarios.MissingAgentEndsRun | agents/proto-event-contracts/evals/run_evals.py:152-159 | a missing agent on the first case ends the run with no results |

## Left out

- `run_agent` (run_evals.py:33-56) is not modelled. The subprocess command line, the `--model` option, the 120-second timeout and the capture of stdout and stderr are process I/O. Each case's outcome is an input instead: the completed output, a timeout, or a missing command.
- The agent's return code is carried in `Completed` but never read, as in the source.
- `load_cases`, the JSON case list, the `cases.json` existence check and its `sys.exit(1)` (run_evals.py:27-30, 118-127) are file I/O. The case list is an input, with `severity` as an `Option` and an absent `keywords` entry read as the empty list.
- A case lacking `fixture` or `expect_clean` raises `KeyError`. The model's `Case` always has both fields.
- Path resolution and the fixture `exists()` check are filesystem access. Whether each fixture exists is an input.
- Command-line options, progress lines, verbose output and the printed summary are not modelled. The report holds the values the summary prints: the counts and the failed cases.
- A finding case with no severity raises `TypeError` in `re.escape`. The model requires a severity for every finding case the loop grades (`Runner.Gradable`); it does not model the exception.
- `FileNotFoundError` from the agent is modelled as ending the run (`Runner.Report.Aborted`, exit code 1). Other exceptions from `run_agent` are not modelled.
- Text.LowerStr: lower-cases ASCII letters only. Python's `str.lower` and `re.IGNORECASE` also fold non-ASCII letters, and those rules are not modelled.
- Text.ListRepr: renders every string between single quotes. Python's `repr` switches to double quotes for strings that contain a single quote and escapes special characters; this is not modelled.
- Pattern.Escape: models only the meaning of `re.escape` (each character stands for itself). The escaped pattern text is not modelled.
