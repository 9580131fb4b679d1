/**
 * Worked cases of the graders and the run controller on concrete outputs,
 * including the ones where the regular expressions are stricter than a
 * reader might expect.
 */
module Scenarios {
  import opened Text
  import opened Pattern
  import opened Grader
  import opened Runner

  lemma NoMatchInCleanText()
    ensures !Search(MustFix, "No issues found.")
  {
    var s := "No issues found.";
    assert forall k | 0 <= k < |s| :: Lower(s[k]) != 'm';
    SearchIff(MustFix, s);
    forall i | MatchesAt(MustFix, s, i)
      ensures false
    {
      MustFixMatchShape(s, i);
    }
  }

  /** A clean fixture whose review says "No issues found." passes. */
  lemma CleanOutputPasses()
    ensures GradeClean("No issues found.") == Verdict(true, CleanPassDetail)
  {
    NoMatchInCleanText();
  }

  /** "MUST-FIX" anywhere in the output, in upper case, is a must-fix finding. */
  lemma UpperCaseAnywhereFails(before: string, after: string)
    ensures !GradeClean(before + "MUST-FIX" + after).passed
  {
    var s := before + "MUST-FIX" + after;
    var t := s[|before|..];
    assert t == "MUST-FIX" + after;
    MatchesPrefixIff(MustFix, t);
    assert forall j | 0 <= j < 8 :: t[j] == "MUST-FIX"[j];
    assert MatchesAt(MustFix, s, |before|);
    SearchIff(MustFix, s);
  }

  lemma UpperCaseSampleParts()
    ensures "This is a " + "MUST-FIX" + " issue." == "This is a MUST-FIX issue."
  {
  }

  /** Upper case does not hide a must-fix finding from the clean grader. */
  lemma UpperCaseMustFixFails()
    ensures GradeClean("This is a MUST-FIX issue.") == Verdict(false, CleanFailDetail)
  {
    UpperCaseAnywhereFails("This is a ", " issue.");
    UpperCaseSampleParts();
  }

  /** "mustfix" (no separator) and "must  fix" (two spaces) are not must-fix findings. */
  lemma NearMissesPass()
    ensures GradeClean("mustfix").passed
    ensures GradeClean("must  fix").passed
  {
    SearchIff(MustFix, "mustfix");
    forall i | MatchesAt(MustFix, "mustfix", i)
      ensures false
    {
      MustFixMatchShape("mustfix", i);
    }
    SearchIff(MustFix, "must  fix");
    forall i | MatchesAt(MustFix, "must  fix", i)
      ensures false
    {
      MustFixMatchShape("must  fix", i);
    }
  }

  lemma EventMetaFound()
    ensures forall k | k in ["event_meta"] :: ContainsIgnoringCase("Must-fix: missing event_meta field.", k)
  {
    FoundAt("Must-fix: missing event_meta field.", "event_meta", 18);
  }

  lemma MustFixSeverityFound()
    ensures ContainsIgnoringCase("Must-fix: missing event_meta field.", "must-fix")
  {
    FoundAt("Must-fix: missing event_meta field.", "must-fix", 0);
  }

  /** The expected severity and keyword both occur, in other letter cases: pass. */
  lemma FindingPasses()
    ensures FindingVerdict("Must-fix: missing event_meta field.", "must-fix", ["event_meta"]).passed
  {
    EventMetaFound();
    MustFixSeverityFound();
  }

  lemma ShouldFixSeverityFound()
    ensures SeverityFound("Should-fix: no sequence provided.", "should-fix")
  {
    FoundAt("Should-fix: no sequence provided.", "should-fix", 0);
    EscapedSearch("should-fix", "Should-fix: no sequence provided.");
  }

  lemma SequenceFound()
    ensures ContainsIgnoringCase("Should-fix: no sequence provided.", "sequence")
  {
    FoundAt("Should-fix: no sequence provided.", "sequence", 15);
  }

  lemma LwwAbsent()
    ensures !ContainsIgnoringCase("Should-fix: no sequence provided.", "LWW")
  {
    var out := "Should-fix: no sequence provided.";
    assert forall k | 0 <= k < |out| :: Lower(out[k]) != 'w';
    AbsentWithoutLetter(out, "LWW", 1);
  }

  lemma OnlyLwwMissing()
    ensures MissingKeywords("Should-fix: no sequence provided.", ["sequence", "LWW"]) == ["LWW"]
  {
    SequenceFound();
    LwwAbsent();
  }

  lemma LwwMessage()
    ensures MissingKeywordsMessage(["LWW"]) == "Missing keywords: ['LWW']"
  {
  }

  /** Two missing keywords are listed in keyword order, separated by ", ". */
  lemma TwoKeywordsMessage()
    ensures MissingKeywordsMessage(["sequence", "LWW"]) == "Missing keywords: ['sequence', 'LWW']"
  {
    var xs := ["sequence", "LWW"];
    assert xs[1..] == ["LWW"];
    assert QuotedItems(xs) == Quote("sequence") + ", " + Quote("LWW");
  }

  lemma OnlyKeywordError()
    ensures FindingErrors("Should-fix: no sequence provided.", "should-fix", ["sequence", "LWW"])
      == ["Missing keywords: ['LWW']"]
  {
    OnlyLwwMissing();
    ShouldFixSeverityFound();
    LwwMessage();
    var errors := FindingErrors("Should-fix: no sequence provided.", "should-fix", ["sequence", "LWW"]);
    assert |errors| == 1;
  }

  /** The keyword "LWW" is absent: fail, and the detail names it. */
  lemma MissingKeywordNamed()
    ensures FindingVerdict("Should-fix: no sequence provided.", "should-fix", ["sequence", "LWW"])
      == Verdict(false, "Missing keywords: ['LWW']")
  {
    OnlyKeywordError();
  }

  lemma HyphenSeverityNotInSpacedText()
    ensures !SeverityFound("must fix", "must-fix")
  {
    var p := Escape("must-fix");
    SearchIff(p, "must fix");
    forall i | MatchesAt(p, "must fix", i)
      ensures false
    {
      MatchesPrefixIff(p, "must fix"[i..]);
    }
  }

  /** The severity is matched literally: severity "must-fix" is not found in the text "must fix". */
  lemma SeverityIsLiteral()
    ensures !FindingVerdict("must fix", "must-fix", []).passed
  {
    HyphenSeverityNotInSpacedText();
    NoKeywordsOnlySeverity("must fix", "must-fix");
  }

  /** The clean grader, unlike the severity check, flags the spaced spelling too. */
  lemma SpacedMustFixIsFlagged()
    ensures !GradeClean("must fix").passed
  {
    assert MatchesPrefix(MustFix, "must fix");
  }

  /**
   * A timed-out case fails with "agent timed out" and the loop goes on: the
   * next case, whose fixture is missing, is still recorded as skipped.
   */
  lemma TimeoutThenSkip(results: seq<CaseResult>, aborted: bool)
    requires ReplayedAs([Case("a.proto", true, None, []), Case("b.proto", true, None, [])],
                        [Env(true, TimedOut), Env(false, CommandNotFound)], results, aborted)
    ensures !aborted
    ensures results == [CaseResult("a.proto", Fail, AgentTimedOut), CaseResult("b.proto", Skip, FixtureNotFound)]
  {
    var cases := [Case("a.proto", true, None, []), Case("b.proto", true, None, [])];
    var world := [Env(true, TimedOut), Env(false, CommandNotFound)];
    AbortedIffAgentMissing(cases, world, results, aborted);
    assert StepFor(cases[0], world[0]) == Record(results[0]);
    assert StepFor(cases[1], world[1]) == Record(results[1]);
  }

  /** When the agent command is missing, the run ends at that case: no later case is recorded. */
  lemma MissingAgentEndsRun(results: seq<CaseResult>, aborted: bool)
    requires ReplayedAs([Case("a.proto", false, Some("must-fix"), ["event_meta"]), Case("b.proto", true, None, [])],
                        [Env(true, CommandNotFound), Env(true, Completed(0, "No issues found."))], results, aborted)
    ensures aborted && results == []
  {
    var world := [Env(true, CommandNotFound), Env(true, Completed(0, "No issues found."))];
    assert Aborts(world[0]);
  }
}
