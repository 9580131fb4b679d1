/**
 * The two graders of the eval runner. A grader reads the agent's free-text
 * output and returns a verdict (pass or fail) with a detail string for the
 * report.
 */
module Grader {
  import opened Text
  import opened Pattern

  /** What a grader returns: the pass/fail decision and its explanation. */
  datatype Verdict = Verdict(passed: bool, detail: string)

  /** `needle.lower() in output.lower()`, the keyword test. */
  predicate ContainsIgnoringCase(output: string, needle: string)
  {
    Contains(LowerStr(output), LowerStr(needle))
  }

  const CleanFailDetail: string := "Expected clean output but found 'must-fix' / 'must fix'"
  const CleanPassDetail: string := "Clean — no must-fix findings detected"

  /**
   * Grades a case whose fixture should yield no must-fix finding: the output
   * fails exactly when it spells "must-fix" or "must fix" in any letter case.
   */
  function GradeClean(output: string): (v: Verdict)
    ensures !v.passed <==>
      Contains(LowerStr(output), "must-fix") || Contains(LowerStr(output), "must fix")
    ensures v.detail == if v.passed then CleanPassDetail else CleanFailDetail
  {
    MustFixSearch(output);
    if Search(MustFix, output) then Verdict(false, CleanFailDetail)
    else Verdict(true, CleanPassDetail)
  }

  /** The keywords, in their order and with repeats, that the output does not contain. */
  function MissingKeywords(output: string, keywords: seq<string>): (missing: seq<string>)
    ensures |missing| <= |keywords|
    ensures forall k | k in missing :: k in keywords && !ContainsIgnoringCase(output, k)
  {
    if keywords == [] then []
    else (if ContainsIgnoringCase(output, keywords[0]) then [] else [keywords[0]])
         + MissingKeywords(output, keywords[1..])
  }

  /** Checking one more keyword at the end extends the missing list by at most that keyword. */
  lemma {:induction false} MissingKeywordsSnoc(output: string, keywords: seq<string>, k: string)
    ensures MissingKeywords(output, keywords + [k]) ==
      MissingKeywords(output, keywords) + (if ContainsIgnoringCase(output, k) then [] else [k])
  {
    if keywords != [] {
      assert (keywords + [k])[1..] == keywords[1..] + [k];
      MissingKeywordsSnoc(output, keywords[1..], k);
    }
  }

  /** A missing keyword occurs as often as in the keyword list; a found keyword never occurs. */
  lemma {:induction false} MissingKeywordsMultiplicity(output: string, keywords: seq<string>, k: string)
    ensures multiset(MissingKeywords(output, keywords))[k] ==
      if ContainsIgnoringCase(output, k) then 0 else multiset(keywords)[k]
  {
    if keywords != [] {
      MissingKeywordsMultiplicity(output, keywords[1..], k);
      assert keywords == [keywords[0]] + keywords[1..];
    }
  }

  /** `xs` is `ys` with some elements dropped and the rest kept in order. */
  ghost predicate SubsequenceOf<T>(xs: seq<T>, ys: seq<T>)
    decreases |ys|
  {
    xs == [] ||
    (ys != [] &&
     (SubsequenceOf(xs, ys[1..]) || (xs[0] == ys[0] && SubsequenceOf(xs[1..], ys[1..]))))
  }

  /** The missing keywords keep the order of the keyword list. */
  lemma {:induction false} MissingKeywordsInOrder(output: string, keywords: seq<string>)
    ensures SubsequenceOf(MissingKeywords(output, keywords), keywords)
  {
    if keywords != [] {
      var rest := MissingKeywords(output, keywords[1..]);
      MissingKeywordsInOrder(output, keywords[1..]);
      if ContainsIgnoringCase(output, keywords[0]) {
        assert MissingKeywords(output, keywords) == rest;
      } else {
        assert MissingKeywords(output, keywords) == [keywords[0]] + rest;
        assert ([keywords[0]] + rest)[1..] == rest;
      }
    }
  }

  /** A keyword is reported missing exactly when it is listed and not contained in the output. */
  lemma MissingKeywordsMembership(output: string, keywords: seq<string>, k: string)
    ensures k in MissingKeywords(output, keywords) <==>
      k in keywords && !ContainsIgnoringCase(output, k)
  {
    MissingKeywordsMultiplicity(output, keywords, k);
  }

  /** No keyword is missing exactly when every keyword is contained in the output. */
  lemma MissingKeywordsEmptyIff(output: string, keywords: seq<string>)
    ensures MissingKeywords(output, keywords) == [] <==>
      forall k | k in keywords :: ContainsIgnoringCase(output, k)
  {
    if MissingKeywords(output, keywords) != [] {
      MissingKeywordsMembership(output, keywords, MissingKeywords(output, keywords)[0]);
    } else {
      forall k | k in keywords
        ensures ContainsIgnoringCase(output, k)
      {
        MissingKeywordsMembership(output, keywords, k);
      }
    }
  }

  /**
   * `re.search(re.escape(severity), output, re.IGNORECASE)` finds a match,
   * which is the keyword test applied to the severity.
   */
  predicate SeverityFound(output: string, severity: string): (found: bool)
    ensures found <==> ContainsIgnoringCase(output, severity)
  {
    EscapedSearch(severity, output);
    Search(Escape(severity), output)
  }

  /** The keyword part of a failure reason names every missing keyword, quoted. */
  function MissingKeywordsMessage(missing: seq<string>): (msg: string)
    ensures forall k | k in missing :: Contains(msg, Quote(k))
  {
    var prefix := "Missing keywords: ";
    ContainsAllInside(prefix, ListRepr(missing), "");
    assert prefix + ListRepr(missing) + "" == prefix + ListRepr(missing);
    prefix + ListRepr(missing)
  }

  /** The severity part of a failure reason names the severity, quoted. */
  function SeverityMessage(severity: string): (msg: string)
    ensures Contains(msg, Quote(severity))
  {
    SelfContained(Quote(severity));
    ContainedInside("Severity ", Quote(severity), " not found in output", Quote(severity));
    "Severity " + Quote(severity) + " not found in output"
  }

  /** The pass detail names every keyword and the severity, quoted. */
  function FoundAllMessage(keywords: seq<string>, severity: string): (msg: string)
    ensures forall k | k in keywords :: Contains(msg, Quote(k))
    ensures Contains(msg, Quote(severity))
  {
    var head := "Found all keywords " + ListRepr(keywords) + " with severity ";
    ContainsAllInside("Found all keywords ", ListRepr(keywords), " with severity " + Quote(severity));
    assert "Found all keywords " + ListRepr(keywords) + (" with severity " + Quote(severity))
        == head + Quote(severity);
    SelfContained(Quote(severity));
    ContainedInside(head, Quote(severity), "", Quote(severity));
    assert head + Quote(severity) + "" == head + Quote(severity);
    head + Quote(severity)
  }

  /**
   * The error list of a finding case: a missing-keywords message when some
   * keyword is missing, then a severity message when the severity is not found.
   */
  function FindingErrors(output: string, severity: string, keywords: seq<string>): (errors: seq<string>)
    ensures |errors| ==
      (if MissingKeywords(output, keywords) == [] then 0 else 1) +
      (if SeverityFound(output, severity) then 0 else 1)
    ensures MissingKeywords(output, keywords) != [] ==>
      errors[0] == MissingKeywordsMessage(MissingKeywords(output, keywords))
    ensures !SeverityFound(output, severity) ==>
      errors[|errors| - 1] == SeverityMessage(severity)
  {
    var missing := MissingKeywords(output, keywords);
    (if missing == [] then [] else [MissingKeywordsMessage(missing)]) +
    (if SeverityFound(output, severity) then [] else [SeverityMessage(severity)])
  }

  /**
   * The verdict `grade_finding` returns: it passes exactly when every keyword
   * and the severity occur in the output, ignoring letter case.
   */
  function FindingVerdict(output: string, severity: string, keywords: seq<string>): (v: Verdict)
    ensures v.passed <==>
      (forall k | k in keywords :: ContainsIgnoringCase(output, k)) &&
      ContainsIgnoringCase(output, severity)
    ensures v.passed <==> FindingErrors(output, severity, keywords) == []
  {
    MissingKeywordsEmptyIff(output, keywords);
    EscapedSearch(severity, output);
    var errors := FindingErrors(output, severity, keywords);
    if errors != [] then Verdict(false, Join(errors, "; "))
    else Verdict(true, FoundAllMessage(keywords, severity))
  }

  /**
   * The failure detail has one part per failed check, the keyword part first,
   * joined by "; ".
   */
  lemma FindingFailureDetail(output: string, severity: string, keywords: seq<string>)
    ensures var v := FindingVerdict(output, severity, keywords);
      var missing := MissingKeywords(output, keywords);
      var found := SeverityFound(output, severity);
      && (missing != [] && found ==> v.detail == MissingKeywordsMessage(missing))
      && (missing == [] && !found ==> v.detail == SeverityMessage(severity))
      && (missing != [] && !found ==>
            v.detail == MissingKeywordsMessage(missing) + "; " + SeverityMessage(severity))
      && (missing == [] && found ==> v.detail == FoundAllMessage(keywords, severity))
  {
  }

  /** Both parts of a reason joined by "; " keep what each part contains. */
  lemma JoinedKeepsParts(first: string, second: string)
    ensures forall n | Contains(first, n) :: Contains(first + "; " + second, n)
    ensures forall n | Contains(second, n) :: Contains(first + "; " + second, n)
  {
    ContainsAllInside("", first, "; " + second);
    assert "" + first + ("; " + second) == first + "; " + second;
    ContainsAllInside(first + "; ", second, "");
    assert first + "; " + second + "" == first + "; " + second;
  }

  /**
   * A failure reason names, quoted, every missing keyword and, when the
   * severity was not found, the severity.
   */
  lemma FailureDetailNamesMisses(output: string, severity: string, keywords: seq<string>)
    ensures var detail := FindingVerdict(output, severity, keywords).detail;
      && (forall k | k in MissingKeywords(output, keywords) :: Contains(detail, Quote(k)))
      && (!SeverityFound(output, severity) ==> Contains(detail, Quote(severity)))
  {
    var detail := FindingVerdict(output, severity, keywords).detail;
    var missing := MissingKeywords(output, keywords);
    var keywordPart := MissingKeywordsMessage(missing);
    var severityPart := SeverityMessage(severity);
    var found := SeverityFound(output, severity);
    FindingFailureDetail(output, severity, keywords);
    if missing != [] && !found {
      assert detail == keywordPart + "; " + severityPart;
      JoinedKeepsParts(keywordPart, severityPart);
    } else if missing != [] {
      assert detail == keywordPart;
    } else if !found {
      assert detail == severityPart;
    }
  }

  /** With no keywords, only the severity check decides. */
  lemma NoKeywordsOnlySeverity(output: string, severity: string)
    ensures FindingVerdict(output, severity, []).passed <==> SeverityFound(output, severity)
  {
    EscapedSearch(severity, output);
  }

  /** An empty severity is found in every output. */
  lemma EmptySeverityFound(output: string)
    ensures SeverityFound(output, "")
  {
    EscapedSearch("", output);
  }

  /** A needle is found when it occurs at a known index, ignoring case. */
  lemma FoundAt(hay: string, needle: string, i: int)
    requires 0 <= i && i + |needle| <= |hay|
    requires forall j | 0 <= j < |needle| :: Lower(hay[i + j]) == Lower(needle[j])
    ensures ContainsIgnoringCase(hay, needle)
  {
    var p := Escape(needle);
    MatchesPrefixIff(p, hay[i..]);
    assert MatchesAt(p, hay, i);
    SearchIff(p, hay);
    EscapedSearch(needle, hay);
  }

  /** A needle with a letter that does not occur in the text, in either case, is not found. */
  lemma AbsentWithoutLetter(hay: string, needle: string, m: int)
    requires 0 <= m < |needle|
    requires forall k | 0 <= k < |hay| :: Lower(hay[k]) != Lower(needle[m])
    ensures !ContainsIgnoringCase(hay, needle)
  {
    var p := Escape(needle);
    SearchIff(p, hay);
    forall i | MatchesAt(p, hay, i)
      ensures false
    {
      MatchesPrefixIff(p, hay[i..]);
    }
    EscapedSearch(needle, hay);
  }

  /** Grades a case whose fixture should yield findings, as `grade_finding` does step by step. */
  method GradeFinding(output: string, severity: string, keywords: seq<string>) returns (v: Verdict)
    ensures v.passed <==>
      (forall k | k in keywords :: ContainsIgnoringCase(output, k)) &&
      ContainsIgnoringCase(output, severity)
    ensures v == FindingVerdict(output, severity, keywords)
  {
    var lower := LowerStr(output);
    var missing: seq<string> := [];
    for i := 0 to |keywords|
      invariant missing == MissingKeywords(output, keywords[..i])
    {
      MissingKeywordsSnoc(output, keywords[..i], keywords[i]);
      assert keywords[..i + 1] == keywords[..i] + [keywords[i]];
      if !Contains(lower, LowerStr(keywords[i])) {
        missing := missing + [keywords[i]];
      }
    }
    assert keywords[..|keywords|] == keywords;

    var severityFound := Search(Escape(severity), output);
    EscapedSearch(severity, output);
    MissingKeywordsEmptyIff(output, keywords);

    var errors: seq<string> := [];
    if missing != [] {
      errors := errors + [MissingKeywordsMessage(missing)];
    }
    if !severityFound {
      errors := errors + [SeverityMessage(severity)];
    }

    if errors != [] {
      return Verdict(false, Join(errors, "; "));
    }
    return Verdict(true, FoundAllMessage(keywords, severity));
  }
}
