/**
 * The run controller of the eval runner: one result per case in case order,
 * then the summary counts, the list of failed cases and the exit code.
 *
 * The filesystem and the agent are not called: for each case the model is
 * given an `Env` saying whether the fixture file exists and what the agent
 * invocation would produce.
 */
module Runner {
  import opened Text
  import opened Grader

  datatype Option<T> = None | Some(value: T)

  /** One entry of the case list. A missing `keywords` entry reads as []. */
  datatype Case = Case(fixture: string, expectClean: bool, severity: Option<string>, keywords: seq<string>)

  /** What invoking the agent on a fixture yields. */
  datatype AgentOutcome =
    | Completed(returnCode: int, output: string)  // stdout followed by stderr
    | TimedOut                                    // `subprocess.TimeoutExpired`
    | CommandNotFound                             // `FileNotFoundError`: no `opencode` on PATH

  /** The outside world as one case sees it. */
  datatype Env = Env(fixtureExists: bool, agent: AgentOutcome)

  datatype Status = Pass | Fail | Skip

  /** One entry of `results`: the fixture, its status and the detail text. */
  datatype CaseResult = CaseResult(fixture: string, status: Status, detail: string)

  /** What the loop does with one case: append a result, or end the process. */
  datatype Step = Record(result: CaseResult) | Abort

  const FixtureNotFound: string := "fixture not found"
  const AgentTimedOut: string := "agent timed out"

  /** The agent cannot be found, which ends the run with exit code 1. */
  predicate Aborts(env: Env)
  {
    env.fixtureExists && env.agent.CommandNotFound?
  }

  /** No case before index `n` aborts the run. */
  predicate NoAbortBefore(world: seq<Env>, n: int)
  {
    forall k | 0 <= k < n && k < |world| :: !Aborts(world[k])
  }

  /**
   * A finding case that reaches `grade_finding` carries a severity (with none,
   * `re.escape(None)` raises `TypeError`).
   */
  predicate Gradable(c: Case, env: Env)
  {
    c.expectClean || c.severity.Some? || !env.fixtureExists || !env.agent.Completed?
  }

  /** Every case the loop reaches can be graded. */
  predicate Runnable(cases: seq<Case>, world: seq<Env>)
  {
    |world| == |cases| &&
    forall j | 0 <= j < |cases| :: NoAbortBefore(world, j) ==> Gradable(cases[j], world[j])
  }

  /**
   * Dispatch on `expect_clean`: a clean case goes to `grade_clean`, ignoring the
   * severity and keywords; any other case goes to `grade_finding`.
   */
  function Grade(c: Case, output: string): (v: Verdict)
    requires c.expectClean || c.severity.Some?
    ensures c.expectClean ==>
      (!v.passed <==> Contains(LowerStr(output), "must-fix") || Contains(LowerStr(output), "must fix"))
    ensures !c.expectClean ==>
      (v.passed <==>
        (forall k | k in c.keywords :: ContainsIgnoringCase(output, k)) &&
        ContainsIgnoringCase(output, c.severity.value))
  {
    if c.expectClean then GradeClean(output)
    else FindingVerdict(output, c.severity.value, c.keywords)
  }

  /** The loop body for one case. */
  function StepFor(c: Case, env: Env): (r: Step)
    requires Gradable(c, env)
    ensures r.Abort? <==> Aborts(env)
    ensures r.Record? ==> r.result.fixture == c.fixture
    ensures !env.fixtureExists ==> r == Record(CaseResult(c.fixture, Skip, FixtureNotFound))
    ensures env.fixtureExists && env.agent.TimedOut? ==>
      r == Record(CaseResult(c.fixture, Fail, AgentTimedOut))
    ensures env.fixtureExists && env.agent.Completed? ==>
      r.Record? && r.result.status != Skip &&
      (r.result.status == Pass <==> Grade(c, env.agent.output).passed) &&
      r.result.detail == Grade(c, env.agent.output).detail
  {
    if !env.fixtureExists then Record(CaseResult(c.fixture, Skip, FixtureNotFound))
    else match env.agent
      case TimedOut => Record(CaseResult(c.fixture, Fail, AgentTimedOut))
      case CommandNotFound => Abort
      case Completed(_, output) =>
        var v := Grade(c, output);
        Record(CaseResult(c.fixture, if v.passed then Pass else Fail, v.detail))
  }

  /** `results` is what the loop appends for the first |results| cases, none of which aborts. */
  ghost predicate ReplayedPrefix(cases: seq<Case>, world: seq<Env>, results: seq<CaseResult>)
    requires Runnable(cases, world)
  {
    && |results| <= |cases|
    && NoAbortBefore(world, |results|)
    && (forall j | 0 <= j < |results| :: StepFor(cases[j], world[j]) == Record(results[j]))
  }

  /**
   * `results` is what the loop over `cases` appends: one result per case, in
   * case order, up to the first case whose agent cannot be found, where the
   * run ends (`aborted`).
   */
  ghost predicate ReplayedAs(cases: seq<Case>, world: seq<Env>, results: seq<CaseResult>, aborted: bool)
    requires Runnable(cases, world)
  {
    && ReplayedPrefix(cases, world, results)
    && (aborted <==> |results| < |cases|)
    && (aborted ==> Aborts(world[|results|]))
  }

  /** Recording the next case's result extends a replayed prefix. */
  lemma ReplayedPrefixSnoc(cases: seq<Case>, world: seq<Env>, results: seq<CaseResult>, r: CaseResult)
    requires Runnable(cases, world)
    requires ReplayedPrefix(cases, world, results) && |results| < |cases|
    requires StepFor(cases[|results|], world[|results|]) == Record(r)
    ensures ReplayedPrefix(cases, world, results + [r])
  {
  }

  /** A missing fixture's result does not depend on what the agent would have done: it is never run. */
  lemma SkipIgnoresAgent(c: Case, a1: AgentOutcome, a2: AgentOutcome)
    ensures StepFor(c, Env(false, a1)) == StepFor(c, Env(false, a2))
  {
  }

  /** The case list and the world determine the results: re-running yields the same report. */
  lemma ReplayDeterministic(cases: seq<Case>, world: seq<Env>,
                            results1: seq<CaseResult>, aborted1: bool,
                            results2: seq<CaseResult>, aborted2: bool)
    requires Runnable(cases, world)
    requires ReplayedAs(cases, world, results1, aborted1)
    requires ReplayedAs(cases, world, results2, aborted2)
    ensures results1 == results2 && aborted1 == aborted2
  {
    forall j | 0 <= j < |results1|
      ensures results1[j] == results2[j]
    {
      assert Record(results1[j]) == StepFor(cases[j], world[j]) == Record(results2[j]);
    }
  }

  /** The run ends early exactly when some case with an existing fixture finds no agent; a timeout does not. */
  lemma AbortedIffAgentMissing(cases: seq<Case>, world: seq<Env>, results: seq<CaseResult>, aborted: bool)
    requires Runnable(cases, world)
    requires ReplayedAs(cases, world, results, aborted)
    ensures aborted <==> exists j | 0 <= j < |world| :: Aborts(world[j])
    ensures !aborted ==> |results| == |cases|
  {
    if !aborted {
      forall j | 0 <= j < |world|
        ensures !Aborts(world[j])
      {
        assert StepFor(cases[j], world[j]) == Record(results[j]);
      }
    }
  }

  /** Results follow the case order; a result is skip exactly when its fixture is missing. */
  lemma ResultsFollowCases(cases: seq<Case>, world: seq<Env>, results: seq<CaseResult>, aborted: bool)
    requires Runnable(cases, world)
    requires ReplayedAs(cases, world, results, aborted)
    ensures forall j | 0 <= j < |results| :: results[j].fixture == cases[j].fixture
    ensures forall j | 0 <= j < |results| :: results[j].status == Skip <==> !world[j].fixtureExists
  {
    forall j | 0 <= j < |results|
      ensures results[j].fixture == cases[j].fixture
      ensures results[j].status == Skip <==> !world[j].fixtureExists
    {
      assert StepFor(cases[j], world[j]) == Record(results[j]);
    }
  }

  /**
   * The body of `main`'s loop for one case: skip a missing fixture without
   * calling the agent, record a timeout as a failure, end the run when the
   * agent cannot be found, and otherwise grade the output.
   */
  method RunCase(c: Case, env: Env) returns (step: Step)
    requires Gradable(c, env)
    ensures step == StepFor(c, env)
  {
    if !env.fixtureExists {
      return Record(CaseResult(c.fixture, Skip, FixtureNotFound));
    }
    match env.agent {
      case TimedOut =>
        return Record(CaseResult(c.fixture, Fail, AgentTimedOut));
      case CommandNotFound =>
        return Abort;
      case Completed(_, output) =>
        var v: Verdict;
        if c.expectClean {
          v := GradeClean(output);
        } else {
          v := GradeFinding(output, c.severity.value, c.keywords);
        }
        var status := if v.passed then Pass else Fail;
        return Record(CaseResult(c.fixture, status, v.detail));
    }
  }

  /**
   * The per-case loop of `main`: one result per case, in case order, until a
   * case finds no agent.
   */
  method RunCases(cases: seq<Case>, world: seq<Env>) returns (results: seq<CaseResult>, aborted: bool)
    requires Runnable(cases, world)
    ensures ReplayedAs(cases, world, results, aborted)
  {
    results, aborted := [], false;
    for i := 0 to |cases|
      invariant |results| == i
      invariant ReplayedPrefix(cases, world, results)
    {
      var step := RunCase(cases[i], world[i]);
      match step {
        case Abort =>
          aborted := true;
          return;
        case Record(r) =>
          ReplayedPrefixSnoc(cases, world, results, r);
          results := results + [r];
      }
    }
  }

  /** The results that carry status `st`, in order. */
  function WithStatus(results: seq<CaseResult>, st: Status): (selected: seq<CaseResult>)
    ensures |selected| <= |results|
    ensures forall r | r in selected :: r in results && r.status == st
  {
    if results == [] then []
    else (if results[0].status == st then [results[0]] else []) + WithStatus(results[1..], st)
  }

  lemma {:induction false} WithStatusSnoc(results: seq<CaseResult>, r: CaseResult, st: Status)
    ensures WithStatus(results + [r], st) ==
      WithStatus(results, st) + (if r.status == st then [r] else [])
  {
    if results != [] {
      assert (results + [r])[1..] == results[1..] + [r];
      WithStatusSnoc(results[1..], r, st);
    }
  }

  /** A result is selected exactly when it is in the list and has the status. */
  lemma {:induction false} WithStatusMembership(results: seq<CaseResult>, st: Status, r: CaseResult)
    ensures r in WithStatus(results, st) <==> r in results && r.status == st
  {
    if results != [] {
      WithStatusMembership(results[1..], st, r);
      assert results == [results[0]] + results[1..];
    }
  }

  /** Every result is counted once: passed + failed + skipped == total. */
  lemma {:induction false} StatusCountsPartition(results: seq<CaseResult>)
    ensures |WithStatus(results, Pass)| + |WithStatus(results, Fail)| + |WithStatus(results, Skip)|
            == |results|
  {
    if results != [] {
      StatusCountsPartition(results[1..]);
    }
  }

  /** `sum(1 for r in results if r["status"] == st)`. */
  method CountStatus(results: seq<CaseResult>, st: Status) returns (n: nat)
    ensures n == |WithStatus(results, st)|
  {
    n := 0;
    for i := 0 to |results|
      invariant n == |WithStatus(results[..i], st)|
    {
      WithStatusSnoc(results[..i], results[i], st);
      assert results[..i + 1] == results[..i] + [results[i]];
      if results[i].status == st {
        n := n + 1;
      }
    }
    assert results[..|results|] == results;
  }

  datatype Summary = Summary(total: nat, passed: nat, failed: nat, skipped: nat)

  /** The summary counts of `main`. */
  method Summarize(results: seq<CaseResult>) returns (s: Summary)
    ensures s.total == |results|
    ensures s.passed == |WithStatus(results, Pass)|
    ensures s.failed == |WithStatus(results, Fail)|
    ensures s.skipped == |WithStatus(results, Skip)|
    ensures s.passed + s.failed + s.skipped == s.total
  {
    var passed := CountStatus(results, Pass);
    var failed := CountStatus(results, Fail);
    var skipped := CountStatus(results, Skip);
    StatusCountsPartition(results);
    s := Summary(|results|, passed, failed, skipped);
  }

  /** The "Failed cases" listing: the failed results, in order. */
  method ListFailed(results: seq<CaseResult>) returns (listed: seq<CaseResult>)
    ensures listed == WithStatus(results, Fail)
    ensures forall r :: r in listed <==> r in results && r.status == Fail
  {
    listed := [];
    for i := 0 to |results|
      invariant listed == WithStatus(results[..i], Fail)
    {
      WithStatusSnoc(results[..i], results[i], Fail);
      assert results[..i + 1] == results[..i] + [results[i]];
      if results[i].status == Fail {
        listed := listed + [results[i]];
      }
    }
    assert results[..|results|] == results;
    forall r
      ensures r in listed <==> r in results && r.status == Fail
    {
      WithStatusMembership(results, Fail, r);
    }
  }

  /** `sys.exit(0 if failed == 0 else 1)`. */
  function ExitCode(s: Summary): (code: int)
    ensures code == 0 || code == 1
    ensures code == 0 <==> s.failed == 0
  {
    if s.failed == 0 then 0 else 1
  }

  /** No failed result exactly when the failed count is zero; skipped results never count as failed. */
  lemma NoFailureIff(results: seq<CaseResult>)
    ensures |WithStatus(results, Fail)| == 0 <==> forall r | r in results :: r.status != Fail
  {
    if |WithStatus(results, Fail)| != 0 {
      WithStatusMembership(results, Fail, WithStatus(results, Fail)[0]);
    } else {
      forall r | r in results
        ensures r.status != Fail
      {
        WithStatusMembership(results, Fail, r);
      }
    }
  }

  /** How the run ends: cut short by a missing agent, or with the full report. */
  datatype Report =
    | Aborted(results: seq<CaseResult>)
    | Finished(results: seq<CaseResult>, summary: Summary, failedCases: seq<CaseResult>)

  /** `main` from the loaded case list onwards, returning the report and the process exit code. */
  method RunEvals(cases: seq<Case>, world: seq<Env>) returns (report: Report, exitCode: int)
    requires Runnable(cases, world)
    ensures ReplayedAs(cases, world, report.results, report.Aborted?)
    ensures report.Finished? ==>
      && |report.results| == |cases|
      && report.summary == Summary(|report.results|, |WithStatus(report.results, Pass)|,
                                   |WithStatus(report.results, Fail)|, |WithStatus(report.results, Skip)|)
      && report.summary.passed + report.summary.failed + report.summary.skipped == report.summary.total
      && report.summary.failed == |report.failedCases|
      && report.failedCases == WithStatus(report.results, Fail)
    ensures exitCode == 0 || exitCode == 1
    ensures exitCode == 0 <==> report.Finished? && forall r | r in report.results :: r.status != Fail
  {
    var results, aborted := RunCases(cases, world);
    if aborted {
      return Aborted(results), 1;
    }
    var summary := Summarize(results);
    var failedCases := ListFailed(results);
    NoFailureIff(results);
    report := Finished(results, summary, failedCases);
    exitCode := ExitCode(summary);
  }
}
